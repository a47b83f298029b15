/** A power rail behind PMIC registers: the encoder and the decoder of its voltage, over
    the tables of PmicTable. */
module Pmic {
  import opened Numbers
  import opened Bytes
  import opened PmicTable

  /** One row of a control table.  The register mask is `width` ones above `offset` zeros. */
  datatype Row = Row(minVol: nat, maxVol: nat, cfgReg: nat, offset: nat, width: nat,
                     ctrlReg: nat, ctrlBit: nat, segs: seq<Segment>)
  {
    function Mask(): Byte { MaskOf(offset, width) }

    /** What every row of the tables satisfies: the codes fit the field, all segments
        count in the same direction, and the enable bit is not part of the field. */
    ghost predicate Shape() {
      && cfgReg < 256 && ctrlReg < 256 && ctrlBit < 8 && 0 < minVol <= maxVol
      && 0 < width <= 7 && offset + width <= 8
      && (cfgReg == ctrlReg ==> !(offset <= ctrlBit < offset + width))
      && Ascending(segs, 1) && Total(segs) <= Pow2(width)
      && Uniform(segs, segs[0].complement)
    }

    /** The segments cover the whole voltage range the row admits. */
    predicate Covers(v: nat)
      requires segs != []
    {
      segs[0].min <= Clamp(v) <= segs[|segs| - 1].max
    }

    function Clamp(v: nat): nat {
      if v < minVol then minVol else if v > maxVol then maxVol else v
    }
  }

  ghost predicate Uniform(segs: seq<Segment>, complement: bool) {
    forall i :: 0 <= i < |segs| ==> segs[i].complement == complement
  }

  type Registers = seq<Byte>

  // ---------------------------------------------------------------- the encoder

  /** The code and complement flag the encoding loop finds, with the C widths:
      u32 differences and a u8 running base. */
  function FindCode(segs: seq<Segment>, v: nat, base: nat): Option<(nat, bool)>
    requires AllOk(segs)
  {
    if segs == [] then None
    else
      var s := segs[0];
      var w := if v > s.max && 1 < |segs| && v < segs[1].min then s.max else v;
      if s.max >= w then Some((base + (w - s.min) % 0x1_0000_0000 / s.step, s.complement))
      else FindCode(segs[1..], w, (base + Count(s)) % 256)
  }

  /** The configuration byte written for a clamped voltage. */
  function NewByte(row: Row, reg: Byte, v: nat): Byte
    requires AllOk(row.segs) && row.offset <= 8
  {
    var cleared := And(reg, Not(row.Mask()));
    match FindCode(row.segs, v, 0)
    case None => cleared
    case Some((code, complement)) =>
      var b := Or(cleared, ShiftedByte(code, row.offset));
      if complement then Or(And(b, Not(row.Mask())), And(Not(b), row.Mask())) else b
  }

  function CfgWritten(row: Row, regs: Registers, setVol: int): (r: Registers)
    requires |regs| == 256 && row.cfgReg < 256 && AllOk(row.segs) && row.offset <= 8
    ensures |r| == 256
  {
    if setVol > 0 && row.minVol > 0 then regs[row.cfgReg := NewByte(row, regs[row.cfgReg], row.Clamp(setVol))] else regs
  }

  function CtrlWritten(row: Row, regs: Registers, onoff: int): (r: Registers)
    requires |regs| == 256 && row.ctrlReg < 256 && row.ctrlBit < 8
    ensures |r| == 256
  {
    if onoff < 0 then regs else regs[row.ctrlReg := regs[row.ctrlReg][row.ctrlBit := onoff != 0]]
  }

  /** One call of the rail setter. */
  ghost function Written(row: Row, regs: Registers, setVol: int, onoff: int): (r: Registers)
    requires |regs| == 256 && row.Shape()
    ensures |r| == 256
  {
    CtrlWritten(row, CfgWritten(row, regs, setVol), onoff)
  }

  /** The register states one call passes through: the voltage first, then the switch. */
  ghost function Steps(row: Row, regs: Registers, setVol: int, onoff: int): (s: seq<Registers>)
    requires |regs| == 256 && row.Shape()
    ensures Sized(s)
    ensures Latest(regs, s) == Written(row, regs, setVol, onoff)
  {
    (if setVol > 0 && row.minVol > 0 then [CfgWritten(row, regs, setVol)] else [])
    + (if onoff >= 0 then [Written(row, regs, setVol, onoff)] else [])
  }

  ghost predicate Sized(states: seq<Registers>) {
    forall i :: 0 <= i < |states| ==> |states[i]| == 256
  }

  /** The state after those passed through. */
  ghost function Latest(regs: Registers, passed: seq<Registers>): Registers {
    if passed == [] then regs else passed[|passed| - 1]
  }

  /** Position of a configuration byte in the table; complemented fields count down. */
  function Position(row: Row, b: Byte): (p: nat)
    requires row.offset + row.width <= 8 && row.segs != []
    ensures p < Pow2(row.width)
  {
    var raw := Value(FieldBits(b, row.offset, row.width));
    if row.segs[0].complement then Pow2(row.width) - 1 - raw else raw
  }

  ghost function RailPosition(row: Row, regs: Registers): nat
    requires |regs| == 256 && row.Shape()
  {
    Position(row, regs[row.cfgReg])
  }

  /** The voltage at a position, and -1 beyond the table. */
  function Decoded(segs: seq<Segment>, p: nat): int
    requires AllOk(segs)
  {
    if p < Total(segs) then Decode(segs, p) else -1
  }

  /** What the decoder reports: 0 for a disabled rail, -1 for a code outside the table. */
  ghost function RailVoltage(row: Row, regs: Registers): int
    requires |regs| == 256 && row.Shape()
  {
    if !regs[row.ctrlReg][row.ctrlBit] then 0 else Decoded(row.segs, RailPosition(row, regs))
  }

  // ---------------------------------------------------------------- encoder against table

  lemma NoWrap(x: nat)
    requires x < 0x1_0000_0000
    ensures x % 0x1_0000_0000 == x
  {}

  lemma {:induction false} FindCodeEncodes(segs: seq<Segment>, v: nat, base: nat, complement: bool)
    requires Ascending(segs, 1) && segs[0].min <= v <= segs[|segs| - 1].max && Uniform(segs, complement)
    requires base + Total(segs) < 256
    ensures FindCode(segs, v, base) == Some((base + Encode(segs, v), complement))
  {
    hide Count;
    if v <= segs[0].max {
      NoWrap(v - segs[0].min);
    } else {
      TailAscending(segs, 1);
      if v < segs[1].min {
        NoWrap(segs[0].max - segs[0].min);
      } else {
        var rest := segs[1..];
        assert (base + Count(segs[0])) % 256 == base + Count(segs[0]);
        FindCodeEncodes(rest, v, base + Count(segs[0]), complement);
      }
    }
  }

  lemma {:induction false} FindCodeAbove(segs: seq<Segment>, v: nat, base: nat)
    requires Ascending(segs, 1) && v > segs[|segs| - 1].max
    ensures FindCode(segs, v, base) == None
  {
    HeadBelowLast(segs, 1);
    if |segs| > 1 {
      TailAscending(segs, 1);
      HeadBelowLast(segs[1..], 1);
      FindCodeAbove(segs[1..], v, (base + Count(segs[0])) % 256);
    } else {
      assert FindCode(segs[1..], v, (base + Count(segs[0])) % 256) == None;
    }
  }

  /** Inserting a code: the field holds it, every other bit is left alone. */
  lemma InsertCode(row: Row, reg: Byte, code: nat)
    requires row.Shape() && code < Pow2(row.width)
    ensures
      var b := Or(And(reg, Not(row.Mask())), ShiftedByte(code, row.offset));
      && Value(FieldBits(b, row.offset, row.width)) == code
      && (forall i :: 0 <= i < 8 && !row.Mask()[i] ==> b[i] == reg[i])
  {
    hide Value, Ascending, Total, Pow2, ToBits;
    var o, w := row.offset, row.width;
    ValueOfBits(code, w);
    BitsPrefix(code, 8 - o, w);
    BitsAbove(code, 8 - o, w);
    var b := Or(And(reg, Not(row.Mask())), ShiftedByte(code, o));
    assert forall i :: 0 <= i < 8 && !row.Mask()[i] ==> b[i] == reg[i];
    assert forall k :: o <= k < o + w ==> b[k] == ToBits(code, 8 - o)[k - o];
    assert FieldBits(b, o, w) == ToBits(code, 8 - o)[..w];
  }

  /** Complementing the field afterwards turns the code into its distance from the top. */
  lemma ComplementField(row: Row, b: Byte)
    requires row.Shape()
    ensures
      var c := Or(And(b, Not(row.Mask())), And(Not(b), row.Mask()));
      && Value(FieldBits(c, row.offset, row.width)) == Pow2(row.width) - 1 - Value(FieldBits(b, row.offset, row.width))
      && (forall i :: 0 <= i < 8 && !row.Mask()[i] ==> c[i] == b[i])
  {
    hide Value, Ascending, Total, Pow2;
    var c := Or(And(b, Not(row.Mask())), And(Not(b), row.Mask()));
    var f := FieldBits(b, row.offset, row.width);
    ValueOfComplement(f);
    assert FieldBits(c, row.offset, row.width) == seq(|f|, i requires 0 <= i < |f| => !f[i]);
  }

  /** A number below 2^k has no bits from k on. */
  lemma {:induction false} BitsAbove(v: nat, n: nat, k: nat)
    requires k <= n && v < Pow2(k)
    ensures forall i :: k <= i < n ==> !ToBits(v, n)[i]
  {
    if n > 0 {
      BitsAbove(v / 2, n - 1, if k == 0 then 0 else k - 1);
    }
  }

  /** Encoding a request inside the table: the field takes the table's code, and no bit
      outside the field's mask changes. */
  lemma NewByteEncodes(row: Row, reg: Byte, v: nat)
    requires row.Shape() && row.segs[0].min <= v <= row.segs[|row.segs| - 1].max
    ensures Encode(row.segs, v) < Total(row.segs)
    ensures Position(row, NewByte(row, reg, v)) == Encode(row.segs, v)
    ensures forall i :: 0 <= i < 8 && !row.Mask()[i] ==> NewByte(row, reg, v)[i] == reg[i]
  {
    hide Encode, Total, FindCode, Value, Or, And, Not;
    EncodeIsFloor(row.segs, v);
    SmallPow(row.width);
    FindCodeEncodes(row.segs, v, 0, row.segs[0].complement);
    InsertCode(row, reg, Encode(row.segs, v));
    ComplementField(row, Or(And(reg, Not(row.Mask())), ShiftedByte(Encode(row.segs, v), row.offset)));
  }

  lemma SmallPow(w: nat)
    requires w <= 7
    ensures Pow2(w) < 256
  {
    assert Pow2(7) == 2 * Pow2(6) && Pow2(6) == 2 * Pow2(5) && Pow2(5) == 2 * Pow2(4) && Pow2(4) == 2 * Pow2(3);
    assert Pow2(3) == 2 * Pow2(2) && Pow2(2) == 2 * Pow2(1) && Pow2(1) == 2;
    assert w in {0, 1, 2, 3, 4, 5, 6, 7};
  }

  /** A request above the table leaves the field zero. */
  lemma NewByteAbove(row: Row, reg: Byte, v: nat)
    requires row.Shape() && v > row.segs[|row.segs| - 1].max
    ensures Value(FieldBits(NewByte(row, reg, v), row.offset, row.width)) == 0
  {
    FindCodeAbove(row.segs, v, 0);
    AllZero(FieldBits(NewByte(row, reg, v), row.offset, row.width));
  }

  lemma {:induction false} AllZero(bits: seq<bool>)
    requires forall i :: 0 <= i < |bits| ==> !bits[i]
    ensures Value(bits) == 0
  {
    if bits != [] {
      AllZero(bits[1..]);
    }
  }

  // ---------------------------------------------------------------- one write, decoded again

  /** The byte decodes to the largest table voltage not above the clamped request. */
  ghost predicate Serves(row: Row, b: Byte, v: nat)
    requires row.Shape()
  {
    var p := Position(row, b);
    && p < Total(row.segs) && Decode(row.segs, p) <= row.Clamp(v)
    && (p + 1 < Total(row.segs) ==> row.Clamp(v) < Decode(row.segs, p + 1))
  }

  /** Encoding and decoding a request is right exactly when the table covers the clamped
      request; above the table the zeroed field is right only by accident. */
  lemma EncodeServesExactly(row: Row, reg: Byte, v: nat)
    requires row.Shape()
    ensures Serves(row, NewByte(row, reg, row.Clamp(v)), v) <==>
      || row.Covers(v)
      || (row.Clamp(v) > row.segs[|row.segs| - 1].max
          && if row.segs[0].complement then Total(row.segs) == Pow2(row.width) else Total(row.segs) == 1)
  {
    hide FindCode, Encode, NewByte;
    var w, b := row.Clamp(v), NewByte(row, reg, row.Clamp(v));
    var p := Position(row, b);
    if row.Covers(v) {
      NewByteEncodes(row, reg, w);
      EncodeIsFloor(row.segs, w);
    } else if w < row.segs[0].min {
      if p < Total(row.segs) {
        DecodeRange(row.segs, p);
      }
      HeadBelowLast(row.segs, 1);
    } else {
      NewByteAbove(row, reg, w);
      if p < Total(row.segs) {
        DecodeRange(row.segs, p);
      }
      if p + 1 < Total(row.segs) {
        DecodeRange(row.segs, p + 1);
      }
    }
  }

  /** Writing a voltage the decoder reported gives the same code back. */
  lemma DecodeThenEncode(row: Row, regs: Registers, onoff: int)
    requires row.Shape() && |regs| == 256 && RailVoltage(row, regs) > 0
    requires row.minVol <= row.segs[0].min && row.segs[|row.segs| - 1].max <= row.maxVol
    ensures RailPosition(row, Written(row, regs, RailVoltage(row, regs), onoff)) == RailPosition(row, regs)
  {
    hide Encode, Decode, Total, NewByte;
    EncodeDecode(row.segs, RailPosition(row, regs));
    WriteEncodes(row, regs, RailVoltage(row, regs), onoff);
  }

  /** A write of a covered request leaves the rail at the table's code for it; a request
      that is not positive leaves the code alone. */
  lemma WriteEncodes(row: Row, regs: Registers, v: int, onoff: int)
    requires row.Shape() && |regs| == 256 && (v > 0 ==> row.Covers(v))
    ensures RailPosition(row, CfgWritten(row, regs, v))
            == if v > 0 then Encode(row.segs, row.Clamp(v)) else RailPosition(row, regs)
    ensures RailPosition(row, Written(row, regs, v, onoff)) == RailPosition(row, CfgWritten(row, regs, v))
    ensures Written(row, regs, v, onoff)[row.ctrlReg][row.ctrlBit]
            == if onoff < 0 then regs[row.ctrlReg][row.ctrlBit] else onoff != 0
  {
    hide Encode, NewByte, Total;
    var cfg := CfgWritten(row, regs, v);
    if v > 0 {
      NewByteEncodes(row, regs[row.cfgReg], row.Clamp(v));
    }
    assert FieldBits(CtrlWritten(row, cfg, onoff)[row.cfgReg], row.offset, row.width)
        == FieldBits(cfg[row.cfgReg], row.offset, row.width);
    assert cfg[row.ctrlReg][row.ctrlBit] == regs[row.ctrlReg][row.ctrlBit];
  }

  // ---------------------------------------------------------------- rails do not disturb each other

  /** The register bits a rail uses. */
  /** A write above the table of a row that counts up leaves the first code. */
  lemma WriteAbove(row: Row, regs: Registers, v: int, onoff: int)
    requires row.Shape() && |regs| == 256 && v > 0 && !row.segs[0].complement
    requires row.Clamp(v) > row.segs[|row.segs| - 1].max
    ensures RailPosition(row, Written(row, regs, v, onoff)) == 0
  {
    var b := NewByte(row, regs[row.cfgReg], row.Clamp(v));
    NewByteAbove(row, regs[row.cfgReg], row.Clamp(v));
    hide NewByte, Value;
    var cfg := CfgWritten(row, regs, v);
    assert cfg[row.cfgReg] == b;
    var w := Written(row, regs, v, onoff);
    assert FieldBits(w[row.cfgReg], row.offset, row.width) == FieldBits(b, row.offset, row.width);
  }

  predicate Owns(row: Row, reg: nat, bit: nat)
    requires bit < 8
  {
    (reg == row.cfgReg && row.Mask()[bit]) || (reg == row.ctrlReg && bit == row.ctrlBit)
  }

  ghost predicate Independent(a: Row, b: Row) {
    forall reg: nat, bit: nat | bit < 8 :: !(Owns(a, reg, bit) && Owns(b, reg, bit))
  }

  /** A write changes no bit the rail does not own. */
  lemma WriteFrame(row: Row, regs: Registers, v: int, onoff: int)
    requires row.Shape() && |regs| == 256 && (v > 0 ==> row.Covers(v))
    ensures forall reg: nat, bit: nat | reg < 256 && bit < 8 && !Owns(row, reg, bit) ::
        Written(row, regs, v, onoff)[reg][bit] == regs[reg][bit]
  {
    hide NewByte, Total;
    if v > 0 {
      NewByteEncodes(row, regs[row.cfgReg], row.Clamp(v));
    }
  }

  /** Setting one rail leaves the voltage and code of an independent rail as they were. */
  lemma RailsIndependent(a: Row, b: Row, regs: Registers, v: int, onoff: int)
    requires a.Shape() && b.Shape() && |regs| == 256 && Independent(a, b) && (v > 0 ==> a.Covers(v))
    ensures RailVoltage(b, Written(a, regs, v, onoff)) == RailVoltage(b, regs)
    ensures RailPosition(b, Written(a, regs, v, onoff)) == RailPosition(b, regs)
  {
    hide Written, Total, Decode;
    WriteFrame(a, regs, v, onoff);
    var after := Written(a, regs, v, onoff);
    forall k | b.offset <= k < b.offset + b.width ensures after[b.cfgReg][k] == regs[b.cfgReg][k] {
      assert Owns(b, b.cfgReg, k);
    }
    assert FieldBits(after[b.cfgReg], b.offset, b.width) == FieldBits(regs[b.cfgReg], b.offset, b.width);
    assert Owns(b, b.ctrlReg, b.ctrlBit);
  }

  lemma TotalNil()
    ensures Total([]) == 0
  {}

  lemma DecodeStep(segs: seq<Segment>, c: nat)
    requires AllOk(segs) && segs != []
    ensures Total(segs) == Count(segs[0]) + Total(segs[1..])
    ensures c < Count(segs[0]) ==> Decode(segs, c) == segs[0].min + c * segs[0].step
    ensures Count(segs[0]) <= c < Total(segs) ==> Decode(segs, c) == Decode(segs[1..], c - Count(segs[0]))
  {}

  // ---------------------------------------------------------------- the driver

  class PmicBus {
    var regs: Registers
    ghost var states: seq<Registers>   // every state a write has led to
    ghost var faults: nat              // accesses that failed

    ghost predicate Valid()
      reads this
    {
      |regs| == 256
    }

    /** A register read on the bus; it may fail. */
    method Read(reg: nat) returns (ok: bool, b: Byte)
      requires Valid() && reg < 256
      modifies `faults
      ensures b == regs[reg] && faults == old(faults) + if ok then 0 else 1
    {
      ok := *;
      b := regs[reg];
      if !ok {
        faults := faults + 1;
      }
    }

    /** A register write on the bus; a failing one changes nothing. */
    method Write(reg: nat, b: Byte) returns (ok: bool)
      requires Valid() && reg < 256
      modifies `regs, `states, `faults
      ensures Valid() && regs == (if ok then old(regs)[reg := b] else old(regs))
      ensures states == (if ok then old(states) + [regs] else old(states))
      ensures faults == old(faults) + if ok then 0 else 1
    {
      ok := *;
      if ok {
        regs := regs[reg := b];
        states := states + [regs];
      } else {
        faults := faults + 1;
      }
    }

    /** The encoding loop. */
    method EncodeByte(row: Row, reg: Byte, setVol: nat) returns (b: Byte)
      requires row.Shape()
      ensures b == NewByte(row, reg, setVol)
    {
      b := And(reg, Not(row.Mask()));
      hide Count, And, Or, Not;
      var vol: nat, base: nat, i := setVol, 0, 0;
      assert row.segs[0..] == row.segs;
      while i < |row.segs|
        invariant 0 <= i <= |row.segs|
        invariant FindCode(row.segs, setVol, 0) == FindCode(row.segs[i..], vol, base)
      {
        var s := row.segs[i];
        assert row.segs[i..][0] == s && row.segs[i..][1..] == row.segs[i+1..];
        assert i + 1 < |row.segs| ==> row.segs[i..][1] == row.segs[i+1];
        if vol > s.max && i + 1 < |row.segs| && vol < row.segs[i+1].min {
          vol := s.max;
        }
        if s.max >= vol {
          var code := base + (vol - s.min) % 0x1_0000_0000 / s.step;
          assert FindCode(row.segs, setVol, 0) == Some((code, s.complement));
          b := Or(b, ShiftedByte(code, row.offset));
          if s.complement {
            var t := And(Not(b), row.Mask());
            b := And(b, Not(row.Mask()));
            b := Or(b, t);
          }
          return;
        }
        base := (base + Count(s)) % 256;
        i := i + 1;
      }
    }

    /** Set a rail's voltage and switch it.  It fails exactly when the bus does, and then stops
        after the part already written; `went` counts the writes. */
    method SetRail(row: Row, setVol: int, onoff: int) returns (ret: int, ghost went: nat)
      requires Valid() && row.Shape()
      modifies `regs, `states, `faults
      ensures Valid() && ret == (if faults == old(faults) then 0 else -1)
      ensures faults == old(faults) || faults == old(faults) + 1
      ensures var steps := Steps(row, old(regs), setVol, onoff);
        && went <= |steps| && (ret == 0 <==> went == |steps|)
        && states == old(states) + steps[..went] && regs == Latest(old(regs), steps[..went])
    {
      var ok;
      ok, went := WriteVoltage(row, setVol);
      if !ok {
        return -1, 0;
      }
      ghost var done;
      ok, done := WriteSwitch(row, onoff);
      hide CfgWritten, CtrlWritten;
      went := went + done;
      ret := if ok then 0 else -1;
    }

    /** The first half: a voltage, if one is asked for. */
    method WriteVoltage(row: Row, setVol: int) returns (ok: bool, ghost went: nat)
      requires Valid() && row.Shape()
      modifies `regs, `states, `faults
      ensures Valid() && faults == old(faults) + if ok then 0 else 1
      ensures went == (if ok && setVol > 0 then 1 else 0) && (!ok ==> setVol > 0)
      ensures regs == if ok then CfgWritten(row, old(regs), setVol) else old(regs)
      ensures states == old(states) + if went == 1 then [regs] else []
    {
      if setVol <= 0 || row.minVol == 0 {
        return true, 0;
      }
      var vol := setVol;
      if vol < row.minVol {
        vol := row.minVol;
      } else if vol > row.maxVol {
        vol := row.maxVol;
      }
      var b;
      ok, b := Read(row.cfgReg);
      if !ok {
        return false, 0;
      }
      b := EncodeByte(row, b, vol);
      ok := Write(row.cfgReg, b);
      went := if ok then 1 else 0;
    }

    /** The second half: the enable bit, unless it is left alone. */
    method WriteSwitch(row: Row, onoff: int) returns (ok: bool, ghost went: nat)
      requires Valid() && row.Shape()
      modifies `regs, `states, `faults
      ensures Valid() && faults == old(faults) + if ok then 0 else 1
      ensures went == (if ok && onoff >= 0 then 1 else 0) && (!ok ==> onoff >= 0)
      ensures regs == if ok then CtrlWritten(row, old(regs), onoff) else old(regs)
      ensures states == old(states) + if went == 1 then [regs] else []
    {
      if onoff < 0 {
        return true, 0;
      }
      var b;
      ok, b := Read(row.ctrlReg);
      if !ok {
        return false, 0;
      }
      if onoff == 0 {
        b := b[row.ctrlBit := false];
      } else {
        b := b[row.ctrlBit := true];
      }
      ok := Write(row.ctrlReg, b);
      went := if ok then 1 else 0;
    }

    /** The decoding loop; -1 also stands for a failed bus read. */
    method GetRail(row: Row) returns (vol: int)
      requires Valid() && row.Shape()
      modifies `faults
      ensures vol == if faults == old(faults) then RailVoltage(row, regs) else -1
      ensures faults == old(faults) || faults == old(faults) + 1
    {
      var ok, b := Read(row.ctrlReg);
      if !ok {
        return -1;
      }
      if !b[row.ctrlBit] {
        return 0;
      }
      ok, b := Read(row.cfgReg);
      if !ok {
        return -1;
      }
      vol := DecodeByte(row, b);
    }

    /** The decoding loop over the segments. */
    method DecodeByte(row: Row, b: Byte) returns (vol: int)
      requires row.Shape()
      ensures vol == Decoded(row.segs, Position(row, b))
    {
      DecodeStart(row, b);
      ghost var p, down := Position(row, b), row.segs[0].complement;
      var code := Value(FieldBits(b, row.offset, row.width));
      var top := Pow2(row.width) - 1;
      var base1, base2, i := 0, 0, 0;
      hide *;
      while i < |row.segs|
        invariant 0 <= i <= |row.segs| && 0 <= base1 == base2 < 256
        invariant Behind(row.segs, i, base2, p)
        invariant code == if down then top - p else p
      {
        var s := row.segs[i];
        NextPiece(row.segs, i, base2, p, down);
        ghost var rel, voltage := p - base2, Decoded(row.segs, p);
        base1 := (base1 + Count(s)) % 256;
        assert base1 == base2 + Count(s) by { NoWrapByte(base2 + Count(s)); }
        if s.complement {
          code := top - code;
        }
        assert code == p;
        if code < base1 {
          var above := code - base2;
          assert above == rel;
          vol := above * s.step + s.min;
          assert vol == voltage;
          return;
        }
        if s.complement {
          code := top - code;
        }
        base2 := (base2 + Count(s)) % 256;
        assert base2 == base1;
        i := i + 1;
      }
      AllBehind(row.segs, i, base2, p);
      return -1;
    }
  }

  lemma NoWrapByte(x: nat)
    requires x < 256
    ensures x % 256 == x
  {}

  /** The first `i` pieces, of `base` codes, lie below position `p`. */
  ghost predicate Behind(segs: seq<Segment>, i: nat, base: nat, p: nat)
    requires i <= |segs| && AllOk(segs)
  {
    && base <= p && base + Total(segs[i..]) == Total(segs)
    && (p < Total(segs) ==> Decode(segs, p) == Decode(segs[i..], p - base))
  }

  lemma DecodeStart(row: Row, b: Byte)
    requires row.Shape()
    ensures
      var p, top := Position(row, b), Pow2(row.width) - 1;
      && p <= top && Value(FieldBits(b, row.offset, row.width)) == if row.segs[0].complement then top - p else p
    ensures Uniform(row.segs, row.segs[0].complement) && Total(row.segs) < 256
    ensures Behind(row.segs, 0, 0, Position(row, b))
  {
    hide Value, Pow2, Total, Decode, FieldBits, Ascending;
    SmallPow(row.width);
    assert row.segs[0..] == row.segs;
  }

  /** Position `p` is in piece `i`, or behind it. */
  lemma NextPiece(segs: seq<Segment>, i: nat, base: nat, p: nat, down: bool)
    requires i < |segs| && AllOk(segs) && Behind(segs, i, base, p) && Uniform(segs, down)
    ensures segs[i].complement == down && segs[i].step > 0 && segs[i].min <= segs[i].max
    ensures base + Count(segs[i]) <= Total(segs)
    ensures p < base + Count(segs[i]) ==> Decoded(segs, p) == (p - base) * segs[i].step + segs[i].min
    ensures p >= base + Count(segs[i]) ==> Behind(segs, i + 1, base + Count(segs[i]), p)
  {
    hide Count, Total, Decode;
    assert segs[i..][0] == segs[i] && segs[i..][1..] == segs[i+1..];
    DecodeStep(segs[i..], p - base);
  }

  lemma AllBehind(segs: seq<Segment>, i: nat, base: nat, p: nat)
    requires i == |segs| && AllOk(segs) && Behind(segs, i, base, p)
    ensures Decoded(segs, p) == -1
  {
    assert segs[i..] == [];
    TotalNil();
  }
}
