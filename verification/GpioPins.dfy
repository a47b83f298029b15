/** What the batched pin writer means for each single pin, and exactly when it
    agrees with setting the pins one by one. */
module GpioPins {
  import opened WordFields
  import opened Gpio

  /** The operation meant by an entry: every register in the bank of its port. */
  function PinOp(soc: Soc, e: Entry, select: bool): (op: Op)
    requires soc.Ok() && EntryOk(e) && e.port != 0
    ensures op.Ok()
  {
    Bind(soc, e, select, Route(BankOf(e.port), BankOf(e.port)))
  }

  /** Is the function select of entry `i` written?  With `force` the first entry writes
      it even when it is negative, as the batched writer does. */
  predicate Selects(run: seq<Entry>, force: bool, i: nat)
    requires i < |run|
  {
    (force && i == 0) || run[i].mulSel >= 0
  }

  /** Setting the pins one by one. */
  function PinOps(soc: Soc, run: seq<Entry>, force: bool): (ops: seq<Op>)
    requires soc.Ok() && Listed(run)
    ensures |ops| == |run| && OpsOk(ops)
    ensures forall i :: 0 <= i < |run| ==> ops[i] == PinOp(soc, run[i], Selects(run, force, i))
  {
    seq(|run|, i requires 0 <= i < |run| => PinOp(soc, run[i], Selects(run, force, i)))
  }

  // ---------------------------------------------------------------- the last writer of a field wins

  predicate Hits(op: Op, kind: Kind, addr: nat, shift: Shift)
    requires op.Ok()
  {
    op.Active(kind) && op.Addr(kind) == addr && FieldShift(kind, op.e.pin) == shift
  }

  /** What a field reads after an operation has written it. */
  function Written(op: Op, kind: Kind, layout: Layout, setGpio: bool): bv32 {
    op.Value(kind, setGpio) & FieldMask(kind, layout)
  }

  lemma FieldAfterKind(op: Op, k: Kind, kind: Kind, addr: nat, shift: Shift, layout: Layout, setGpio: bool, m: Memory)
    requires op.Ok() && |m| == BUS_SIZE && addr < BUS_SIZE
    requires k != kind ==> op.Addr(k) != addr
    requires FieldOk(FieldMask(kind, layout), shift)
    ensures GetField(ApplyKind(op, k, layout, setGpio, m)[addr], FieldMask(kind, layout), shift)
            == if k == kind && Hits(op, kind, addr, shift) then Written(op, kind, layout, setGpio)
               else GetField(m[addr], FieldMask(kind, layout), shift)
  {
    hide GetField, SetField;
    if k == kind && op.Active(kind) && op.Addr(kind) == addr {
      FieldsFit(kind, layout, op.e.pin);
      var s := FieldShift(kind, op.e.pin);
      if s == shift {
        ReadBack(m[addr], FieldMask(kind, layout), shift, op.Value(kind, setGpio));
      } else {
        OtherFieldKept(m[addr], FieldMask(kind, layout), s, shift, op.Value(kind, setGpio));
      }
    }
  }

  lemma FieldAfterOp(op: Op, kind: Kind, addr: nat, shift: Shift, layout: Layout, setGpio: bool, m: Memory)
    requires op.Ok() && |m| == BUS_SIZE && addr < BUS_SIZE
    requires forall k :: k != kind ==> op.Addr(k) != addr
    requires FieldOk(FieldMask(kind, layout), shift)
    ensures GetField(Apply(op, layout, setGpio, m)[addr], FieldMask(kind, layout), shift)
            == if Hits(op, kind, addr, shift) then Written(op, kind, layout, setGpio)
               else GetField(m[addr], FieldMask(kind, layout), shift)
  {
    hide GetField, SetField, ApplyKind, FieldMask;
    var m1 := ApplyKind(op, Cfg, layout, setGpio, m);
    var m2 := ApplyKind(op, Pull, layout, setGpio, m1);
    var m3 := ApplyKind(op, Drive, layout, setGpio, m2);
    FieldAfterKind(op, Cfg, kind, addr, shift, layout, setGpio, m);
    FieldAfterKind(op, Pull, kind, addr, shift, layout, setGpio, m1);
    FieldAfterKind(op, Drive, kind, addr, shift, layout, setGpio, m2);
    FieldAfterKind(op, Data, kind, addr, shift, layout, setGpio, m3);
  }

  /** After a run, a field holds what its last writer `j` put there, or its old value if `j` is -1. */
  lemma {:induction false} FieldAfterRun(ops: seq<Op>, j: int, kind: Kind, addr: nat, shift: Shift,
                                         layout: Layout, setGpio: bool, m: Memory)
    requires OpsOk(ops) && |m| == BUS_SIZE && addr < BUS_SIZE
    requires forall op, k :: op in ops && k != kind ==> op.Addr(k) != addr
    requires FieldOk(FieldMask(kind, layout), shift)
    requires -1 <= j < |ops| && (j >= 0 ==> Hits(ops[j], kind, addr, shift))
    requires forall i :: j < i < |ops| ==> !Hits(ops[i], kind, addr, shift)
    ensures GetField(Run(ops, layout, setGpio, m)[addr], FieldMask(kind, layout), shift)
            == if j >= 0 then Written(ops[j], kind, layout, setGpio)
               else GetField(m[addr], FieldMask(kind, layout), shift)
  {
    hide GetField, SetField, Apply, FieldMask, FieldShift, FieldOk, Hits, Written;
    if ops != [] {
      var n := |ops| - 1;
      FieldAfterOp(ops[n], kind, addr, shift, layout, setGpio, Run(ops[..n], layout, setGpio, m));
      if j < n {
        FieldAfterRun(ops[..n], j, kind, addr, shift, layout, setGpio, m);
      }
    }
  }

  // ---------------------------------------------------------------- per-pin meaning

  /** A setting of a pin, read from the registers of its own bank. */
  function PinField(soc: Soc, m: Memory, kind: Kind, port: nat, pin: nat): bv32
    requires soc.Ok() && |m| == BUS_SIZE && 1 <= port < 256 && pin < 32
  {
    GetField(m[RegAddr(soc, BankOf(port), kind, port, RegIndex(kind, pin))], FieldMask(kind, soc.layout),
        FieldShift(kind, pin))
  }

  predicate Writes(e: Entry, select: bool, kind: Kind, port: nat, pin: nat) {
    && e.port == port && e.pin == pin
    && (match kind
        case Cfg => select
        case Pull => e.pull >= 0
        case Drive => e.drive >= 0
        case Data => e.mulSel == 1 && e.data >= 0)
  }

  /** The bits an entry asks for; without `setGpio` the function select is cleared. */
  function Setting(e: Entry, kind: Kind, layout: Layout, setGpio: bool): bv32 {
    FieldMask(kind, layout) &
    match kind
    case Cfg => if setGpio then Low(e.mulSel) else 0
    case Pull => Low(e.pull)
    case Drive => Low(e.drive)
    case Data => Low(e.data)
  }

  lemma WrittenIsSetting(soc: Soc, e: Entry, select: bool, kind: Kind, setGpio: bool)
    requires soc.Ok() && EntryOk(e) && e.port != 0
    ensures Written(PinOp(soc, e, select), kind, soc.layout, setGpio) == Setting(e, kind, soc.layout, setGpio)
  {
    hide Low, FieldMask;
  }

  lemma PinOpAddr(soc: Soc, e: Entry, select: bool, kind: Kind)
    requires soc.Ok() && EntryOk(e) && e.port != 0
    ensures PinOp(soc, e, select).Addr(kind) == RegAddr(soc, BankOf(e.port), kind, e.port, RegIndex(kind, e.pin))
  {}

  lemma PinOpHits(soc: Soc, e: Entry, select: bool, kind: Kind, port: nat, pin: nat)
    requires soc.Ok() && EntryOk(e) && e.port != 0 && 1 <= port < 256 && pin < 32
    ensures Hits(PinOp(soc, e, select), kind, RegAddr(soc, BankOf(port), kind, port, RegIndex(kind, pin)),
        FieldShift(kind, pin))
            <==> Writes(e, select, kind, port, pin)
  {
    var op := PinOp(soc, e, select);
    PinOpAddr(soc, e, select, kind);
    if op.Addr(kind) == RegAddr(soc, BankOf(port), kind, port, RegIndex(kind, pin)) {
      AddressesDistinct(soc, BankOf(e.port), kind, e.port, RegIndex(kind, e.pin), BankOf(port),
          kind, port, RegIndex(kind, pin));
      if FieldShift(kind, e.pin) == FieldShift(kind, pin) {
        FieldsDistinct(kind, e.pin, pin);
      }
    }
  }

  /** Every setting of every pin ends as the last entry that writes it says, or is left alone. */
  lemma PinsAfterRun(soc: Soc, run: seq<Entry>, force: bool, setGpio: bool, m: Memory, kind: Kind,
        port: nat, pin: nat, j: int)
    requires soc.Ok() && Listed(run) && |m| == BUS_SIZE && 1 <= port < 256 && pin < 32
    requires -1 <= j < |run| && (j >= 0 ==> Writes(run[j], Selects(run, force, j), kind, port, pin))
    requires forall i :: j < i < |run| ==> !Writes(run[i], Selects(run, force, i), kind, port, pin)
    ensures PinField(soc, Run(PinOps(soc, run, force), soc.layout, setGpio, m), kind, port, pin)
            == if j >= 0 then Setting(run[j], kind, soc.layout, setGpio)
               else PinField(soc, m, kind, port, pin)
  {
    hide GetField, SetField, RegAddr, FieldMask, FieldShift, FieldOk, Hits, Writes, Run, Written, Setting;
    var ops := PinOps(soc, run, force);
    var addr, shift := RegAddr(soc, BankOf(port), kind, port, RegIndex(kind, pin)), FieldShift(kind, pin);
    forall op, k | op in ops && k != kind ensures op.Addr(k) != addr {
      var i :| 0 <= i < |ops| && ops[i] == op;
      PinOpAddr(soc, run[i], Selects(run, force, i), k);
      if op.Addr(k) == addr {
        AddressesDistinct(soc, BankOf(run[i].port), k, run[i].port, RegIndex(k, run[i].pin),
            BankOf(port), kind, port, RegIndex(kind, pin));
      }
    }
    forall i | 0 <= i < |ops|
      ensures Hits(ops[i], kind, addr, shift) <==> Writes(run[i], Selects(run, force, i), kind, port, pin)
    {
      PinOpHits(soc, run[i], Selects(run, force, i), kind, port, pin);
    }
    if j >= 0 {
      WrittenIsSetting(soc, run[j], Selects(run, force, j), kind, setGpio);
    }
    FieldsFit(kind, soc.layout, pin);
    FieldAfterRun(ops, j, kind, addr, shift, soc.layout, setGpio, m);
  }

  // ---------------------------------------------------------------- the settings as numbers

  function ShiftOf(i: nat): Shift
    requires i < 32
  {
    i as bv6
  }

  /** Bit `i` of a register. */
  predicate BitAt(w: bv32, i: nat)
    requires i < 32
  {
    Shifted(w, ShiftOf(i)) & 1 != 0
  }

  function BitValue(on: bool, weight: nat): nat { if on then weight else 0 }

  /** Where a pin's setting begins in its register: four bits a pin for the function select, two
      for pull and drive, one for data. */
  function FirstBitOf(kind: Kind, pin: nat): (p: nat)
    requires pin < 32
    ensures p <= match kind case Cfg => 28 case Pull => 30 case Drive => 30 case Data => 31
  {
    match kind case Cfg => 4 * (pin % 8) case Pull => 2 * (pin % 16) case Drive => 2 * (pin % 16) case Data => pin
  }

  /** The values a setting can take. */
  function Range(kind: Kind, layout: Layout): nat {
    match kind case Cfg => (if layout.V1? then 8 else 16) case Pull => 4 case Drive => 4 case Data => 2
  }

  /** The number in the bits of a register from `p` on, below `range`. */
  function NumberAt(w: bv32, p: nat, range: nat): nat
    requires p + 3 < 32 || (range <= 4 && p + 1 < 32) || (range <= 2 && p < 32)
  {
    BitValue(BitAt(w, p), 1)
    + (if range > 2 then BitValue(BitAt(w, p + 1), 2) else 0)
    + (if range > 4 then BitValue(BitAt(w, p + 2), 4) else 0)
    + (if range > 8 then BitValue(BitAt(w, p + 3), 8) else 0)
  }

  /** Byte address of the word that holds a setting.  A port is a block of 9 or 12 words: four of
      selects, one of data, two or four of drives, and the pulls; the twelfth port is the first of
      the second controller. */
  function SettingAddress(soc: Soc, kind: Kind, port: nat, pin: nat): int {
    var words := if soc.layout.V1? then 9 else 12;
    var word := match kind
      case Cfg => pin / 8
      case Data => 4
      case Drive => 5 + pin / 16
      case Pull => words - (if soc.layout.V1? then 2 else 3) + pin / 16;
    (if port < 12 then soc.pioBase + 4 * (words * (port - 1) + word)
     else soc.rPioBase + 4 * (words * (port - 12) + word))
  }

  /** The macros name that word. */
  lemma SettingAddressIs(soc: Soc, kind: Kind, port: nat, pin: nat)
    requires soc.Ok() && 1 <= port < 256 && pin < 32
    ensures RegAddr(soc, BankOf(port), kind, port, RegIndex(kind, pin)) == SettingAddress(soc, kind, port, pin)
  {}

  /** A setting of a pin as a number, bit by bit. */
  function PinNumber(soc: Soc, m: Memory, kind: Kind, port: nat, pin: nat): nat
    requires soc.Ok() && |m| == BUS_SIZE && 1 <= port < 256 && pin < 32
  {
    SettingAddressIs(soc, kind, port, pin);
    NumberAt(m[SettingAddress(soc, kind, port, pin)], FirstBitOf(kind, pin), Range(kind, soc.layout))
  }

  /** The number an entry asks for. */
  function Wanted(e: Entry, kind: Kind, layout: Layout, setGpio: bool): nat {
    match kind
    case Cfg => if setGpio then e.mulSel % Range(Cfg, layout) else 0
    case Pull => e.pull % 4
    case Drive => e.drive % 4
    case Data => e.data % 2
  }

  /** The number in the low four bits of a field. */
  function LowNumber(v: bv32): nat {
    BitValue(v & 1 != 0, 1) + BitValue(v & 2 != 0, 2) + BitValue(v & 4 != 0, 4) + BitValue(v & 8 != 0, 8)
  }

  /** A field read with shift and mask holds the number in its bits. */
  lemma FieldHoldsNumber(w: bv32, kind: Kind, layout: Layout, pin: nat)
    requires pin < 32
    ensures LowNumber(GetField(w, FieldMask(kind, layout), FieldShift(kind, pin)))
            == NumberAt(w, FirstBitOf(kind, pin), Range(kind, layout))
  {
    var p, mask, range := FirstBitOf(kind, pin), FieldMask(kind, layout), Range(kind, layout);
    assert MaskFor(mask, range) && (p + 3 < 32 || (range <= 4 && p + 1 < 32) || (range <= 2 && p < 32));
    ShiftIs(kind, pin);
    hide Shifted, ShiftOf, FieldShift, FirstBitOf, NumberAt, LowNumber, MaskFor;
    NumberOfBits(w, p, mask, range);
  }

  lemma ShiftIs(kind: Kind, pin: nat)
    requires pin < 32
    ensures FieldShift(kind, pin) == ShiftOf(FirstBitOf(kind, pin))
  {}

  predicate MaskFor(mask: bv32, range: nat) {
    || (mask == 0xF && range == 16)
    || (mask == 0x7 && range == 8)
    || (mask == 0x3 && range == 4)
    || (mask == 0x1 && range == 2)
  }

  /** The masked, shifted register holds the number in the bits it keeps. */
  lemma NumberOfBits(w: bv32, p: nat, mask: bv32, range: nat)
    requires MaskFor(mask, range) && (p + 3 < 32 || (range <= 4 && p + 1 < 32) || (range <= 2 && p < 32))
    ensures LowNumber(Shifted(w, ShiftOf(p)) & mask) == NumberAt(w, p, range)
  {
    hide Shifted, ShiftOf;
    var x := Shifted(w, ShiftOf(p));
    BitIs(w, p, x, 0);
    if range > 2 {
      BitIs(w, p, x, 1);
    }
    if range > 4 {
      BitIs(w, p, x, 2);
      BitIs(w, p, x, 3);
    }
    LowBits(x);
    hide BitAt, BitValue;
    assert LowNumber(x) == BitValue(x & 1 != 0, 1) + BitValue(x & 2 != 0, 2)
                         + BitValue(x & 4 != 0, 4) + BitValue(x & 8 != 0, 8);
    hide LowNumber;
  }

  lemma BitIs(w: bv32, p: nat, x: bv32, k: nat)
    requires p + k < 32 && k < 4 && x == Shifted(w, ShiftOf(p))
    ensures k == 0 ==> BitAt(w, p) == (x & 1 != 0)
    ensures k == 1 ==> BitAt(w, p + 1) == (x & 2 != 0)
    ensures k == 2 ==> BitAt(w, p + 2) == (x & 4 != 0)
    ensures k == 3 ==> BitAt(w, p + 3) == (x & 8 != 0)
  {
    hide BitAt, Shifted, ShiftOf;
    ShiftedBits(w, p, k);
    OneBit(x);
  }

  lemma NextBit(p: nat, k: nat)
    requires p + k < 32 && k < 4
    ensures (p + k) as bv6 == (p as bv6) + (k as bv6)
    decreases k
  {
    if k > 0 {
      NextBit(p, k - 1);
      OneMore(p + k - 1);
      OneMore(k - 1);
    }
  }

  lemma OneMore(p: nat)
    requires p + 1 < 32
    ensures (p + 1) as bv6 == (p as bv6) + 1
  {}

  lemma ShiftTwice(w: bv32, s: bv6, k: bv6)
    requires k < 4 && s + k < 32 && s < 32
    ensures w >> (s + k) == (w >> s) >> k
  {
    if k == 0 {
    } else if k == 1 {
    } else if k == 2 {
    } else {
      assert k == 3;
    }
  }

  lemma OneBit(x: bv32)
    ensures (Shifted(x, ShiftOf(0)) & 1 != 0) == (x & 1 != 0) && (Shifted(x, ShiftOf(1)) & 1 != 0) == (x & 2 != 0)
    ensures (Shifted(x, ShiftOf(2)) & 1 != 0) == (x & 4 != 0) && (Shifted(x, ShiftOf(3)) & 1 != 0) == (x & 8 != 0)
  {}

  /** The bits from `p` on are the low bits of the shifted register. */
  lemma ShiftedBits(w: bv32, p: nat, k: nat)
    requires p + k < 32 && k < 4
    ensures BitAt(w, p + k) == (Shifted(Shifted(w, ShiftOf(p)), ShiftOf(k)) & 1 != 0)
  {
    NextBit(p, k);
    SmallShifts(p, k);
    ShiftTwice(w, p as bv6, k as bv6);
  }

  lemma SmallShifts(p: nat, k: nat)
    requires p + k < 32 && k < 4
    ensures (p as bv6) < 32 && (k as bv6) < 4 && (p as bv6) + (k as bv6) < 32
  {
    NextBit(p, k);
  }

  lemma LowBits(x: bv32)
    ensures LowNumber(x & 0xF) == LowNumber(x)
    ensures LowNumber(x & 0x7) == BitValue(x & 1 != 0, 1) + BitValue(x & 2 != 0, 2) + BitValue(x & 4 != 0, 4)
    ensures LowNumber(x & 0x3) == BitValue(x & 1 != 0, 1) + BitValue(x & 2 != 0, 2)
    ensures LowNumber(x & 0x1) == BitValue(x & 1 != 0, 1)
  {}

  /** The low bits of a C `int` are its remainder. */
  lemma LowIsNumber(v: int)
    ensures LowNumber(Low(v)) == v % 16 && LowNumber(0x7 & Low(v)) == v % 8
    ensures LowNumber(0x3 & Low(v)) == v % 4 && LowNumber(0x1 & Low(v)) == v % 2
  {
    BinaryDigits(v);
    LowByBits(v % 2 == 1, v / 2 % 2 == 1, v / 4 % 2 == 1, v / 8 % 2 == 1);
  }

  lemma BinaryDigits(v: int)
    ensures v % 16 == v % 2 + 2 * (v / 2 % 2) + 4 * (v / 4 % 2) + 8 * (v / 8 % 2)
    ensures v % 8 == v % 2 + 2 * (v / 2 % 2) + 4 * (v / 4 % 2) && v % 4 == v % 2 + 2 * (v / 2 % 2)
  {
    assert v / 4 == v / 2 / 2 && v / 8 == v / 2 / 2 / 2;
  }

  lemma LowByBits(b0: bool, b1: bool, b2: bool, b3: bool)
    ensures
      var low: bv32 := (if b0 then 0x1 else 0) | (if b1 then 0x2 else 0)
                     | (if b2 then 0x4 else 0) | (if b3 then 0x8 else 0);
      && LowNumber(low) == BitValue(b0, 1) + BitValue(b1, 2) + BitValue(b2, 4) + BitValue(b3, 8)
      && LowNumber(0x7 & low) == BitValue(b0, 1) + BitValue(b1, 2) + BitValue(b2, 4)
      && LowNumber(0x3 & low) == BitValue(b0, 1) + BitValue(b1, 2)
      && LowNumber(0x1 & low) == BitValue(b0, 1)
  {}

  lemma SettingIsWanted(e: Entry, kind: Kind, layout: Layout, setGpio: bool)
    ensures LowNumber(Setting(e, kind, layout, setGpio)) == Wanted(e, kind, layout, setGpio)
  {
    var v := match kind
      case Cfg => (if setGpio then e.mulSel else 0)
      case Pull => e.pull
      case Drive => e.drive
      case Data => e.data;
    LowSmall();
    hide Low, LowNumber;
    assert Setting(e, kind, layout, setGpio) == FieldMask(kind, layout) & Low(v);
    assert Wanted(e, kind, layout, setGpio) == v % Range(kind, layout);
    assert MaskFor(FieldMask(kind, layout), Range(kind, layout));
    hide *;
    MaskedNumber(v, FieldMask(kind, layout), Range(kind, layout));
  }

  lemma MaskedNumber(v: int, mask: bv32, range: nat)
    requires MaskFor(mask, range)
    ensures range > 0 && LowNumber(mask & Low(v)) == v % range
  {
    LowIsNumber(v);
    SelectBits(Low(v), v);
    hide Low, LowNumber;
  }

  lemma SelectBits(x: bv32, v: int)
    requires x == Low(v)
    ensures 0xF & x == x
  {}

  /** After a run, every setting of every pin is, as a number in its register's bits, what the last
      entry that writes it asks for: the select modulo 16 or 8, pull and drive modulo 4, and data
      modulo 2.  Without such an entry it is as before. */
  lemma PinNumbersAfterRun(soc: Soc, run: seq<Entry>, force: bool, setGpio: bool, m: Memory, kind: Kind,
                           port: nat, pin: nat, j: int)
    requires soc.Ok() && Listed(run) && |m| == BUS_SIZE && 1 <= port < 256 && pin < 32
    requires -1 <= j < |run| && (j >= 0 ==> Writes(run[j], Selects(run, force, j), kind, port, pin))
    requires forall i :: j < i < |run| ==> !Writes(run[i], Selects(run, force, i), kind, port, pin)
    ensures PinNumber(soc, Run(PinOps(soc, run, force), soc.layout, setGpio, m), kind, port, pin)
            == if j >= 0 then Wanted(run[j], kind, soc.layout, setGpio) else PinNumber(soc, m, kind, port, pin)
  {
    PinsAfterRun(soc, run, force, setGpio, m, kind, port, pin, j);
    var after := Run(PinOps(soc, run, force), soc.layout, setGpio, m);
    var a := RegAddr(soc, BankOf(port), kind, port, RegIndex(kind, pin));
    SettingAddressIs(soc, kind, port, pin);
    FieldHoldsNumber(m[a], kind, soc.layout, pin);
    FieldHoldsNumber(after[a], kind, soc.layout, pin);
    if j >= 0 {
      SettingIsWanted(run[j], kind, soc.layout, setGpio);
    }
    hide *;
  }

  // ---------------------------------------------------------------- and nothing else changes

  /** Does the operation set a field that holds the bit? */
  predicate Covers(op: Op, layout: Layout, addr: nat, bit: bv32)
    requires op.Ok()
  {
    exists kind: Kind :: op.Active(kind) && op.Addr(kind) == addr
      && Placed(FieldMask(kind, layout), FieldShift(kind, op.e.pin)) & bit != 0
  }

  lemma BitAfterKind(op: Op, kind: Kind, layout: Layout, setGpio: bool, m: Memory, addr: nat, bit: bv32)
    requires op.Ok() && |m| == BUS_SIZE && addr < BUS_SIZE && !Covers(op, layout, addr, bit)
    ensures ApplyKind(op, kind, layout, setGpio, m)[addr] & bit == m[addr] & bit
  {
    hide SetField, Placed, FieldMask, FieldShift;
    if op.Active(kind) && op.Addr(kind) == addr {
      OtherBitKept(m[addr], FieldMask(kind, layout), FieldShift(kind, op.e.pin), op.Value(kind, setGpio), bit);
    }
  }

  /** Any bit of any register that no entry's field holds is kept by the whole list. */
  lemma {:induction false} RestAfterRun(ops: seq<Op>, layout: Layout, setGpio: bool, m: Memory, addr: nat, bit: bv32)
    requires OpsOk(ops) && |m| == BUS_SIZE && addr < BUS_SIZE
    requires forall op :: op in ops ==> !Covers(op, layout, addr, bit)
    ensures Run(ops, layout, setGpio, m)[addr] & bit == m[addr] & bit
  {
    hide ApplyKind, Covers;
    if ops != [] {
      var n := |ops| - 1;
      RestAfterRun(ops[..n], layout, setGpio, m, addr, bit);
      var m0 := Run(ops[..n], layout, setGpio, m);
      var m1 := ApplyKind(ops[n], Cfg, layout, setGpio, m0);
      var m2 := ApplyKind(ops[n], Pull, layout, setGpio, m1);
      var m3 := ApplyKind(ops[n], Drive, layout, setGpio, m2);
      BitAfterKind(ops[n], Cfg, layout, setGpio, m0, addr, bit);
      BitAfterKind(ops[n], Pull, layout, setGpio, m1, addr, bit);
      BitAfterKind(ops[n], Drive, layout, setGpio, m2, addr, bit);
      BitAfterKind(ops[n], Data, layout, setGpio, m3, addr, bit);
    }
  }

  // ---------------------------------------------------------------- when the banks are right

  predicate SameGroup(run: seq<Entry>, i: nat, width: nat)
    requires i < |run| && width > 0
  {
    forall j :: 0 <= j <= i ==> run[j].port == run[0].port && run[j].pin / width == run[0].pin / width
  }

  /** Every port of the second controller stays in the function-select register of the first entry. */
  predicate WellRouted(run: seq<Entry>) {
    forall i :: 0 <= i < |run| && run[i].port >= 12 ==> SameGroup(run, i, 8)
  }

  lemma {:induction false} RouteShape(run: seq<Entry>, i: nat)
    requires i < |run| && Listed(run)
    ensures RouteAt(run, i).select.RPio? <==> run[0].port >= 12 && SameGroup(run, i, 8)
    ensures RouteAt(run, i).group.RPio? <==> run[0].port >= 12 && SameGroup(run, i, 16)
  {
    if i > 0 {
      RouteShape(run, i - 1);
      var first, last := run[0], run[i];
      assert SameGroup(run, i, 8) <==>
             SameGroup(run, i - 1, 8) && last.port == first.port && last.pin / 8 == first.pin / 8;
      assert SameGroup(run, i, 16) <==>
             SameGroup(run, i - 1, 16) && last.port == first.port && last.pin / 16 == first.pin / 16;
    }
  }

  /** Two lists naming the same pins in the same order. */
  predicate SamePins(run: seq<Entry>, other: seq<Entry>) {
    |run| == |other| && forall i :: 0 <= i < |run| ==> other[i].port == run[i].port && other[i].pin == run[i].pin
  }

  lemma SameGroupTransfer(run: seq<Entry>, other: seq<Entry>, i: nat)
    requires i < |run| && SamePins(run, other) && SameGroup(run, i, 8)
    ensures SameGroup(other, i, 8)
  {
    forall j | 0 <= j <= i
      ensures other[j].port == other[0].port && other[j].pin / 8 == other[0].pin / 8
    {
      assert run[j].port == run[0].port && run[j].pin / 8 == run[0].pin / 8;
    }
  }

  ghost predicate BatchAgrees(soc: Soc, run: seq<Entry>, setGpio: bool, m: Memory)
    requires soc.Ok() && Listed(run) && |m| == BUS_SIZE
  {
    Run(RoutedOps(soc, run), soc.layout, setGpio, m) == Run(PinOps(soc, run, true), soc.layout, setGpio, m)
  }

  lemma WellRoutedAgrees(soc: Soc, run: seq<Entry>, setGpio: bool, m: Memory)
    requires soc.Ok() && Listed(run) && |m| == BUS_SIZE && WellRouted(run)
    ensures BatchAgrees(soc, run, setGpio, m)
  {
    hide Run, RegAddr;
    forall i | 0 <= i < |run| ensures RoutedOps(soc, run)[i] == PinOps(soc, run, true)[i] {
      RouteShape(run, i);
      assert SameGroup(run, i, 8) ==> SameGroup(run, i, 16) && run[i].port == run[0].port;
      assert SameGroup(run, i, 16) ==> run[i].port == run[0].port;
      assert RouteAt(run, i) == Route(BankOf(run[i].port), BankOf(run[i].port));
    }
    assert RoutedOps(soc, run) == PinOps(soc, run, true);
  }

  /** The entries of `run` with one pin made an output function and all else left alone. */
  function Probe(run: seq<Entry>, i: nat): seq<Entry>
    requires 0 < i < |run|
  {
    seq(|run|, k requires 0 <= k < |run| =>
      Entry(run[k].port, run[k].pin, if k == i then 1 else if k == 0 then 0 else -1, -1, -1, -1))
  }

  lemma ZeroAndOne(kind: Kind, layout: Layout, shift: Shift)
    ensures GetField(0, FieldMask(kind, layout), shift) == 0
    ensures Low(0) & FieldMask(kind, layout) == 0
    ensures FieldMask(kind, layout) & Low(1) == 1
  {
    LowSmall();
    hide Low;
  }

  lemma LowSmall()
    ensures Low(0) == 0 && Low(1) == 1
  {}

  lemma WrittenZero(op: Op, layout: Layout)
    requires op.e.mulSel == 0
    ensures Written(op, Cfg, layout, true) == 0
  {}

  /** A misrouted entry is seen: on cleared registers the batch leaves the probe's pin alone, and
      the per-pin form makes it an output. */
  lemma MisroutedDisagrees(soc: Soc, run: seq<Entry>, i: nat)
    requires soc.Ok() && Listed(run) && i < |run| && run[i].port >= 12 && !SameGroup(run, i, 8)
    ensures 0 < i && Listed(Probe(run, i)) && SamePins(run, Probe(run, i))
    ensures
      var m := seq(BUS_SIZE, _ => 0);
      var port, pin := run[i].port, run[i].pin;
      && PinField(soc, Run(RoutedOps(soc, Probe(run, i)), soc.layout, true, m), Cfg, port, pin)
          == PinField(soc, m, Cfg, port, pin)
      && PinField(soc, Run(PinOps(soc, Probe(run, i), true), soc.layout, true, m), Cfg, port, pin) == 1
    ensures !BatchAgrees(soc, Probe(run, i), true, seq(BUS_SIZE, _ => 0))
  {
    hide GetField, SetField, RegAddr, FieldMask, FieldShift, FieldOk, Low, Run, RouteAt;
    var p := Probe(run, i);
    var m: Memory := seq(BUS_SIZE, _ => 0);
    var port, pin := run[i].port, run[i].pin;
    PinsAfterRun(soc, p, true, true, m, Cfg, port, pin, i);
    ZeroAndOne(Cfg, soc.layout, FieldShift(Cfg, pin));
    assert PinField(soc, Run(PinOps(soc, p, true), soc.layout, true, m), Cfg, port, pin) == 1;
    ProbeMisses(soc, run, i, m);
  }

  lemma ProbeMisses(soc: Soc, run: seq<Entry>, i: nat, m: Memory)
    requires soc.Ok() && Listed(run) && 0 < i < |run| && run[i].port >= 12 && !SameGroup(run, i, 8)
    requires |m| == BUS_SIZE && forall a :: 0 <= a < BUS_SIZE ==> m[a] == 0
    requires Listed(Probe(run, i))
    ensures PinField(soc, Run(RoutedOps(soc, Probe(run, i)), soc.layout, true, m), Cfg, run[i].port, run[i].pin) == 0
  {
    hide GetField, SetField, RegAddr, FieldMask, FieldShift, FieldOk, Low, Run, RouteAt, Written, Hits;
    var p, port, pin := Probe(run, i), run[i].port, run[i].pin;
    var ops := RoutedOps(soc, p);
    var addr, shift := RegAddr(soc, RPio, Cfg, port, RegIndex(Cfg, pin)), FieldShift(Cfg, pin);
    forall k | 0 <= k < |ops|
      ensures forall kind :: kind != Cfg ==> ops[k].Addr(kind) != addr
      ensures k > 0 ==> !Hits(ops[k], Cfg, addr, shift)
    {
      RoutedAvoids(soc, p, k, port, pin);
      if k == i {
        RouteShape(p, i);
        if SameGroup(p, i, 8) {
          SameGroupTransfer(p, run, i);
        }
      }
    }
    FieldsFit(Cfg, soc.layout, pin);
    ZeroAndOne(Cfg, soc.layout, shift);
    var last := if Hits(ops[0], Cfg, addr, shift) then 0 else -1;
    if last == 0 {
      WrittenZero(ops[0], soc.layout);
    }
    FieldAfterRun(ops, last, Cfg, addr, shift, soc.layout, true, m);
  }

  lemma RoutedAvoids(soc: Soc, run: seq<Entry>, k: nat, port: nat, pin: nat)
    requires soc.Ok() && Listed(run) && k < |run| && 12 <= port < 256 && pin < 32
    ensures var addr := RegAddr(soc, RPio, Cfg, port, RegIndex(Cfg, pin));
      && (forall kind :: kind != Cfg ==> RoutedOp(soc, run, k).Addr(kind) != addr)
      && (RouteAt(run, k).select.Pio? || (k > 0 && run[k].mulSel < 0) ==>
            !Hits(RoutedOp(soc, run, k), Cfg, addr, FieldShift(Cfg, pin)))
  {
    hide RouteAt, FieldShift, RegAddr;
    var e, r, op := run[k], RouteAt(run, k), RoutedOp(soc, run, k);
    forall kind: Kind | op.Addr(kind) == RegAddr(soc, RPio, Cfg, port, RegIndex(Cfg, pin))
      ensures kind == Cfg && r.select.RPio?
    {
      var bank := if kind.Cfg? then r.select else r.group;
      AddressesDistinct(soc, bank, kind, e.port, RegIndex(kind, e.pin), RPio, Cfg, port, RegIndex(Cfg, pin));
    }
  }

  /** The batched writer sets the pins one by one, for all settings and all register
      contents, exactly when the list of pins is well routed. */
  lemma RoutingExact(soc: Soc, run: seq<Entry>)
    requires soc.Ok() && Listed(run)
    ensures WellRouted(run) <==>
      forall other: seq<Entry>, setGpio: bool, m: Memory |
        Listed(other) && SamePins(run, other) && |m| == BUS_SIZE ::
        BatchAgrees(soc, other, setGpio, m)
  {
    hide BatchAgrees;
    if WellRouted(run) {
      forall other: seq<Entry>, setGpio: bool, m: Memory | Listed(other) && SamePins(run, other) && |m| == BUS_SIZE
        ensures BatchAgrees(soc, other, setGpio, m)
      {
        forall i | 0 <= i < |other| && other[i].port >= 12 ensures SameGroup(other, i, 8) {
          SameGroupTransfer(run, other, i);
        }
        WellRoutedAgrees(soc, other, setGpio, m);
      }
    } else {
      var i :| 0 <= i < |run| && run[i].port >= 12 && !SameGroup(run, i, 8);
      MisroutedDisagrees(soc, run, i);
    }
  }

  // ---------------------------------------------------------------- a negative function select in the first entry

  /** Two register memories that may differ only in one field. */
  ghost predicate SameBut(m1: Memory, m2: Memory, addr: nat, mask: bv32, shift: Shift) {
    && |m1| == BUS_SIZE && |m2| == BUS_SIZE && addr < BUS_SIZE
    && SameOutside(m1[addr], m2[addr], mask, shift)
    && forall a :: 0 <= a < BUS_SIZE && a != addr ==> m1[a] == m2[a]
  }

  lemma ApplyKeepsSameBut(op: Op, k: Kind, layout: Layout, setGpio: bool, m1: Memory, m2: Memory,
        addr: nat, mask: bv32, shift: Shift)
    requires op.Ok() && SameBut(m1, m2, addr, mask, shift)
    ensures SameBut(ApplyKind(op, k, layout, setGpio, m1), ApplyKind(op, k, layout, setGpio, m2), addr, mask, shift)
    ensures op.Active(k) && op.Addr(k) == addr && FieldMask(k, layout) == mask && FieldShift(k, op.e.pin) == shift
            ==> ApplyKind(op, k, layout, setGpio, m1) == ApplyKind(op, k, layout, setGpio, m2)
  {
    hide SetField, SameOutside, FieldMask, FieldShift;
    if op.Active(k) && op.Addr(k) == addr {
      SetKeepsSameOutside(m1[addr], m2[addr], mask, shift, FieldMask(k, layout), FieldShift(k, op.e.pin),
          op.Value(k, setGpio));
      if FieldMask(k, layout) == mask && FieldShift(k, op.e.pin) == shift {
        OverwriteForgets(m1[addr], m2[addr], mask, shift, op.Value(k, setGpio));
      }
    }
  }

  lemma OpKeepsSameBut(op: Op, layout: Layout, setGpio: bool, m1: Memory, m2: Memory, addr: nat, shift: Shift)
    requires op.Ok() && SameBut(m1, m2, addr, FieldMask(Cfg, layout), shift)
    ensures SameBut(Apply(op, layout, setGpio, m1), Apply(op, layout, setGpio, m2), addr, FieldMask(Cfg, layout), shift)
    ensures Hits(op, Cfg, addr, shift) ==> Apply(op, layout, setGpio, m1) == Apply(op, layout, setGpio, m2)
  {
    assert |m1| == BUS_SIZE && |m2| == BUS_SIZE;
    hide ApplyKind, SameBut, FieldMask;
    var mask := FieldMask(Cfg, layout);
    var c1, c2 := ApplyKind(op, Cfg, layout, setGpio, m1), ApplyKind(op, Cfg, layout, setGpio, m2);
    ApplyKeepsSameBut(op, Cfg, layout, setGpio, m1, m2, addr, mask, shift);
    var p1, p2 := ApplyKind(op, Pull, layout, setGpio, c1), ApplyKind(op, Pull, layout, setGpio, c2);
    ApplyKeepsSameBut(op, Pull, layout, setGpio, c1, c2, addr, mask, shift);
    var d1, d2 := ApplyKind(op, Drive, layout, setGpio, p1), ApplyKind(op, Drive, layout, setGpio, p2);
    ApplyKeepsSameBut(op, Drive, layout, setGpio, p1, p2, addr, mask, shift);
    ApplyKeepsSameBut(op, Data, layout, setGpio, d1, d2, addr, mask, shift);
  }

  predicate Reselects(run: seq<Entry>, j: int) {
    0 < j < |run| && run[j].port == run[0].port && run[j].pin == run[0].pin && run[j].mulSel >= 0
  }

  ghost predicate ForcedAgrees(soc: Soc, run: seq<Entry>, setGpio: bool, m: Memory)
    requires soc.Ok() && Listed(run) && |m| == BUS_SIZE
  {
    Run(PinOps(soc, run, true), soc.layout, setGpio, m) == Run(PinOps(soc, run, false), soc.layout, setGpio, m)
  }

  /** The forced select of the first entry stays confined to its field until that field is selected again. */
  lemma {:induction false} ForcedConfined(soc: Soc, run: seq<Entry>, n: nat, setGpio: bool, m: Memory)
    requires soc.Ok() && Listed(run) && 0 < n <= |run| && |m| == BUS_SIZE
    ensures
      var forced := Run(PinOps(soc, run, true)[..n], soc.layout, setGpio, m);
      var plain := Run(PinOps(soc, run, false)[..n], soc.layout, setGpio, m);
      && SameBut(forced, plain, RegAddr(soc, BankOf(run[0].port), Cfg, run[0].port, run[0].pin / 8),
                 FieldMask(Cfg, soc.layout), FieldShift(Cfg, run[0].pin))
      && ((exists j :: j < n && Reselects(run, j)) ==> forced == plain)
  {
    hide Apply, RegAddr, FieldMask, FieldShift, SameBut, Hits;
    var f, p := PinOps(soc, run, true), PinOps(soc, run, false);
    var addr, shift := RegAddr(soc, BankOf(run[0].port), Cfg, run[0].port, run[0].pin / 8), FieldShift(Cfg, run[0].pin);
    RunSnoc(f, n - 1, soc.layout, setGpio, m);
    RunSnoc(p, n - 1, soc.layout, setGpio, m);
    if n == 1 {
      ForcedFirst(soc, run[0], setGpio, m);
      assert f[..0] == [] && p[..0] == [];
    } else {
      ForcedConfined(soc, run, n - 1, setGpio, m);
      var mf, mp := Run(f[..n-1], soc.layout, setGpio, m), Run(p[..n-1], soc.layout, setGpio, m);
      assert f[n-1] == p[n-1];
      OpKeepsSameBut(f[n-1], soc.layout, setGpio, mf, mp, addr, shift);
      if Reselects(run, n - 1) {
        PinOpHits(soc, run[n-1], true, Cfg, run[0].port, run[0].pin);
      }
    }
  }

  lemma ForcedFirst(soc: Soc, e: Entry, setGpio: bool, m: Memory)
    requires soc.Ok() && EntryOk(e) && e.port != 0 && |m| == BUS_SIZE
    ensures SameBut(Apply(PinOp(soc, e, true), soc.layout, setGpio, m),
                    Apply(PinOp(soc, e, e.mulSel >= 0), soc.layout, setGpio, m),
                    RegAddr(soc, BankOf(e.port), Cfg, e.port, e.pin / 8),
                    FieldMask(Cfg, soc.layout), FieldShift(Cfg, e.pin))
  {
    hide SetField, SameOutside, FieldMask, FieldShift, SameBut, RegAddr;
    var f, p := PinOp(soc, e, true), PinOp(soc, e, e.mulSel >= 0);
    var addr, mask, shift := RegAddr(soc, BankOf(e.port), Cfg, e.port, e.pin / 8),
        FieldMask(Cfg, soc.layout), FieldShift(Cfg, e.pin);
    var f1, p1 := ApplyKind(f, Cfg, soc.layout, setGpio, m), ApplyKind(p, Cfg, soc.layout, setGpio, m);
    SelectConfined(f, p, soc.layout, setGpio, m);
    LaterKindsAgree(f, p, Pull, soc.layout, setGpio, f1, p1, addr, mask, shift);
    var f2, p2 := ApplyKind(f, Pull, soc.layout, setGpio, f1), ApplyKind(p, Pull, soc.layout, setGpio, p1);
    LaterKindsAgree(f, p, Drive, soc.layout, setGpio, f2, p2, addr, mask, shift);
    var f3, p3 := ApplyKind(f, Drive, soc.layout, setGpio, f2), ApplyKind(p, Drive, soc.layout, setGpio, p2);
    LaterKindsAgree(f, p, Data, soc.layout, setGpio, f3, p3, addr, mask, shift);
  }

  lemma SelectConfined(f: Op, p: Op, layout: Layout, setGpio: bool, m: Memory)
    requires f.Ok() && f.select && p == f.(select := p.select) && |m| == BUS_SIZE
    ensures SameBut(ApplyKind(f, Cfg, layout, setGpio, m), ApplyKind(p, Cfg, layout, setGpio, m),
                    f.cfg, FieldMask(Cfg, layout), FieldShift(Cfg, f.e.pin))
  {
    hide FieldMask, FieldShift, SetField, SameOutside, Low;
    SelfSame(ApplyKind(f, Cfg, layout, setGpio, m)[f.cfg], FieldMask(Cfg, layout), FieldShift(Cfg, f.e.pin));
    SetConfined(m[f.cfg], FieldMask(Cfg, layout), FieldShift(Cfg, f.e.pin), f.Value(Cfg, setGpio));
  }

  lemma LaterKindsAgree(f: Op, p: Op, k: Kind, layout: Layout, setGpio: bool, m1: Memory,
        m2: Memory, addr: nat, mask: bv32, shift: Shift)
    requires f.Ok() && p == f.(select := p.select) && k != Cfg && SameBut(m1, m2, addr, mask, shift)
    ensures SameBut(ApplyKind(f, k, layout, setGpio, m1), ApplyKind(p, k, layout, setGpio, m2), addr, mask, shift)
  {
    hide SameBut, SetField, FieldMask, FieldShift;
    ApplyKeepsSameBut(f, k, layout, setGpio, m1, m2, addr, mask, shift);
  }

  lemma Opposite(e: Entry, layout: Layout, setGpio: bool) returns (o: bv32)
    ensures o & FieldMask(Cfg, layout) != Setting(e, Cfg, layout, setGpio)
  {
    o := !Setting(e, Cfg, layout, setGpio);
    OppositeBits(FieldMask(Cfg, layout), if setGpio then Low(e.mulSel) else 0);
  }

  lemma OppositeBits(mask: bv32, x: bv32)
    requires mask == 0xF || mask == 0x7
    ensures (!(mask & x)) & mask != mask & x
  {}

  /** Registers in which the function select of a pin holds given bits. */
  lemma Preset(soc: Soc, port: nat, pin: nat, bits: bv32) returns (m: Memory)
    requires soc.Ok() && 1 <= port < 256 && pin < 32
    ensures |m| == BUS_SIZE && PinField(soc, m, Cfg, port, pin) == bits & FieldMask(Cfg, soc.layout)
  {
    hide GetField, SetField, RegAddr, FieldMask, FieldShift, FieldOk;
    var mask, shift := FieldMask(Cfg, soc.layout), FieldShift(Cfg, pin);
    FieldsFit(Cfg, soc.layout, pin);
    ReadBack(0, mask, shift, bits);
    m := seq(BUS_SIZE, _ => 0)[RegAddr(soc, BankOf(port), Cfg, port, pin / 8) := SetField(0, mask, shift, bits)];
  }

  /** Registers that hold something else than the first entry asks for show the difference. */
  lemma ForcedDisagrees(soc: Soc, run: seq<Entry>, setGpio: bool) returns (m: Memory)
    requires soc.Ok() && Listed(run) && run != [] && run[0].mulSel < 0
    requires forall j :: !Reselects(run, j)
    ensures |m| == BUS_SIZE && !ForcedAgrees(soc, run, setGpio, m)
  {
    hide PinField, FieldMask, Setting, Run, Writes;
    var port, pin := run[0].port, run[0].pin;
    var o := Opposite(run[0], soc.layout, setGpio);
    m := Preset(soc, port, pin, o);
    forall i | 0 <= i < |run|
      ensures Writes(run[i], Selects(run, true, i), Cfg, port, pin) <==> i == 0
      ensures !Writes(run[i], Selects(run, false, i), Cfg, port, pin)
    {
      NeverReselected(run, i);
    }
    PinsAfterRun(soc, run, true, setGpio, m, Cfg, port, pin, 0);
    PinsAfterRun(soc, run, false, setGpio, m, Cfg, port, pin, -1);
  }

  lemma NeverReselected(run: seq<Entry>, i: nat)
    requires i < |run| && run[0].mulSel < 0 && !Reselects(run, i)
    ensures Writes(run[i], Selects(run, true, i), Cfg, run[0].port, run[0].pin) <==> i == 0
    ensures !Writes(run[i], Selects(run, false, i), Cfg, run[0].port, run[0].pin)
  {}

  /** Writing the first function select although it is negative goes unnoticed, for all
      register contents, exactly when it is not negative or the pin is selected again later. */
  lemma FirstSelectExact(soc: Soc, run: seq<Entry>, setGpio: bool)
    requires soc.Ok() && Listed(run) && run != []
    ensures (forall m: Memory | |m| == BUS_SIZE :: ForcedAgrees(soc, run, setGpio, m))
            <==> run[0].mulSel >= 0 || exists j :: Reselects(run, j)
  {
    hide Run, RegAddr, SameBut, FieldMask, FieldShift;
    if run[0].mulSel >= 0 {
      assert PinOps(soc, run, true) == PinOps(soc, run, false);
    } else if exists j :: Reselects(run, j) {
      forall m: Memory | |m| == BUS_SIZE ensures ForcedAgrees(soc, run, setGpio, m) {
        ForcedConfined(soc, run, |run|, setGpio, m);
        assert PinOps(soc, run, true)[..|run|] == PinOps(soc, run, true);
        assert PinOps(soc, run, false)[..|run|] == PinOps(soc, run, false);
      }
    } else {
      var m := ForcedDisagrees(soc, run, setGpio);
    }
  }
}
