/** The voltage tables of the nine PMIC chips, and which of their rows are well formed. */
module PmicChips {
  import opened Numbers
  import opened Bytes
  import opened PmicTable
  import opened Pmic
  import opened PmicRamp

  function Piece(min: nat, max: nat, step: nat): Segment { Segment(min, max, step, false) }
  function Inverted(min: nat, max: nat, step: nat): Segment { Segment(min, max, step, true) }

  function Axp152(): seq<Row> {
    [
      Row(1700, 3500, 0x26, 0, 4, 0x12, 7, [Piece(1700, 2100, 100), Piece(2400, 2800, 100), Piece(3000, 3500, 100)]),
      Row(700, 2275, 0x23, 0, 6, 0x12, 6, [Piece(700, 2275, 25)]),
      Row(700, 3500, 0x27, 0, 6, 0x12, 5, [Piece(700, 3500, 50)]),
      Row(700, 3500, 0x2B, 0, 7, 0x12, 4, [Piece(700, 3500, 25)]),
      Row(1200, 3300, 0x28, 4, 4, 0x12, 3, [Piece(1200, 2000, 100), Piece(2500, 2700, 200),
          Piece(2800, 3000, 200), Piece(3100, 3300, 100)]),
      Row(1200, 3300, 0x28, 0, 4, 0x12, 2, [Piece(1200, 2000, 100), Piece(2500, 2700, 200),
          Piece(2800, 3000, 200), Piece(3100, 3300, 100)]),
      Row(700, 3500, 0x29, 0, 5, 0x12, 1, [Piece(700, 3500, 100)]),
      Row(700, 3500, 0x2A, 0, 5, 0x12, 0, [Piece(700, 3500, 100)]),
      Row(2500, 5000, 0x15, 4, 2, 0x15, 7, [Inverted(2500, 2800, 300), Inverted(3300, 5000, 1700)]),
      Row(1800, 3300, 0x96, 0, 4, 0x92, 7, [Piece(1800, 3300, 100)])
    ]
  }

  function Axp81X(): seq<Row> {
    [
      Row(500, 1300, 0x21, 0, 7, 0x10, 1, [Piece(500, 1200, 10), Piece(1220, 1300, 20)]),
      Row(500, 1300, 0x23, 0, 7, 0x10, 3, [Piece(500, 1200, 10), Piece(1220, 1300, 20)]),
      Row(800, 1840, 0x24, 0, 7, 0x10, 4, [Piece(800, 1110, 10), Piece(1120, 1840, 20)])
    ]
  }

  function Axp221(): seq<Row> {
    [
      Row(600, 1540, 0x22, 0, 6, 0x10, 2, [Piece(600, 1540, 20)]),
      Row(600, 1860, 0x23, 0, 6, 0x10, 3, [Piece(600, 1540, 20)]),
      Row(1000, 2550, 0x25, 0, 5, 0x10, 5, [Piece(1000, 2550, 50)])
    ]
  }

  function Axp1530(): seq<Row> {
    [
      Row(500, 3400, 0x13, 0, 7, 0x10, 0, [Piece(500, 1200, 10), Piece(1220, 1540, 20), Piece(1600, 3400, 100)]),
      Row(500, 1540, 0x14, 0, 7, 0x10, 1, [Piece(500, 1200, 10), Piece(1220, 1540, 20)]),
      Row(500, 1840, 0x15, 0, 7, 0x10, 2, [Piece(500, 1200, 10), Piece(1220, 1840, 20)]),
      Row(500, 3500, 0x16, 0, 5, 0x10, 3, [Piece(500, 3500, 100)]),
      Row(500, 3500, 0x17, 0, 5, 0x10, 4, [Piece(500, 3500, 100)])
    ]
  }

  function Axp806(): seq<Row> {
    [
      Row(600, 1520, 0x12, 0, 7, 0x10, 0, [Piece(600, 1100, 10), Piece(1120, 1520, 20)]),
      Row(1000, 2550, 0x13, 0, 5, 0x10, 1, [Piece(1000, 2550, 50)]),
      Row(600, 1520, 0x14, 0, 7, 0x10, 2, [Piece(600, 1100, 10), Piece(1120, 1520, 20)]),
      Row(600, 3300, 0x15, 0, 6, 0x10, 3, [Piece(600, 1500, 20), Piece(1600, 3300, 100)]),
      Row(1100, 3400, 0x16, 0, 5, 0x10, 4, [Piece(1100, 3400, 100)]),
      Row(700, 3300, 0x17, 0, 5, 0x10, 5, [Piece(700, 3300, 100)]),
      Row(700, 3400, 0x18, 0, 5, 0x10, 6, [Piece(700, 3400, 100)]),
      Row(700, 3300, 0x19, 0, 5, 0x10, 7, [Piece(700, 3300, 100)]),
      Row(700, 1900, 0x20, 0, 4, 0x11, 0, [Piece(700, 1900, 100)]),
      Row(700, 1900, 0x21, 0, 4, 0x11, 1, [Piece(700, 1900, 100)]),
      Row(700, 1900, 0x22, 0, 4, 0x11, 2, [Piece(700, 1900, 100)]),
      Row(700, 1900, 0x23, 0, 4, 0x11, 3, [Piece(700, 1900, 100)]),
      Row(700, 3300, 0x24, 0, 5, 0x11, 4, [Piece(700, 3300, 100)]),
      Row(700, 4200, 0x25, 0, 5, 0x11, 5, [Piece(700, 3400, 100), Piece(3600, 4200, 200)]),
      Row(700, 3300, 0x26, 0, 5, 0x11, 6, [Piece(700, 3300, 100)])
    ]
  }

  function Axp858(): seq<Row> {
    [
      Row(500, 1540, 0x14, 0, 7, 0x10, 1, [Piece(500, 1200, 10), Piece(1220, 1540, 20)]),
      Row(500, 1540, 0x15, 0, 7, 0x10, 2, [Piece(500, 1200, 10), Piece(1220, 1540, 20)]),
      Row(500, 1540, 0x16, 0, 7, 0x10, 3, [Piece(500, 1200, 10), Piece(1220, 1540, 20)]),
      Row(800, 1840, 0x17, 0, 7, 0x10, 4, [Piece(800, 1120, 10), Piece(1140, 1840, 20)]),
      Row(700, 3300, 0x20, 0, 5, 0x11, 1, [Piece(700, 3300, 100)]),
      Row(700, 3300, 0x23, 0, 5, 0x11, 4, [Piece(700, 3300, 100)])
    ]
  }

  function Axp2101(): seq<Row> {
    [
      Row(500, 1540, 0x83, 0, 7, 0x80, 1, [Piece(500, 1200, 10), Piece(1220, 1540, 20)]),
      Row(500, 3400, 0x84, 0, 7, 0x80, 2, [Piece(500, 1200, 10), Piece(1220, 1540, 20), Piece(1600, 3400, 100)]),
      Row(500, 1840, 0x85, 0, 7, 0x80, 3, [Piece(500, 1200, 10), Piece(1220, 1840, 20)]),
      Row(500, 3500, 0x96, 0, 5, 0x90, 4, [Piece(500, 3500, 100)])
    ]
  }

  function Axp2202(): seq<Row> {
    [
      Row(500, 1540, 0x83, 0, 7, 0x80, 0, [Piece(500, 1200, 10), Piece(1220, 1540, 20)]),
      Row(500, 3400, 0x84, 0, 7, 0x80, 1, [Piece(500, 1200, 10), Piece(1220, 1540, 20), Piece(1600, 3400, 100)]),
      Row(500, 1840, 0x85, 0, 7, 0x80, 2, [Piece(500, 1200, 10), Piece(1220, 1840, 20)]),
      Row(500, 3500, 0x93, 0, 5, 0x90, 0, [Piece(500, 3500, 100)]),
      Row(500, 3500, 0x94, 0, 5, 0x90, 1, [Piece(500, 3500, 100)]),
      Row(500, 3500, 0x95, 0, 5, 0x90, 2, [Piece(500, 3500, 100)]),
      Row(500, 3500, 0x96, 0, 5, 0x90, 3, [Piece(500, 3500, 100)]),
      Row(500, 3500, 0x97, 0, 5, 0x90, 4, [Piece(500, 3500, 100)]),
      Row(500, 3500, 0x98, 0, 5, 0x90, 5, [Piece(500, 3500, 100)]),
      Row(500, 3500, 0x99, 0, 5, 0x90, 6, [Piece(500, 3500, 100)]),
      Row(500, 3500, 0x9A, 0, 5, 0x90, 7, [Piece(500, 3500, 100)]),
      Row(500, 3500, 0x9B, 0, 5, 0x91, 0, [Piece(500, 3500, 100)])
    ]
  }

  function Axp809(): seq<Row> {
    [
      Row(600, 1540, 0x22, 0, 6, 0x10, 2, [Piece(600, 1540, 20)]),
      Row(600, 1860, 0x23, 0, 6, 0x10, 3, [Piece(600, 1860, 20)]),
      Row(1000, 2550, 0x25, 0, 5, 0x10, 5, [Piece(1000, 2550, 50)]),
      Row(700, 3300, 0x2A, 0, 5, 0x12, 5, [Piece(1000, 2550, 100)])
    ]
  }

  // ---------------------------------------------------------------- well-formedness, by number of pieces

  lemma Pow2Values()
    ensures Pow2(2) == 4 && Pow2(4) == 16 && Pow2(5) == 32 && Pow2(6) == 64 && Pow2(7) == 128
  {
    assert Pow2(7) == 2 * Pow2(6) && Pow2(6) == 2 * Pow2(5) && Pow2(5) == 2 * Pow2(4) && Pow2(4) == 2 * Pow2(3);
    assert Pow2(3) == 2 * Pow2(2) && Pow2(2) == 2 * Pow2(1) && Pow2(1) == 2;
  }

  lemma Totals(segs: seq<Segment>)
    requires AllOk(segs) && |segs| <= 4
    ensures |segs| == 1 ==> Total(segs) == Count(segs[0])
    ensures |segs| == 2 ==> Total(segs) == Count(segs[0]) + Count(segs[1])
    ensures |segs| == 3 ==> Total(segs) == Count(segs[0]) + Count(segs[1]) + Count(segs[2])
    ensures |segs| == 4 ==> Total(segs) == Count(segs[0]) + Count(segs[1]) + Count(segs[2]) + Count(segs[3])
  {
    hide Count;
    TotalNil();
    if |segs| > 0 {
      DecodeStep(segs, 0);
      Totals(segs[1..]);
    }
  }

  /** The conditions on a row, spelled out for a table whose first piece has the smallest step. */
  lemma Rampable(row: Row)
    requires row.cfgReg < 256 && row.ctrlReg < 256 && row.ctrlBit < 8 && 0 < row.width <= 7
        && row.offset + row.width <= 8
    requires row.cfgReg == row.ctrlReg ==> !(row.offset <= row.ctrlBit < row.offset + row.width)
    requires 1 <= |row.segs| <= 4 && AllOk(row.segs) && Uniform(row.segs, row.segs[0].complement)
    requires 2 <= row.segs[0].step <= row.minVol && row.segs[0].step < 0xffff
    requires forall i :: 0 <= i < |row.segs| ==> row.segs[i].step >= row.segs[0].step
    requires forall i :: 0 <= i < |row.segs| - 1 ==> row.segs[i].max + row.segs[0].step <= row.segs[i+1].min
    requires Total(row.segs) <= Pow2(row.width)
    ensures row.minVol <= row.maxVol ==> row.Shape()
    ensures row.segs[0].min == row.minVol && row.segs[|row.segs| - 1].max == row.maxVol ==> RampRow(row)
  {
    FirstStepLeast(row.segs);
    assert Ascending(row.segs, MinStep(row.segs));
    HeadBelowLast(row.segs, 1);
  }

  lemma Axp152Totals(i: nat)
    requires i < |Axp152()|
    ensures Total(Axp152()[i].segs) <= Pow2(Axp152()[i].width)
  {
    Pow2Values();
    Totals(Axp152()[i].segs);
  }

  lemma Axp152WellFormed(i: nat)
    requires i < |Axp152()|
    ensures RampRow(Axp152()[i])
  {
    hide RampRow, Total, Count, Pow2;
    Axp152Totals(i);
    Rampable(Axp152()[i]);
  }

  lemma Axp81XWellFormed(i: nat)
    requires i < |Axp81X()|
    ensures RampRow(Axp81X()[i])
  {
    Pow2Values();
    Totals(Axp81X()[i].segs);
    Rampable(Axp81X()[i]);
  }

  lemma Axp221WellFormed(i: nat)
    requires i < |Axp221()|
    ensures i != 1 ==> RampRow(Axp221()[i])
    ensures Axp221()[i].Shape()
  {
    Pow2Values();
    Totals(Axp221()[i].segs);
    Rampable(Axp221()[i]);
  }

  lemma Axp1530WellFormed(i: nat)
    requires i < |Axp1530()|
    ensures RampRow(Axp1530()[i])
  {
    Pow2Values();
    Totals(Axp1530()[i].segs);
    Rampable(Axp1530()[i]);
  }

  lemma Axp806Totals(i: nat)
    requires i < |Axp806()|
    ensures Total(Axp806()[i].segs) <= Pow2(Axp806()[i].width)
  {
    Pow2Values();
    Totals(Axp806()[i].segs);
  }

  lemma Axp806WellFormed(i: nat)
    requires i < |Axp806()|
    ensures RampRow(Axp806()[i])
  {
    hide RampRow, Total, Count, Pow2;
    Axp806Totals(i);
    Rampable(Axp806()[i]);
  }

  lemma Axp858WellFormed(i: nat)
    requires i < |Axp858()|
    ensures RampRow(Axp858()[i])
  {
    Pow2Values();
    Totals(Axp858()[i].segs);
    Rampable(Axp858()[i]);
  }

  lemma Axp2101WellFormed(i: nat)
    requires i < |Axp2101()|
    ensures RampRow(Axp2101()[i])
  {
    Pow2Values();
    Totals(Axp2101()[i].segs);
    Rampable(Axp2101()[i]);
  }

  lemma Axp2202Totals(i: nat)
    requires i < |Axp2202()|
    ensures Total(Axp2202()[i].segs) <= Pow2(Axp2202()[i].width)
  {
    Pow2Values();
    Totals(Axp2202()[i].segs);
  }

  lemma Axp2202WellFormed(i: nat)
    requires i < |Axp2202()|
    ensures RampRow(Axp2202()[i])
  {
    hide RampRow, Total, Count, Pow2;
    Axp2202Totals(i);
    Rampable(Axp2202()[i]);
  }

  lemma Axp809WellFormed(i: nat)
    requires i < |Axp809()|
    ensures i != 3 ==> RampRow(Axp809()[i])
    ensures Axp809()[i].Shape()
  {
    Pow2Values();
    Totals(Axp809()[i].segs);
    Rampable(Axp809()[i]);
  }

  // ---------------------------------------------------------------- the two rows that do not cover their range

  /** axp221 dcdc3 admits requests up to 1860 mV over a table that ends at 1540 mV: exactly
      the requests above 1540 mV are encoded wrongly, as the lowest voltage. */
  lemma Axp221Dcdc3(reg: Byte, v: nat)
    requires v > 0
    ensures Axp221()[1].Shape()
    ensures Serves(Axp221()[1], NewByte(Axp221()[1], reg, Axp221()[1].Clamp(v)), v) <==> v <= 1540
    ensures v > 1540 ==> Position(Axp221()[1], NewByte(Axp221()[1], reg, Axp221()[1].Clamp(v))) == 0
  {
    var row := Axp221()[1];
    Axp221WellFormed(1);
    Pow2Values();
    Totals(row.segs);
    EncodeServesExactly(row, reg, v);
    if v > 1540 {
      NewByteAbove(row, reg, row.Clamp(v));
    }
  }

  /** The SYS rail of axp221. */
  function SysRail(): (row: Row)
    ensures RampShape(row) && MinStep(row.segs) == 20 && Total(row.segs) == 48
  {
    Pow2Values();
    Totals(Axp221()[1].segs);
    FirstStepLeast(Axp221()[1].segs);
    Rampable(Axp221()[1].(maxVol := 1540));
    Axp221()[1]
  }

  /** A live ramp of that rail moves by at most one code a write exactly when its target is
      below 1560 mV: the request for 1560 mV drops the rail from its top to 600 mV. */
  lemma Axp221Dcdc3Ramp(regs: Registers, target: int, onoff: int)
    requires |regs| == 256 && RailVoltage(SysRail(), regs) > 0
    ensures Smooth(SysRail(), regs, Requests(RailVoltage(SysRail(), regs), target, 20), onoff, 1) <==> target < 1560
  {
    var row, src, c0 := SysRail(), RailVoltage(SysRail(), regs), RailPosition(SysRail(), regs);
    var reqs := Requests(src, target, 20);
    LiveSourceOf(row, regs);
    SmoothIsJumpless(row, regs, reqs, onoff, 1);
    ShortRampExactly(row, c0, src, target);
    SysVoltage(c0);
    hide Smooth, Jumpless, RailVoltage, RailPosition, RampShape, Requests;
    if target >= 1560 {
      RequestCount(src, target, 20);
      RequestIndex(src, target, 20, 48 - c0);
      assert reqs[48 - c0] == 1560;
    } else {
      forall k | 0 <= k < |reqs| ensures reqs[k] <= 1540 {
        RequestIndex(src, target, 20, k);
        if src > target {
        } else {
          assert reqs[k] == 600 + 20 * (c0 + k);
        }
      }
    }
  }

  lemma SysVoltage(c0: nat)
    requires c0 < Total(SysRail().segs)
    ensures Decode(SysRail().segs, c0) == 600 + 20 * c0 && Top(SysRail()) == 1540 && SysRail().maxVol == 1860
  {
    DecodeStep(SysRail().segs, c0);
  }

  /** axp809 aldo3 admits requests from 700 mV to 3300 mV over a table of 1000 to 2550 mV. */
  lemma Axp809Aldo3(reg: Byte, v: nat)
    requires v > 0
    ensures Axp809()[3].Shape()
    ensures Serves(Axp809()[3], NewByte(Axp809()[3], reg, Axp809()[3].Clamp(v)), v) <==> 1000 <= v <= 2550
  {
    var row := Axp809()[3];
    Axp809WellFormed(3);
    Pow2Values();
    Totals(row.segs);
    EncodeServesExactly(row, reg, v);
  }

  /** Its lowest request wraps around and even sets a bit outside the field's mask. */
  lemma Axp809Aldo3Spills()
    ensures var row := Axp809()[3];
      var cleared: Byte := seq(8, _ => false);
      NewByte(row, cleared, row.Clamp(700))[5] && !row.Mask()[5]
  {
    var row := Axp809()[3];
    assert (700 - 1000) % 0x1_0000_0000 / 100 == 42949669;
    assert FindCode(row.segs, 700, 0) == Some((42949669, false));
    assert ToBits(42949669, 8)[5] by {
      BitAt(42949669, 8, 5);
    }
  }

  lemma {:induction false} BitAt(v: nat, n: nat, i: nat)
    requires i < n
    ensures ToBits(v, n)[i] == (v / Pow2(i) % 2 == 1)
  {
    if i > 0 {
      BitAt(v / 2, n - 1, i - 1);
      HalveThenDivide(v, Pow2(i - 1));
    }
  }

  lemma HalveThenDivide(v: nat, d: nat)
    requires d > 0
    ensures v / 2 / d == v / (2 * d)
  {
    var q := v / 2 / d;
    DivBounds(v / 2, d);
    assert q * (2 * d) == 2 * (q * d) && (q + 1) * (2 * d) == 2 * ((q + 1) * d);
    DivUnique(v, 2 * d, q);
  }

  // ---------------------------------------------------------------- axp152: shared registers

  /** No two rails of axp152 share a register bit, although aldo1 and aldo2 share a register
      and ldo0 keeps its enable bit beside its code. */
  lemma Axp152Independent(i: nat, j: nat)
    requires i < |Axp152()| && j < |Axp152()| && i != j
    ensures Independent(Axp152()[i], Axp152()[j])
  {}

  // ---------------------------------------------------------------- axp1530: DDR ramp

  function DdrRail(): (row: Row)
    ensures RampRow(row) && MinStep(row.segs) == 10 && row.minVol == 500
  {
    Axp1530WellFormed(2);
    FirstStepLeast(Axp1530()[2].segs);
    Axp1530()[2]
  }

  /** The states passed through when only some writes of each request go through. */
  ghost function Tried(row: Row, regs: Registers, reqs: seq<int>, went: seq<nat>, onoff: int): (t: seq<Registers>)
    requires |regs| == 256 && row.Shape() && |went| == |reqs|
    ensures Sized(t) && |Latest(regs, t)| == 256
  {
    if reqs == [] then []
    else
      var n := |reqs| - 1;
      var t := Tried(row, regs, reqs[..n], went[..n], onoff);
      var steps := Steps(row, Latest(regs, t), reqs[n], onoff);
      t + steps[..if went[n] < |steps| then went[n] else |steps|]
  }

  lemma TriedSnoc(row: Row, regs: Registers, reqs: seq<int>, went: seq<nat>, k: nat, n: nat, onoff: int)
    requires |regs| == 256 && row.Shape() && |went| == k < |reqs|
    requires n <= |Steps(row, Latest(regs, Tried(row, regs, reqs[..k], went, onoff)), reqs[k], onoff)|
    ensures
      var t := Tried(row, regs, reqs[..k], went, onoff);
      Tried(row, regs, reqs[..k+1], went + [n], onoff) == t + Steps(row, Latest(regs, t), reqs[k], onoff)[..n]
  {
    assert reqs[..k+1][..k] == reqs[..k] && (went + [n])[..k] == went;
  }

  /** Where the loop stands: what has been tried, and, if nothing failed, the walk itself. */
  ghost predicate TriedAt(row: Row, before: Registers, reqs: seq<int>, done: nat, went: seq<nat>, clean: bool,
                          passed: seq<Registers>, regs: Registers)
    requires row.Shape() && |before| == 256
  {
    && done <= |reqs| && |went| == done && passed == Tried(row, before, reqs[..done], went, 1)
    && regs == Latest(before, passed) && OthersKept(row, before, regs)
    && (clean ==> RampAt(row, before, reqs, 1, done, passed, regs))
  }

  /** axp1530_set_ddr_voltage: the same walk in strides of 50 mV, going on when a write fails;
      `went` counts the writes of each request that went through.  If none failed on a live rail,
      every write moved it by at most five codes, towards the target. */
  method DdrRamp(bus: PmicBus, target: int)
    returns (ret: int, ghost src: int, ghost heard: bool, ghost went: seq<nat>, ghost passed: seq<Registers>)
    requires bus.Valid()
    modifies bus`regs, bus`states, bus`faults
    ensures bus.Valid() && ret == 0 && src == (if heard then RailVoltage(DdrRail(), old(bus.regs)) else -1)
    ensures bus.states == old(bus.states) + passed && bus.regs == Latest(old(bus.regs), passed)
    ensures |went| == |Requests(src, target, 50)|
            && passed == Tried(DdrRail(), old(bus.regs), Requests(src, target, 50), went, 1)
    ensures bus.faults == old(bus.faults) + (if heard then 0 else 1) ==>
              passed == Walk(DdrRail(), old(bus.regs), Requests(src, target, 50), 1)
              && (src > 0 ==> Towards(DdrRail(), old(bus.regs), passed, Goal(DdrRail(), target), src < target, 5))
    ensures OthersKept(DdrRail(), old(bus.regs), bus.regs)
  {
    var row := DdrRail();
    ghost var before := bus.regs;
    var temp := bus.GetRail(row);
    src, heard := temp, bus.faults == old(bus.faults);
    hide RailVoltage, Requests, Towards, RampShape, Ascending, Tried, Walk, Latest, OthersKept, Goal;
    went, passed := DdrLoop(bus, row, temp, target);
    ret := 0;
    if bus.faults == old(bus.faults) + (if heard then 0 else 1) && src > 0 {
      PartTowards(row, before, target, 50, 5, 1, passed);
    }
  }

  method DdrLoop(bus: PmicBus, row: Row, src: int, target: int)
    returns (ghost went: seq<nat>, ghost passed: seq<Registers>)
    requires bus.Valid() && RampRow(row)
    modifies bus`regs, bus`states, bus`faults
    ensures bus.Valid() && bus.states == old(bus.states) + passed && bus.regs == Latest(old(bus.regs), passed)
    ensures |went| == |Requests(src, target, 50)|
    ensures passed == Tried(row, old(bus.regs), Requests(src, target, 50), went, 1)
    ensures bus.faults >= old(bus.faults)
    ensures bus.faults == old(bus.faults) ==> passed == Walk(row, old(bus.regs), Requests(src, target, 50), 1)
    ensures OthersKept(row, old(bus.regs), bus.regs)
  {
    ghost var before, reqs, done := bus.regs, Requests(src, target, 50), 0;
    ghost var clean := true;
    went, passed := [], [];
    StartTrying(row, before, reqs);
    assert row.Shape() && (src == target ==> reqs == []);
    hide *;
    var temp := src;
    var down := temp > target;
    NextRequested(src, target, 50, 0);
    if temp != target {
      while if down then temp >= target else temp <= target
        invariant bus.Valid() && |before| == 256 && src != target && down == (src > target)
        invariant done <= |reqs| && temp == Requested(src, target, 50, done)
        invariant TriedAt(row, before, reqs, done, went, clean, passed, bus.regs)
        invariant bus.states == old(bus.states) + passed
        invariant bus.faults >= old(bus.faults) && (clean <==> bus.faults == old(bus.faults))
        decreases if down then temp - target else target - temp
      {
        RequestDue(src, target, 50, done);
        clean, went, passed := TryRequest(bus, row, temp, before, reqs, done, went, clean, passed, old(bus.states));
        NextRequested(src, target, 50, done);
        done := done + 1;
        temp := if down then temp - 50 else temp + 50;
      }
      RequestDue(src, target, 50, done);
    }
    TryingDone(row, before, reqs, done, went, clean, passed, bus.regs);
  }

  /** One turn of the loop, whether its writes go through or not. */
  method TryRequest(bus: PmicBus, row: Row, v: int, ghost before: Registers, ghost reqs: seq<int>, ghost done: nat,
                    ghost went: seq<nat>, ghost clean: bool, ghost passed: seq<Registers>, ghost first: seq<Registers>)
    returns (ghost clean': bool, ghost went': seq<nat>, ghost passed': seq<Registers>)
    requires bus.Valid() && RampRow(row) && |before| == 256 && done < |reqs| && v == reqs[done]
    requires TriedAt(row, before, reqs, done, went, clean, passed, bus.regs) && bus.states == first + passed
    modifies bus`regs, bus`states, bus`faults
    ensures bus.Valid() && bus.states == first + passed'
    ensures TriedAt(row, before, reqs, done + 1, went', clean', passed', bus.regs)
    ensures bus.faults >= old(bus.faults) && (clean' <==> clean && bus.faults == old(bus.faults))
  {
    hide TriedAt, Steps, Latest, Ascending;
    var r;
    ghost var n;
    r, n := bus.SetRail(row, v, 1);
    ghost var steps := Steps(row, old(bus.regs), v, 1);
    clean', went', passed' := clean && r == 0, went + [n], passed + steps[..n];
    Tries(row, before, reqs, done, went, clean, passed, old(bus.regs), steps, n, bus.regs);
  }

  lemma StartTrying(row: Row, before: Registers, reqs: seq<int>)
    requires row.Shape() && |before| == 256
    ensures TriedAt(row, before, reqs, 0, [], true, [], before)
  {
    assert reqs[..0] == [];
    RampStarts(row, before, reqs, 1);
  }

  lemma Tries(row: Row, before: Registers, reqs: seq<int>, done: nat, went: seq<nat>, clean: bool,
              passed: seq<Registers>, regs: Registers, steps: seq<Registers>, n: nat, after: Registers)
    requires RampRow(row) && |before| == 256 && |regs| == 256 && done < |reqs|
    requires TriedAt(row, before, reqs, done, went, clean, passed, regs)
    requires steps == Steps(row, regs, reqs[done], 1) && n <= |steps| && after == Latest(regs, steps[..n])
    ensures TriedAt(row, before, reqs, done + 1, went + [n], clean && n == |steps|, passed + steps[..n], after)
  {
    OneRequest(row, before, regs, reqs[done], n);
    hide Steps, Latest, Tried, OthersKept, RampAt, Ascending;
    TriedSnoc(row, before, reqs, went, done, n, 1);
    LatestJoin(before, passed, steps[..n]);
    if clean {
      RampGoesOn(row, before, reqs, 1, done, passed, regs, steps, n, after);
    }
  }

  lemma TryingDone(row: Row, before: Registers, reqs: seq<int>, done: nat, went: seq<nat>, clean: bool,
                   passed: seq<Registers>, regs: Registers)
    requires row.Shape() && |before| == 256 && done == |reqs|
    requires TriedAt(row, before, reqs, done, went, clean, passed, regs)
    ensures |went| == |reqs| && passed == Tried(row, before, reqs, went, 1) && regs == Latest(before, passed)
    ensures OthersKept(row, before, regs) && (clean ==> passed == Walk(row, before, reqs, 1))
  {
    assert reqs[..done] == reqs;
    hide Tried, Walk, OthersKept, Latest;
  }

  /** Bits the rail does not own are unchanged. */
  ghost predicate OthersKept(row: Row, before: Registers, after: Registers) {
    |before| == 256 && |after| == 256
    && forall reg: nat, bit: nat :: reg < 256 && bit < 8 && !Owns(row, reg, bit) ==> after[reg][bit] == before[reg][bit]
  }

  /** A request, or part of it, touches no bit of another rail. */
  lemma OneRequest(row: Row, first: Registers, regs: Registers, v: int, n: nat)
    requires RampRow(row) && |regs| == 256 && OthersKept(row, first, regs) && n <= |Steps(row, regs, v, 1)|
    ensures OthersKept(row, first, Latest(regs, Steps(row, regs, v, 1)[..n]))
  {
    CoversAll(row, v);
    WriteFrame(row, regs, v, 1);
    WriteFrame(row, regs, v, -1);
    assert CfgWritten(row, regs, v) == Written(row, regs, v, -1);
    hide Written, CfgWritten, Owns;
  }

  /** While the rail is live no write moves its code by more than five positions, every write
      moves it toward the target and never past it, and it ends within five positions of the
      target's code, exactly on it if the distance is a multiple of 50 mV. */
  lemma Axp1530DdrRamp(regs: Registers, target: int, k: nat)
    requires |regs| == 256 && RailVoltage(DdrRail(), regs) > 0
    requires k < |Requests(RailVoltage(DdrRail(), regs), target, 50)|
    ensures DdrStep(regs, RailVoltage(DdrRail(), regs), target, k)
    ensures DdrEnd(regs, RailVoltage(DdrRail(), regs), target)
  {
    var row, src, c0 := DdrRail(), RailVoltage(DdrRail(), regs), RailPosition(DdrRail(), regs);
    var reqs := Requests(src, target, 50);
    LiveSourceOf(row, regs);
    StrideStep(row, regs, src, target, 50, 5, 1, reqs, k, Goal(row, target));
    hide After, RailPosition, RailVoltage, Goal, CodeAfter, RampShape, SourceOf, Requests, Distance;
    CodesAreRegisters(row, regs, reqs, |reqs|, 1);
    assert reqs[..|reqs|] == reqs;
    LiveRampArrives(row, c0, src, target, 50, 5);
  }

  ghost predicate DdrStep(regs: Registers, src: int, target: int, k: nat)
    requires |regs| == 256 && k < |Requests(src, target, 50)|
  {
    var row, reqs := DdrRail(), Requests(src, target, 50);
    OneTowards(RailPosition(row, After(row, regs, reqs[..k], 1)), RailPosition(row, After(row, regs, reqs[..k+1], 1)),
               Goal(row, target), src < target, 5)
  }

  ghost predicate DdrEnd(regs: Registers, src: int, target: int)
    requires |regs| == 256
  {
    var row, reqs := DdrRail(), Requests(src, target, 50);
    var end := RailPosition(row, After(row, regs, reqs, 1));
    && Near(end, Goal(row, target), 5)
    && (Distance(src, target) % 50 == 0 ==> end == Goal(row, target))
  }
}
