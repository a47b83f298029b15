/** Walking a live rail to its target in steps of the table's smallest step. */
module PmicRamp {
  import opened Numbers
  import opened PmicTable
  import opened Pmic
  import opened Bytes

  function MinStep(segs: seq<Segment>): (m: nat)
    ensures m <= 0xffff
    ensures forall i :: 0 <= i < |segs| ==> segs[i].step >= m
    ensures (forall i :: 0 <= i < |segs| ==> segs[i].step > 0) ==> m > 0
  {
    if segs == [] then 0xffff
    else
      var m := MinStep(segs[..|segs| - 1]);
      if segs[|segs| - 1].step < m then segs[|segs| - 1].step else m
  }

  lemma {:induction false} FirstStepLeast(segs: seq<Segment>)
    requires segs != [] && segs[0].step < 0xffff
    requires forall i :: 0 <= i < |segs| ==> segs[i].step >= segs[0].step
    ensures MinStep(segs) == segs[0].step
  {
    if |segs| > 1 {
      assert segs[..|segs| - 1][0] == segs[0];
      FirstStepLeast(segs[..|segs| - 1]);
    }
  }

  /** The last voltage of a table. */
  function Top(row: Row): nat
    requires row.segs != []
  {
    row.segs[|row.segs| - 1].max
  }

  /** A table that starts with the row's range, with pieces at least one step apart.  It may end
      below the range if its codes count up. */
  ghost predicate RampShape(row: Row) {
    && row.Shape() && Ascending(row.segs, MinStep(row.segs))
    && row.segs[0].min == row.minVol
    && (Top(row) == row.maxVol || (Top(row) < row.maxVol && !row.segs[0].complement))
    && 2 <= MinStep(row.segs) <= row.minVol && MinStep(row.segs) < 0xffff
  }

  /** And it reaches exactly over the range. */
  ghost predicate RampRow(row: Row) {
    RampShape(row) && Top(row) == row.maxVol
  }

  /** The voltages requested one after the other: from the source, in strides, up or
      down, while not past the target. */
  function Requests(src: int, target: int, stride: nat): (reqs: seq<int>)
    requires stride > 0
    ensures src == target ==> reqs == []
  {
    if src > target then seq((src - target) / stride + 1, i => src - i * stride)
    else if src < target then seq((target - src) / stride + 1, i => src + i * stride)
    else []
  }

  /** The registers after the first requests have been written. */
  ghost function After(row: Row, regs: Registers, reqs: seq<int>, onoff: int): (r: Registers)
    requires |regs| == 256 && row.Shape()
    ensures |r| == 256
  {
    if reqs == [] then regs
    else Written(row, After(row, regs, reqs[..|reqs| - 1], onoff), reqs[|reqs| - 1], onoff)
  }

  lemma AfterSnoc(row: Row, regs: Registers, reqs: seq<int>, k: nat, onoff: int)
    requires |regs| == 256 && row.Shape() && k < |reqs|
    ensures After(row, regs, reqs[..k+1], onoff) == Written(row, After(row, regs, reqs[..k], onoff), reqs[k], onoff)
  {
    assert reqs[..k+1][..k] == reqs[..k];
  }

  // ---------------------------------------------------------------- the states passed through

  /** The register states the requests lead through, write by write. */
  ghost function Walk(row: Row, regs: Registers, reqs: seq<int>, onoff: int): (w: seq<Registers>)
    requires |regs| == 256 && row.Shape()
    ensures Sized(w)
    ensures Latest(regs, w) == After(row, regs, reqs, onoff)
  {
    if reqs == [] then []
    else
      var front := reqs[..|reqs| - 1];
      Walk(row, regs, front, onoff) + Steps(row, After(row, regs, front, onoff), reqs[|reqs| - 1], onoff)
  }

  lemma WalkSnoc(row: Row, regs: Registers, reqs: seq<int>, k: nat, onoff: int)
    requires |regs| == 256 && row.Shape() && k < |reqs|
    ensures Walk(row, regs, reqs[..k+1], onoff)
            == Walk(row, regs, reqs[..k], onoff) + Steps(row, After(row, regs, reqs[..k], onoff), reqs[k], onoff)
  {
    assert reqs[..k+1][..k] == reqs[..k];
  }

  /** The states after each request are passed through one after the other. */
  lemma {:induction false} WalkPasses(row: Row, regs: Registers, reqs: seq<int>, k: nat, n: nat, onoff: int)
    requires |regs| == 256 && row.Shape() && k <= n <= |reqs|
    ensures Walk(row, regs, reqs[..k], onoff) <= Walk(row, regs, reqs[..n], onoff)
    ensures Latest(regs, Walk(row, regs, reqs[..k], onoff)) == After(row, regs, reqs[..k], onoff)
  {
    hide *;
    if k < n {
      WalkPasses(row, regs, reqs, k, n - 1, onoff);
      WalkSnoc(row, regs, reqs, n - 1, onoff);
    }
  }

  /** Part of a walk, up to and into a request. */
  lemma PartWay(row: Row, regs: Registers, reqs: seq<int>, k: nat, went: nat, onoff: int)
    requires |regs| == 256 && row.Shape() && k < |reqs|
    requires went < |Steps(row, After(row, regs, reqs[..k], onoff), reqs[k], onoff)|
    ensures
      var steps := Steps(row, After(row, regs, reqs[..k], onoff), reqs[k], onoff);
      var passed := Walk(row, regs, reqs[..k], onoff) + steps[..went];
      && passed <= Walk(row, regs, reqs, onoff) && |passed| < |Walk(row, regs, reqs, onoff)|
      && Latest(regs, passed) == Latest(After(row, regs, reqs[..k], onoff), steps[..went])
  {
    hide *;
    WalkSnoc(row, regs, reqs, k, onoff);
    WalkPasses(row, regs, reqs, k, k, onoff);
    WalkPasses(row, regs, reqs, k + 1, |reqs|, onoff);
    assert reqs[..|reqs|] == reqs;
    var steps := Steps(row, After(row, regs, reqs[..k], onoff), reqs[k], onoff);
    LatestJoin(regs, Walk(row, regs, reqs[..k], onoff), steps[..went]);
    assert Walk(row, regs, reqs[..k], onoff) + steps[..went] <= Walk(row, regs, reqs[..k+1], onoff);
  }

  lemma LatestJoin(regs: Registers, a: seq<Registers>, b: seq<Registers>)
    ensures Latest(regs, a + b) == Latest(Latest(regs, a), b)
  {}

  /** Where the loop stands after some requests. */
  ghost predicate RampAt(row: Row, before: Registers, reqs: seq<int>, onoff: int, done: nat,
                         passed: seq<Registers>, regs: Registers)
    requires row.Shape() && |before| == 256
  {
    && done <= |reqs|
    && passed == Walk(row, before, reqs[..done], onoff)
    && regs == After(row, before, reqs[..done], onoff)
  }

  lemma RampStarts(row: Row, before: Registers, reqs: seq<int>, onoff: int)
    requires row.Shape() && |before| == 256
    ensures RampAt(row, before, reqs, onoff, 0, [], before)
  {
    assert reqs[..0] == [];
  }

  lemma RampGoesOn(row: Row, before: Registers, reqs: seq<int>, onoff: int, done: nat,
                   passed: seq<Registers>, regs: Registers, steps: seq<Registers>, went: nat, after: Registers)
    requires row.Shape() && |before| == 256 && |regs| == 256 && done < |reqs|
    requires RampAt(row, before, reqs, onoff, done, passed, regs)
    requires steps == Steps(row, regs, reqs[done], onoff) && went <= |steps| && after == Latest(regs, steps[..went])
    ensures Latest(before, passed) == regs && after == Latest(before, passed + steps[..went])
    ensures went == |steps| ==> RampAt(row, before, reqs, onoff, done + 1, passed + steps[..went], after)
    ensures went < |steps| ==> passed + steps[..went] < Walk(row, before, reqs, onoff)
  {
    hide Steps, After, Latest, Walk;
    LatestJoin(before, passed, steps[..went]);
    if went == |steps| {
      assert steps[..went] == steps;
      WalkSnoc(row, before, reqs, done, onoff);
      AfterSnoc(row, before, reqs, done, onoff);
    } else {
      PartWay(row, before, reqs, done, went, onoff);
    }
  }

  lemma RampDone(row: Row, before: Registers, reqs: seq<int>, onoff: int, done: nat,
                 passed: seq<Registers>, regs: Registers)
    requires row.Shape() && |before| == 256 && done == |reqs| && RampAt(row, before, reqs, onoff, done, passed, regs)
    ensures passed == Walk(row, before, reqs, onoff) && regs == Latest(before, passed)
  {
    assert reqs[..done] == reqs;
  }

  // ---------------------------------------------------------------- the driver loop

  /** The ramp reads the rail, and passes through the states of the walk from that voltage to the
      target, one by one; it stops part way exactly when a write fails.  A failed reading counts
      as -1.  On a live rail every write moves by at most one code, towards the target. */
  method Ramp(bus: PmicBus, row: Row, target: int, onoff: int)
    returns (ret: int, ghost src: int, ghost heard: bool, ghost passed: seq<Registers>)
    requires bus.Valid() && row.Shape()
    modifies bus`regs, bus`states, bus`faults
    ensures bus.Valid() && src == (if heard then RailVoltage(row, old(bus.regs)) else -1)
    ensures bus.states == old(bus.states) + passed && bus.regs == Latest(old(bus.regs), passed)
    ensures MinStep(row.segs) == 0xffff ==> ret == -1 && passed == []
    ensures var faults := bus.faults - old(bus.faults) - if heard then 0 else 1;
      && 0 <= faults <= 1
      && (MinStep(row.segs) < 0xffff ==> ret == -faults)
    ensures MinStep(row.segs) < 0xffff ==>
      var walk := Walk(row, old(bus.regs), Requests(src, target, MinStep(row.segs)), onoff);
      && passed <= walk && (ret == 0 <==> passed == walk)
    ensures RampRow(row) && src > 0 ==>
      Towards(row, old(bus.regs), passed, Goal(row, target), src < target, 1)
  {
    ghost var before := bus.regs;
    var temp := bus.GetRail(row);
    src, heard, passed := temp, bus.faults == old(bus.faults), [];
    var step := SmallestStep(row);
    if step == 0xffff {
      return -1, src, heard, [];
    }
    hide Walk, Latest, RailVoltage, Requests, Towards, RampShape, Ascending;
    ret, passed := WalkTo(bus, row, temp, target, step, onoff);
    LivePart(row, before, src, target, step, onoff, passed);
  }

  /** The loop that finds the smallest step of a table. */
  method SmallestStep(row: Row) returns (step: nat)
    requires row.Shape()
    ensures step == MinStep(row.segs) && step > 0
  {
    step := 0xffff;
    var i := 0;
    while i < |row.segs|
      invariant 0 <= i <= |row.segs| && step == MinStep(row.segs[..i])
    {
      assert row.segs[..i+1][..i] == row.segs[..i];
      if row.segs[i].step < step {
        step := row.segs[i].step;
      }
      i := i + 1;
    }
    assert row.segs[..i] == row.segs;
  }

  /** The two loops over the requests, up or down. */
  method WalkTo(bus: PmicBus, row: Row, src: int, target: int, step: nat, onoff: int)
    returns (ret: int, ghost passed: seq<Registers>)
    requires bus.Valid() && row.Shape() && step > 0
    modifies bus`regs, bus`states, bus`faults
    ensures bus.Valid() && bus.states == old(bus.states) + passed && bus.regs == Latest(old(bus.regs), passed)
    ensures 0 <= bus.faults - old(bus.faults) <= 1 && ret == old(bus.faults) - bus.faults
    ensures var walk := Walk(row, old(bus.regs), Requests(src, target, step), onoff);
      passed <= walk && (ret == 0 <==> passed == walk)
  {
    ghost var before, reqs, done := bus.regs, Requests(src, target, step), 0;
    passed := [];
    RampStarts(row, before, reqs, onoff);
    assert src == target ==> reqs == [];
    hide *;
    var temp := src;
    var down := temp > target;
    NextRequested(src, target, step, 0);
    if temp != target {
      while if down then temp >= target else temp <= target
        invariant bus.Valid() && |before| == 256 && src != target && down == (src > target)
        invariant done <= |reqs| && temp == Requested(src, target, step, done)
        invariant RampAt(row, before, reqs, onoff, done, passed, bus.regs)
        invariant bus.states == old(bus.states) + passed && bus.faults == old(bus.faults)
        decreases if down then temp - target else target - temp
      {
        RequestDue(src, target, step, done);
        ret, passed := Request(bus, row, temp, onoff, before, reqs, done, passed, old(bus.states));
        if ret != 0 {
          return;
        }
        NextRequested(src, target, step, done);
        done := done + 1;
        temp := if down then temp - step else temp + step;
      }
      RequestDue(src, target, step, done);
    }
    RampDone(row, before, reqs, onoff, done, passed, bus.regs);
    ret := 0;
  }

  /** One turn of the loops: the next state after a request, or part of the way to it. */
  method Request(bus: PmicBus, row: Row, v: int, onoff: int, ghost before: Registers, ghost reqs: seq<int>,
                 ghost done: nat, ghost passed: seq<Registers>, ghost first: seq<Registers>)
    returns (ret: int, ghost passed': seq<Registers>)
    requires bus.Valid() && row.Shape() && |before| == 256 && done < |reqs| && v == reqs[done]
    requires RampAt(row, before, reqs, onoff, done, passed, bus.regs) && bus.states == first + passed
    modifies bus`regs, bus`states, bus`faults
    ensures bus.Valid() && bus.states == first + passed'
    ensures 0 <= bus.faults - old(bus.faults) <= 1 && ret == old(bus.faults) - bus.faults
    ensures ret == 0 ==> RampAt(row, before, reqs, onoff, done + 1, passed', bus.regs)
    ensures ret != 0 ==> passed' < Walk(row, before, reqs, onoff) && bus.regs == Latest(before, passed')
  {
    hide Steps, RampAt, Walk, Latest, Ascending;
    ghost var went;
    ret, went := bus.SetRail(row, v, onoff);
    ghost var steps := Steps(row, old(bus.regs), v, onoff);
    RampGoesOn(row, before, reqs, onoff, done, passed, old(bus.regs), steps, went, bus.regs);
    passed' := passed + steps[..went];
  }

  /** Request `k`, if it is due. */
  ghost function Requested(src: int, target: int, stride: nat, k: nat): int {
    if src > target then src - k * stride else src + k * stride
  }

  lemma NextRequested(src: int, target: int, stride: nat, k: nat)
    ensures Requested(src, target, stride, k + 1)
            == if src > target then Requested(src, target, stride, k) - stride
               else Requested(src, target, stride, k) + stride
    ensures Requested(src, target, stride, 0) == src
  {
    assert (k + 1) * stride == k * stride + stride;
  }

  lemma RequestDue(src: int, target: int, stride: nat, k: nat)
    requires stride > 0 && src != target && k <= |Requests(src, target, stride)|
    ensures k < |Requests(src, target, stride)| <==>
            if src > target then Requested(src, target, stride, k) >= target
            else Requested(src, target, stride, k) <= target
    ensures k < |Requests(src, target, stride)| ==>
              Requests(src, target, stride)[k] == Requested(src, target, stride, k)
  {
    RequestIndex(src, target, stride, k);
  }

  /** The loop guard says exactly whether another request is due. */
  lemma RequestIndex(src: int, target: int, stride: nat, k: nat)
    requires stride > 0 && src != target && k <= |Requests(src, target, stride)|
    ensures k < |Requests(src, target, stride)| <==>
        if src > target then src - k * stride >= target else src + k * stride <= target
    ensures k < |Requests(src, target, stride)| ==>
              Requests(src, target, stride)[k] == if src > target then src - k * stride else src + k * stride
  {
    var d := if src > target then src - target else target - src;
    DivBounds(d, stride);
    MulMonotone(k, d / stride, stride);
    MulMonotone(d / stride + 1, k, stride);
  }

  // ---------------------------------------------------------------- the codes of a ramp

  /** The code a request stands for; requests above the table mean code 0, as the encoder
      finds no code for them. */
  ghost function Goal(row: Row, v: int): nat
    requires RampShape(row)
  {
    if v > 0 && row.Clamp(v) <= Top(row) then Encode(row.segs, row.Clamp(v)) else 0
  }

  /** The rail's code after the first `k` requests; a request that is not positive writes no code. */
  ghost function CodeAfter(row: Row, c0: nat, reqs: seq<int>, k: nat): nat
    requires RampShape(row) && k <= |reqs|
  {
    if k == 0 then c0
    else if reqs[k-1] > 0 then Goal(row, reqs[k-1])
    else CodeAfter(row, c0, reqs, k - 1)
  }

  /** CodeAfter is what the registers hold. */
  lemma {:induction false} CodesAreRegisters(row: Row, regs: Registers, reqs: seq<int>, k: nat, onoff: int)
    requires RampShape(row) && |regs| == 256 && k <= |reqs|
    ensures RailPosition(row, After(row, regs, reqs[..k], onoff)) == CodeAfter(row, RailPosition(row, regs), reqs, k)
  {
    hide Written, RailPosition, Goal, Ascending, MinStep;
    if k > 0 {
      CodesAreRegisters(row, regs, reqs, k - 1, onoff);
      AfterSnoc(row, regs, reqs, k - 1, onoff);
      WriteGoes(row, After(row, regs, reqs[..k-1], onoff), reqs[k-1], onoff);
    }
  }

  /** A write puts the rail at its goal, covered by the table or not. */
  lemma WriteGoes(row: Row, regs: Registers, v: int, onoff: int)
    requires RampShape(row) && |regs| == 256
    ensures RailPosition(row, Written(row, regs, v, onoff)) == if v > 0 then Goal(row, v) else RailPosition(row, regs)
  {
    hide Encode, Ascending, Written;
    if v > 0 ==> row.Covers(v) {
      WriteEncodes(row, regs, v, onoff);
    } else {
      WriteAbove(row, regs, v, onoff);
    }
  }

  lemma CoversAll(row: Row, v: int)
    requires RampRow(row)
    ensures v > 0 ==> row.Covers(v)
    ensures Ascending(row.segs, 1)
  {}

  /** Raising a request by at most `k` smallest steps raises the code by at most `k`. */
  lemma {:induction false} GoalAdvance(row: Row, v: int, w: int, k: nat)
    requires RampRow(row) && v <= w <= v + k * MinStep(row.segs)
    ensures Goal(row, v) <= Goal(row, w) <= Goal(row, v) + k
    decreases k
  {
    hide Goal, RampShape, MinStep;
    if k > 0 {
      var m := MinStep(row.segs);
      var u := if w - m < v then v else w - m;
      MulPred(k, m);
      GoalAdvance(row, v, u, k - 1);
      GoalStep(row, u, w);
    } else {
      assert v == w;
    }
  }

  lemma MulPred(k: nat, m: nat)
    requires k > 0
    ensures (k - 1) * m == k * m - m
  {}

  lemma GoalStep(row: Row, v: int, w: int)
    requires RampRow(row) && v <= w <= v + MinStep(row.segs)
    ensures Goal(row, v) <= Goal(row, w) <= Goal(row, v) + 1
  {
    CoversAll(row, v);
    CoversAll(row, w);
    LowRequest(row, w);
    if v > 0 {
      hide Encode;
      EncodeAdvance(row.segs, row.Clamp(v), row.Clamp(w), MinStep(row.segs));
    }
  }

  /** A request up to the smallest step means code 0. */
  lemma LowRequest(row: Row, v: int)
    requires RampRow(row)
    ensures v <= MinStep(row.segs) ==> Goal(row, v) == 0
  {}

  predicate Near(a: int, b: int, bound: int) {
    -bound <= a - b <= bound
  }

  /** No write of the ramp moves the code by more than `bound` positions. */
  ghost predicate Jumpless(row: Row, c0: nat, reqs: seq<int>, bound: nat)
    requires RampShape(row)
  {
    forall k :: 0 <= k < |reqs| ==> Near(CodeAfter(row, c0, reqs, k + 1), CodeAfter(row, c0, reqs, k), bound)
  }

  /** A source the decoder can report for a rail holding position `c0`. */
  ghost predicate SourceOf(row: Row, c0: nat, src: int)
    requires RampShape(row)
  {
    src == 0 || src == -1 || (src > 0 && c0 < Total(row.segs) && src == Decode(row.segs, c0))
  }

  /** Along a ramp of a live rail the code is always the one of the last request. */
  lemma {:induction false} LiveCode(row: Row, c0: nat, src: int, target: int, stride: nat, k: nat)
    requires RampRow(row) && SourceOf(row, c0, src) && src > 0
    requires 0 < stride <= row.minVol && k < |Requests(src, target, stride)|
    ensures Goal(row, src) == c0
    ensures CodeAfter(row, c0, Requests(src, target, stride), k + 1) == Goal(row, Requests(src, target, stride)[k])
  {
    var reqs := Requests(src, target, stride);
    EncodeDecode(row.segs, c0);
    RequestIndex(src, target, stride, k);
    if k > 0 && reqs[k] <= 0 {
      LiveCode(row, c0, src, target, stride, k - 1);
      RequestIndex(src, target, stride, k - 1);
      assert k * stride == (k - 1) * stride + stride;
      LowGoal(row, reqs[k-1]);
    }
  }

  lemma LowGoal(row: Row, v: int)
    requires RampRow(row) && v <= row.minVol
    ensures Goal(row, v) == 0
  {}

  /** Every write of a live ramp with strides of at most `bound` smallest steps moves the
      code by at most `bound` positions. */
  lemma LiveRampJumpless(row: Row, c0: nat, src: int, target: int, stride: nat, bound: nat)
    requires RampRow(row) && SourceOf(row, c0, src) && src > 0
    requires 0 < stride <= row.minVol && stride <= bound * MinStep(row.segs)
    ensures Jumpless(row, c0, Requests(src, target, stride), bound)
  {
    hide Goal, CodeAfter, RampShape, SourceOf;
    var reqs := Requests(src, target, stride);
    forall k | 0 <= k < |reqs| ensures Near(CodeAfter(row, c0, reqs, k + 1), CodeAfter(row, c0, reqs, k), bound) {
      LiveCode(row, c0, src, target, stride, k);
      RequestIndex(src, target, stride, k);
      if k == 0 {
        CodeAtStart(row, c0, reqs);
      } else {
        LiveCode(row, c0, src, target, stride, k - 1);
        RequestIndex(src, target, stride, k - 1);
        assert k * stride == (k - 1) * stride + stride;
        if src > target {
          GoalAdvance(row, reqs[k], reqs[k-1], bound);
        } else {
          GoalAdvance(row, reqs[k-1], reqs[k], bound);
        }
      }
    }
  }

  lemma CodeAtStart(row: Row, c0: nat, reqs: seq<int>)
    requires RampShape(row)
    ensures CodeAfter(row, c0, reqs, 0) == c0
  {}

  /** A ramp in smallest steps moves the code by at most one position per write exactly
      when the rail was live, or no code is written, or the dead rail's old code is 0 or 1:
      a dead rail starts from the bottom of the table. */
  lemma RampJumplessExactly(row: Row, c0: nat, src: int, target: int)
    requires RampRow(row) && SourceOf(row, c0, src)
    ensures Jumpless(row, c0, Requests(src, target, MinStep(row.segs)), 1)
      <==> src > 0 || target < src + MinStep(row.segs) || c0 <= 1
  {
    var m := MinStep(row.segs);
    if src > 0 {
      LiveRampJumpless(row, c0, src, target, m, 1);
    } else {
      DeadRamp(row, c0, src, target);
    }
  }

  lemma DeadRamp(row: Row, c0: nat, src: int, target: int)
    requires RampRow(row) && (src == 0 || src == -1)
    ensures Jumpless(row, c0, Requests(src, target, MinStep(row.segs)), 1) <==>
        target < src + MinStep(row.segs) || c0 <= 1
  {
    hide Goal, RampShape;
    var m := MinStep(row.segs);
    StepPositive(row);
    var reqs := Requests(src, target, m);
    if target >= src + m {
      RequestIndex(src, target, m, 0);
      RequestIndex(src, target, m, 1);
      assert 1 * m == m;
      LowRequest(row, reqs[1]);
      assert reqs[0] == src && reqs[1] == src + m > 0;
      assert CodeAfter(row, c0, reqs, 0) == c0;
      assert CodeAfter(row, c0, reqs, 1) == c0;
      assert CodeAfter(row, c0, reqs, 2) == Goal(row, reqs[1]) == 0;
      assert Jumpless(row, c0, reqs, 1) ==> Near(CodeAfter(row, c0, reqs, 1 + 1), CodeAfter(row, c0, reqs, 1), 1);
      if c0 <= 1 {
        forall k | 0 <= k < |reqs| ensures Near(CodeAfter(row, c0, reqs, k + 1), CodeAfter(row, c0, reqs, k), 1) {
          if k >= 2 {
            DeadCode(row, c0, src, target, k);
            DeadCode(row, c0, src, target, k - 1);
            RequestIndex(src, target, m, k);
            RequestIndex(src, target, m, k - 1);
            assert k * m == (k - 1) * m + m;
            GoalStep(row, reqs[k-1], reqs[k]);
          }
        }
      }
    } else {
      forall k | 0 <= k < |reqs| ensures Near(CodeAfter(row, c0, reqs, k + 1), CodeAfter(row, c0, reqs, k), 1) {
        RequestIndex(src, target, m, k);
        MulMonotone(1, k, m);
        assert reqs[k] <= 0;
      }
    }
  }

  lemma StepPositive(row: Row)
    requires RampRow(row)
    ensures MinStep(row.segs) >= 2
  {}

  lemma {:induction false} DeadCode(row: Row, c0: nat, src: int, target: int, k: nat)
    requires RampRow(row) && (src == 0 || src == -1) && src + MinStep(row.segs) > 0
    requires src < target && 0 < k < |Requests(src, target, MinStep(row.segs))|
    ensures CodeAfter(row, c0, Requests(src, target, MinStep(row.segs)), k + 1)
        == Goal(row, Requests(src, target, MinStep(row.segs))[k])
  {
    RequestIndex(src, target, MinStep(row.segs), k);
    MulMonotone(1, k, MinStep(row.segs));
  }

  // ---------------------------------------------------------------- towards the target, never past it

  lemma LiveRampApproaches(row: Row, c0: nat, src: int, target: int, stride: nat, k: nat)
    requires RampRow(row) && SourceOf(row, c0, src) && src > 0
    requires 0 < stride <= row.minVol && k < |Requests(src, target, stride)|
    ensures
      var reqs := Requests(src, target, stride);
      var before, after := CodeAfter(row, c0, reqs, k), CodeAfter(row, c0, reqs, k + 1);
      if src < target then before <= after <= Goal(row, target) else Goal(row, target) <= after <= before
  {
    hide Goal, CodeAfter, RampShape, SourceOf;
    var reqs := Requests(src, target, stride);
    LiveCode(row, c0, src, target, stride, k);
    RequestIndex(src, target, stride, k);
    GoalMonotone(row, reqs[k], target);
    GoalMonotone(row, target, reqs[k]);
    if k == 0 {
      CodeAtStart(row, c0, reqs);
    } else {
      LiveCode(row, c0, src, target, stride, k - 1);
      RequestIndex(src, target, stride, k - 1);
      assert k * stride == (k - 1) * stride + stride;
      GoalMonotone(row, reqs[k], reqs[k-1]);
      GoalMonotone(row, reqs[k-1], reqs[k]);
    }
  }

  lemma StepBelowMin(row: Row)
    requires RampRow(row)
    ensures MinStep(row.segs) <= row.minVol
  {}

  lemma GoalMonotone(row: Row, v: int, w: int)
    requires RampRow(row)
    ensures v <= w ==> Goal(row, v) <= Goal(row, w)
  {
    hide Encode;
    CoversAll(row, v);
    CoversAll(row, w);
    if 0 < v <= w {
      EncodeMonotone(row.segs, row.Clamp(v), row.Clamp(w));
    }
  }

  function Distance(a: int, b: int): nat {
    if a < b then b - a else a - b
  }

  /** The last request is within one stride of the target, and is the target if the
      distance is a whole number of strides. */
  lemma LastRequest(src: int, target: int, stride: nat)
    requires stride > 0 && src != target
    ensures
      var reqs := Requests(src, target, stride);
      && reqs != []
      && (if src < target then reqs[|reqs| - 1] <= target < reqs[|reqs| - 1] + stride
          else reqs[|reqs| - 1] - stride < target <= reqs[|reqs| - 1])
      && (Distance(src, target) % stride == 0 ==> reqs[|reqs| - 1] == target)
  {
    var q, p := LastIndex(src, target, stride);
    RequestIndex(src, target, stride, q);
  }

  lemma LastIndex(src: int, target: int, stride: nat) returns (q: nat, p: nat)
    requires stride > 0 && src != target
    ensures |Requests(src, target, stride)| == q + 1
    ensures p == q * stride && p <= Distance(src, target) < p + stride
    ensures Distance(src, target) % stride == 0 ==> Distance(src, target) == p
  {
    var d := Distance(src, target);
    RequestCount(src, target, stride);
    hide Distance, Requests;
    q := d / stride;
    p := q * stride;
    LastMultiple(d, stride);
  }

  lemma LastMultiple(d: nat, stride: nat)
    requires stride > 0
    ensures d / stride * stride <= d < d / stride * stride + stride
    ensures d % stride == 0 ==> d == d / stride * stride
  {
    DivMod(d, stride);
  }

  lemma RequestCount(src: int, target: int, stride: nat)
    requires stride > 0 && src != target
    ensures |Requests(src, target, stride)| == Distance(src, target) / stride + 1
  {}

  /** So the last code is within as many positions of the target's as a stride has smallest
      steps, and it is the target's when the distance is a whole number of strides. */
  lemma LiveRampArrives(row: Row, c0: nat, src: int, target: int, stride: nat, bound: nat)
    requires RampRow(row) && SourceOf(row, c0, src) && src > 0
    requires 0 < stride <= row.minVol && stride <= bound * MinStep(row.segs)
    ensures
      var reqs := Requests(src, target, stride);
      var last := CodeAfter(row, c0, reqs, |reqs|);
      && Near(last, Goal(row, target), bound)
      && (Distance(src, target) % stride == 0 ==> last == Goal(row, target))
  {
    hide Goal, CodeAfter, SourceOf, Distance, Requests, RampShape;
    var reqs := Requests(src, target, stride);
    if reqs == [] {
      if src != target {
        LastRequest(src, target, stride);
      }
      LiveSource(row, c0, src);
      CodeAtStart(row, c0, reqs);
    } else {
      LastRequest(src, target, stride);
      LiveCode(row, c0, src, target, stride, |reqs| - 1);
      var last := reqs[|reqs| - 1];
      if src < target {
        GoalAdvance(row, last, target, bound);
      } else {
        GoalAdvance(row, target, last, bound);
      }
    }
  }

  lemma LiveSource(row: Row, c0: nat, src: int)
    requires RampRow(row) && SourceOf(row, c0, src) && src > 0
    ensures Goal(row, src) == c0
  {
    EncodeDecode(row.segs, c0);
  }

  /** The requests of a ramp of a live rail, in strides of at most `bound` smallest steps. */
  ghost predicate LiveWalk(row: Row, regs: Registers, src: int, target: int, stride: nat, bound: nat, reqs: seq<int>) {
    && RampRow(row) && |regs| == 256 && 0 < src == RailVoltage(row, regs)
    && 0 < stride <= row.minVol && stride <= bound * MinStep(row.segs)
    && reqs == Requests(src, target, stride)
  }

  lemma LiveWalkShape(row: Row, regs: Registers, src: int, target: int, stride: nat, bound: nat, reqs: seq<int>)
    requires LiveWalk(row, regs, src, target, stride, bound, reqs)
    ensures RampRow(row) && RampShape(row) && row.Shape() && |regs| == 256
  {}

  /** One request of a walk of a live rail, on the registers: it moves the rail's position by at
      most `bound` codes, toward the target and never past it. */
  lemma StrideStep(row: Row, regs: Registers, src: int, target: int, stride: nat, bound: nat, onoff: int,
                   reqs: seq<int>, k: nat, goal: nat)
    requires LiveWalk(row, regs, src, target, stride, bound, reqs) && k < |reqs| && goal == Goal(row, target)
    ensures RequestTowards(row, regs, reqs, k, onoff, goal, src < target, bound)
  {
    var c0 := RailPosition(row, regs);
    LiveSourceOf(row, regs);
    hide After, RailPosition, RailVoltage, Goal, CodeAfter, RampShape, SourceOf, Requests, MinStep;
    CodesAreRegisters(row, regs, reqs, k, onoff);
    CodesAreRegisters(row, regs, reqs, k + 1, onoff);
    LiveRampApproaches(row, c0, src, target, stride, k);
    LiveRampJumpless(row, c0, src, target, stride, bound);
  }

  /** The next code is near, on the way to the goal, and not beyond it. */
  ghost predicate OneTowards(before: nat, after: nat, goal: nat, up: bool, bound: nat) {
    Near(after, before, bound) && if up then before <= after <= goal else goal <= after <= before
  }

  /** So are all codes of the states passed through, beginning from the first one. */
  ghost predicate Towards(row: Row, regs: Registers, passed: seq<Registers>, goal: nat, up: bool, bound: nat)
    requires row.Shape() && |regs| == 256
  {
    && Sized(passed)
    && forall i :: 0 <= i < |passed| ==>
         OneTowards(RailPosition(row, Before(regs, passed, i)), RailPosition(row, passed[i]), goal, up, bound)
  }

  /** The state before the `i`-th one passed through. */
  ghost function Before(regs: Registers, passed: seq<Registers>, i: nat): (r: Registers)
    requires i < |passed| && |regs| == 256 && Sized(passed)
    ensures |r| == 256
  {
    if i == 0 then regs else passed[i-1]
  }

  /** One request of a ramp in smallest steps. */
  lemma LiveRampStep(row: Row, regs: Registers, target: int, onoff: int, k: nat)
    requires RampRow(row) && |regs| == 256 && RailVoltage(row, regs) > 0
    requires k < |Requests(RailVoltage(row, regs), target, MinStep(row.segs))|
    ensures
      var src := RailVoltage(row, regs);
      var reqs := Requests(src, target, MinStep(row.segs));
      OneTowards(RailPosition(row, After(row, regs, reqs[..k], onoff)),
                 RailPosition(row, After(row, regs, reqs[..k+1], onoff)), Goal(row, target), src < target, 1)
  {
    StepBelowMin(row);
    StepPositive(row);
    var src := RailVoltage(row, regs);
    var reqs := Requests(src, target, MinStep(row.segs));
    StrideStep(row, regs, src, target, MinStep(row.segs), 1, onoff, reqs, k, Goal(row, target));
  }

  ghost predicate AllAt(row: Row, states: seq<Registers>, c: nat)
    requires row.Shape()
  {
    Sized(states) && forall i :: 0 <= i < |states| ==> RailPosition(row, states[i]) == c
  }

  /** Every state one request passes through has the position it ends at. */
  lemma StepsPosition(row: Row, regs: Registers, v: int, onoff: int)
    requires RampRow(row) && |regs| == 256
    ensures AllAt(row, Steps(row, regs, v, onoff), RailPosition(row, Written(row, regs, v, onoff)))
  {
    hide Written, CfgWritten, RailPosition;
    CoversAll(row, v);
    WriteEncodes(row, regs, v, onoff);
  }

  /** Adding states that all have one position. */
  lemma TowardsMore(row: Row, regs: Registers, passed: seq<Registers>, more: seq<Registers>, c: nat,
                    goal: nat, up: bool, bound: nat)
    requires row.Shape() && |regs| == 256 && Towards(row, regs, passed, goal, up, bound)
    requires |Latest(regs, passed)| == 256
    requires OneTowards(RailPosition(row, Latest(regs, passed)), c, goal, up, bound) && AllAt(row, more, c)
    ensures Towards(row, regs, passed + more, goal, up, bound)
  {
    hide RailPosition, OneTowards;
    Stay(RailPosition(row, Latest(regs, passed)), c, goal, up, bound);
    var all := passed + more;
    forall i | 0 <= i < |all|
      ensures OneTowards(RailPosition(row, Before(regs, all, i)), RailPosition(row, all[i]), goal, up, bound)
    {
      if i < |passed| {
        assert Before(regs, all, i) == Before(regs, passed, i);
      } else {
        var j := i - |passed|;
        assert all[i] == more[j] && RailPosition(row, more[j]) == c;
        if j == 0 {
          assert Before(regs, all, i) == Latest(regs, passed);
        } else {
          assert Before(regs, all, i) == more[j-1];
        }
      }
    }
  }

  lemma Stay(before: nat, c: nat, goal: nat, up: bool, bound: nat)
    requires OneTowards(before, c, goal, up, bound)
    ensures OneTowards(c, c, goal, up, bound)
  {}

  lemma StartTowards(row: Row, regs: Registers, reqs: seq<int>, goal: nat, up: bool, bound: nat, onoff: int)
    requires row.Shape() && |regs| == 256
    ensures Towards(row, regs, Walk(row, regs, reqs[..0], onoff), goal, up, bound)
  {
    assert reqs[..0] == [];
  }

  /** One request goes towards the goal. */
  ghost predicate RequestTowards(row: Row, regs: Registers, reqs: seq<int>, k: nat, onoff: int,
                                 goal: nat, up: bool, bound: nat)
    requires row.Shape() && |regs| == 256 && k < |reqs|
  {
    OneTowards(RailPosition(row, After(row, regs, reqs[..k], onoff)),
               RailPosition(row, After(row, regs, reqs[..k+1], onoff)), goal, up, bound)
  }

  /** One more request of a walk. */
  lemma WalkMore(row: Row, regs: Registers, reqs: seq<int>, k: nat, onoff: int, goal: nat, up: bool, bound: nat)
    requires RampRow(row) && |regs| == 256 && k < |reqs|
    requires Towards(row, regs, Walk(row, regs, reqs[..k], onoff), goal, up, bound)
    requires RequestTowards(row, regs, reqs, k, onoff, goal, up, bound)
    ensures Towards(row, regs, Walk(row, regs, reqs[..k+1], onoff), goal, up, bound)
  {
    assert row.Shape();
    var at, walk := After(row, regs, reqs[..k], onoff), Walk(row, regs, reqs[..k], onoff);
    var more, next := Steps(row, at, reqs[k], onoff), Written(row, at, reqs[k], onoff);
    assert OneTowards(RailPosition(row, at), RailPosition(row, After(row, regs, reqs[..k+1], onoff)), goal, up, bound);
    hide *;
    WalkSnoc(row, regs, reqs, k, onoff);
    AfterSnoc(row, regs, reqs, k, onoff);
    StepsPosition(row, at, reqs[k], onoff);
    TowardsMore(row, regs, walk, more, RailPosition(row, next), goal, up, bound);
  }

  /** If one request after the other does, so does every write. */
  lemma {:induction false} WalkTowards(row: Row, regs: Registers, src: int, target: int, stride: nat, bound: nat,
                                       onoff: int, reqs: seq<int>, n: nat, goal: nat)
    requires LiveWalk(row, regs, src, target, stride, bound, reqs) && n <= |reqs| && goal == Goal(row, target)
    ensures Towards(row, regs, Walk(row, regs, reqs[..n], onoff), goal, src < target, bound)
  {
    hide *;
    LiveWalkShape(row, regs, src, target, stride, bound, reqs);
    if n == 0 {
      StartTowards(row, regs, reqs, goal, src < target, bound, onoff);
    } else {
      WalkTowards(row, regs, src, target, stride, bound, onoff, reqs, n - 1, goal);
      StrideStep(row, regs, src, target, stride, bound, onoff, reqs, n - 1, goal);
      WalkMore(row, regs, reqs, n - 1, onoff, goal, src < target, bound);
    }
  }

  /** And so does every part of it. */
  lemma PartTowards(row: Row, regs: Registers, target: int, stride: nat, bound: nat, onoff: int, passed: seq<Registers>)
    requires RampRow(row) && |regs| == 256 && RailVoltage(row, regs) > 0
    requires 0 < stride <= row.minVol && stride <= bound * MinStep(row.segs)
    requires passed <= Walk(row, regs, Requests(RailVoltage(row, regs), target, stride), onoff)
    ensures Towards(row, regs, passed, Goal(row, target), RailVoltage(row, regs) < target, bound)
  {
    var src := RailVoltage(row, regs);
    var reqs := Requests(src, target, stride);
    WalkTowards(row, regs, src, target, stride, bound, onoff, reqs, |reqs|, Goal(row, target));
    assert reqs[..|reqs|] == reqs;
    hide *;
    PrefixTowards(row, regs, passed, Walk(row, regs, reqs, onoff), Goal(row, target), src < target, bound);
  }

  lemma PrefixTowards(row: Row, regs: Registers, part: seq<Registers>, passed: seq<Registers>,
                      goal: nat, up: bool, bound: nat)
    requires row.Shape() && |regs| == 256 && part <= passed && Towards(row, regs, passed, goal, up, bound)
    ensures Towards(row, regs, part, goal, up, bound)
  {
    hide RailPosition, OneTowards;
    assert forall i :: 0 <= i < |part| ==> Before(regs, part, i) == Before(regs, passed, i);
  }

  lemma LivePart(row: Row, regs: Registers, src: int, target: int, step: nat, onoff: int, passed: seq<Registers>)
    requires row.Shape() && |regs| == 256 && (src == RailVoltage(row, regs) || src == -1)
    requires step > 0 && step == MinStep(row.segs) && passed <= Walk(row, regs, Requests(src, target, step), onoff)
    ensures RampRow(row) && src > 0 ==> Towards(row, regs, passed, Goal(row, target), src < target, 1)
  {
    if RampRow(row) && src > 0 {
      StepBelowMin(row);
      PartTowards(row, regs, target, step, 1, onoff, passed);
    }
  }

  lemma LiveSourceOf(row: Row, regs: Registers)
    requires RampShape(row) && |regs| == 256 && RailVoltage(row, regs) > 0
    ensures SourceOf(row, RailPosition(row, regs), RailVoltage(row, regs))
  {}

  /** After the whole ramp the rail is within one position of the target's, and at it when
      the distance is a whole number of steps. */
  lemma LiveRampEnd(row: Row, regs: Registers, target: int, onoff: int)
    requires RampRow(row) && |regs| == 256 && RailVoltage(row, regs) > 0
    ensures
      var m := MinStep(row.segs);
      var end := RailPosition(row, After(row, regs, Requests(RailVoltage(row, regs), target, m), onoff));
      && Near(end, Goal(row, target), 1)
      && (m > 0 && Distance(RailVoltage(row, regs), target) % m == 0 ==> end == Goal(row, target))
  {
    var src, c0 := RailVoltage(row, regs), RailPosition(row, regs);
    LiveSourceOf(row, regs);
    hide After, RailPosition, RailVoltage, Goal, CodeAfter, RampShape, SourceOf, Requests, MinStep, Distance;
    StepPositive(row);
    StepBelowMin(row);
    var reqs := Requests(src, target, MinStep(row.segs));
    CodesAreRegisters(row, regs, reqs, |reqs|, onoff);
    assert reqs[..|reqs|] == reqs;
    LiveRampArrives(row, c0, src, target, MinStep(row.segs), 1);
  }

  /** No write of a walk moves the rail's position by more than `bound`. */
  ghost predicate Smooth(row: Row, regs: Registers, reqs: seq<int>, onoff: int, bound: nat)
    requires row.Shape() && |regs| == 256
  {
    forall k :: 0 <= k < |reqs| ==>
      Near(RailPosition(row, After(row, regs, reqs[..k+1], onoff)),
          RailPosition(row, After(row, regs, reqs[..k], onoff)), bound)
  }

  lemma SmoothIsJumpless(row: Row, regs: Registers, reqs: seq<int>, onoff: int, bound: nat)
    requires RampShape(row) && |regs| == 256
    ensures Smooth(row, regs, reqs, onoff, bound) <==> Jumpless(row, RailPosition(row, regs), reqs, bound)
  {
    hide After, RailPosition, CodeAfter, Ascending, MinStep;
    forall k | 0 <= k <= |reqs|
      ensures RailPosition(row, After(row, regs, reqs[..k], onoff)) == CodeAfter(row, RailPosition(row, regs), reqs, k)
    {
      CodesAreRegisters(row, regs, reqs, k, onoff);
    }
  }

  // ---------------------------------------------------------------- a table that ends below the row's range

  /** A live ramp over a table that may end below the row's range moves by at most one code a
      write exactly when none of its requests lies above the table. */
  lemma ShortRampExactly(row: Row, c0: nat, src: int, target: int)
    requires RampShape(row) && SourceOf(row, c0, src) && src > 0 && Total(row.segs) >= 4
    ensures Jumpless(row, c0, Requests(src, target, MinStep(row.segs)), 1)
      <==> row.maxVol == Top(row) || forall k :: 0 <= k < |Requests(src, target, MinStep(row.segs))| ==>
             Requests(src, target, MinStep(row.segs))[k] <= Top(row)
  {
    var m := MinStep(row.segs);
    var reqs := Requests(src, target, m);
    var full := row.(maxVol := Top(row));
    SourceBelowTop(row, c0, src);
    if forall k :: 0 <= k < |reqs| ==> reqs[k] <= Top(row) {
      SameJumps(row, full, c0, reqs);
      LiveRampJumpless(full, c0, src, target, m, 1);
    } else if row.maxVol == Top(row) {
      LiveRampJumpless(row, c0, src, target, m, 1);
    } else {
      var k := FirstAbove(reqs, Top(row));
      FallsAt(row, full, c0, src, target, k);
    }
  }

  lemma SourceBelowTop(row: Row, c0: nat, src: int)
    requires RampShape(row) && SourceOf(row, c0, src)
    ensures src <= Top(row)
    ensures RampRow(row.(maxVol := Top(row))) && SourceOf(row.(maxVol := Top(row)), c0, src)
  {
    HeadBelowLast(row.segs, 1);
    if src > 0 {
      DecodeRange(row.segs, c0);
    }
  }

  /** Below the top of the table, the row's range does not matter. */
  lemma SameGoal(row: Row, full: Row, v: int)
    requires RampShape(row) && full == row.(maxVol := Top(row)) && RampShape(full) && v <= Top(row)
    ensures Goal(row, v) == Goal(full, v)
  {}

  lemma {:induction false} SameCodes(row: Row, full: Row, c0: nat, reqs: seq<int>, k: nat)
    requires RampShape(row) && full == row.(maxVol := Top(row)) && RampShape(full) && k <= |reqs|
    requires forall i :: 0 <= i < k ==> reqs[i] <= Top(row)
    ensures CodeAfter(row, c0, reqs, k) == CodeAfter(full, c0, reqs, k)
  {
    hide Goal, RampShape;
    if k > 0 {
      SameGoal(row, full, reqs[k-1]);
      SameCodes(row, full, c0, reqs, k - 1);
    }
  }

  lemma SameJumps(row: Row, full: Row, c0: nat, reqs: seq<int>)
    requires RampShape(row) && full == row.(maxVol := Top(row)) && RampShape(full)
    requires forall i :: 0 <= i < |reqs| ==> reqs[i] <= Top(row)
    ensures Jumpless(row, c0, reqs, 1) <==> Jumpless(full, c0, reqs, 1)
  {
    hide CodeAfter, RampShape;
    forall k | 0 <= k <= |reqs| ensures CodeAfter(row, c0, reqs, k) == CodeAfter(full, c0, reqs, k) {
      SameCodes(row, full, c0, reqs, k);
    }
  }

  lemma FirstAbove(reqs: seq<int>, top: int) returns (k: nat)
    requires exists i :: 0 <= i < |reqs| && reqs[i] > top
    ensures k < |reqs| && reqs[k] > top && forall i :: 0 <= i < k ==> reqs[i] <= top
  {
    k := 0;
    while reqs[k] <= top
      invariant k < |reqs| && forall i :: 0 <= i < k ==> reqs[i] <= top
      decreases |reqs| - k
    {
      if k + 1 == |reqs| {
        assert false;
      }
      k := k + 1;
    }
  }

  /** The first request above the table drops the rail from one of its last codes to the first. */
  lemma FallsAt(row: Row, full: Row, c0: nat, src: int, target: int, k: nat)
    requires RampShape(row) && full == row.(maxVol := Top(row)) && RampRow(full) && Top(row) < row.maxVol
    requires SourceOf(row, c0, src) && 0 < src <= Top(row) && Total(row.segs) >= 4
    requires
      var reqs := Requests(src, target, MinStep(row.segs));
      k < |reqs| && reqs[k] > Top(row) && forall i :: 0 <= i < k ==> reqs[i] <= Top(row)
    ensures
      var reqs := Requests(src, target, MinStep(row.segs));
      CodeAfter(row, c0, reqs, k + 1) == 0 && CodeAfter(row, c0, reqs, k) >= Total(row.segs) - 2
    ensures !Jumpless(row, c0, Requests(src, target, MinStep(row.segs)), 1)
  {
    var m := MinStep(row.segs);
    var reqs := Requests(src, target, m);
    RequestIndex(src, target, m, 0);
    assert k > 0;
    RequestIndex(src, target, m, k);
    RequestIndex(src, target, m, k - 1);
    assert k * m == (k - 1) * m + m;
    AboveGoal(row, reqs[k]);
    SameCodes(row, full, c0, reqs, k);
    LiveCode(full, c0, src, target, m, k - 1);
    hide Goal, RampShape, Requests;
    assert 1 * m == m;
    GoalAdvance(full, reqs[k-1], Top(row), 1);
    TopGoal(full);
    assert !Near(CodeAfter(row, c0, reqs, k + 1), CodeAfter(row, c0, reqs, k), 1);
  }

  lemma AboveGoal(row: Row, v: int)
    requires RampShape(row) && Top(row) < row.maxVol && v > Top(row)
    ensures Goal(row, v) == 0
  {}

  lemma TopGoal(full: Row)
    requires RampRow(full)
    ensures Goal(full, Top(full)) == Total(full.segs) - 1
  {
    hide Encode, Decode;
    EncodeIsFloor(full.segs, Top(full));
    var c := Encode(full.segs, Top(full));
    if c + 1 < Total(full.segs) {
      DecodeRange(full.segs, c + 1);
    }
    HeadBelowLast(full.segs, 1);
  }

  // ---------------------------------------------------------------- a disabled rail

  /** The rail is on at the code it had, and no other bit differs. */
  ghost predicate SwitchedOn(row: Row, before: Registers, after: Registers)
    requires row.Shape() && |before| == 256 && |after| == 256
  {
    && after[row.ctrlReg][row.ctrlBit]
    && RailPosition(row, after) == RailPosition(row, before)
    && forall reg: nat, bit: nat :: reg < 256 && bit < 8 && !(reg == row.ctrlReg && bit == row.ctrlBit) ==>
         after[reg][bit] == before[reg][bit]
  }

  /** The first write of a ramp up from a disabled rail changes no configuration: it switches
      the rail on at the code it had. */
  lemma FirstWriteEnables(row: Row, regs: Registers, target: int)
    requires row.Shape() && |regs| == 256 && RailVoltage(row, regs) == 0 && MinStep(row.segs) > 0 && target > 0
    ensures Requests(0, target, MinStep(row.segs)) != []
    ensures SwitchedOn(row, regs, After(row, regs, Requests(0, target, MinStep(row.segs))[..1], 1))
  {
    hide Decode, Total, Ascending, MinStep, Requests;
    var reqs := Requests(0, target, MinStep(row.segs));
    RequestIndex(0, target, MinStep(row.segs), 0);
    assert reqs[..1] == [0] && reqs[..1][..0] == [];
    var after := After(row, regs, reqs[..1], 1);
    assert After(row, regs, [], 1) == regs;
    assert after == Written(row, regs, 0, 1) == regs[row.ctrlReg := regs[row.ctrlReg][row.ctrlBit := true]];
    KeepsField(row, regs);
  }

  /** Switching a rail on leaves its field alone. */
  lemma KeepsField(row: Row, regs: Registers)
    requires row.Shape() && |regs| == 256
    ensures RailPosition(row, regs[row.ctrlReg := regs[row.ctrlReg][row.ctrlBit := true]]) == RailPosition(row, regs)
  {
    hide Decode, Total, Ascending;
    var after := regs[row.ctrlReg := regs[row.ctrlReg][row.ctrlBit := true]];
    assert FieldBits(after[row.cfgReg], row.offset, row.width) == FieldBits(regs[row.cfgReg], row.offset, row.width);
  }
}
