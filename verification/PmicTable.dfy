/** Voltage tables: a few ascending linear pieces with gaps between them, numbered
    through by one code.  Decoding and encoding are stated on the table alone. */
module PmicTable {
  import opened Numbers

  datatype Segment = Segment(min: nat, max: nat, step: nat, complement: bool)

  predicate SegmentOk(s: Segment) {
    0 < s.min <= s.max < 0x8000_0000 && 0 < s.step
  }

  /** Number of codes of a segment. */
  function Count(s: Segment): (n: nat)
    requires s.step > 0 && s.min <= s.max
    ensures n >= 1
  {
    (s.max - s.min + s.step) / s.step
  }

  predicate AllOk(segs: seq<Segment>) {
    forall i :: 0 <= i < |segs| ==> SegmentOk(segs[i])
  }

  /** Segments ascend, each starting at least `gap` above the end of the one before. */
  predicate Ascending(segs: seq<Segment>, gap: nat) {
    && segs != []
    && AllOk(segs)
    && (forall i :: 0 <= i < |segs| - 1 ==> segs[i].max + gap <= segs[i+1].min)
  }

  function Total(segs: seq<Segment>): nat
    requires AllOk(segs)
  {
    if segs == [] then 0 else Count(segs[0]) + Total(segs[1..])
  }

  /** The voltage of a code. */
  function Decode(segs: seq<Segment>, c: nat): nat
    requires AllOk(segs)
    requires c < Total(segs)
  {
    if c < Count(segs[0]) then segs[0].min + c * segs[0].step
    else Decode(segs[1..], c - Count(segs[0]))
  }

  /** The code chosen for a voltage of the table's range; a voltage in a gap is
      lowered to the end of the segment below. */
  function Encode(segs: seq<Segment>, v: nat): nat
    requires Ascending(segs, 1) && segs[0].min <= v <= segs[|segs| - 1].max
  {
    if v <= segs[0].max then (v - segs[0].min) / segs[0].step
    else if v < segs[1].min then (segs[0].max - segs[0].min) / segs[0].step
    else Count(segs[0]) + Encode(segs[1..], v)
  }

  lemma CountOf(s: Segment)
    requires SegmentOk(s)
    ensures Count(s) == (s.max - s.min) / s.step + 1
    ensures s.min + (Count(s) - 1) * s.step <= s.max
    ensures s.max < s.min + Count(s) * s.step
  {
    var x := s.max - s.min;
    DivBounds(x, s.step);
    var q := x / s.step;
    assert (q + 1) * s.step == q * s.step + s.step && (q + 2) * s.step == (q + 1) * s.step + s.step;
    DivUnique(x + s.step, s.step, q + 1);
  }

  lemma TailAscending(segs: seq<Segment>, gap: nat)
    requires Ascending(segs, gap) && |segs| > 1
    ensures Ascending(segs[1..], gap)
    ensures segs[1..][|segs| - 2] == segs[|segs| - 1]
  {
    assert forall i :: 0 <= i < |segs| - 1 ==> segs[1..][i] == segs[i+1];
  }

  /** All codes decode into the table's range. */
  lemma {:induction false} DecodeRange(segs: seq<Segment>, c: nat)
    requires Ascending(segs, 1) && c < Total(segs)
    ensures segs[0].min <= Decode(segs, c) <= segs[|segs| - 1].max
  {
    CountOf(segs[0]);
    hide Count;
    if c < Count(segs[0]) {
      MulMonotone(c, Count(segs[0]) - 1, segs[0].step);
      HeadBelowLast(segs, 1);
    } else {
      TailAscending(segs, 1);
      DecodeRange(segs[1..], c - Count(segs[0]));
    }
  }

  lemma {:induction false} HeadBelowLast(segs: seq<Segment>, gap: nat)
    requires Ascending(segs, gap)
    ensures segs[0].max <= segs[|segs| - 1].max
  {
    if |segs| > 1 {
      TailAscending(segs, gap);
      HeadBelowLast(segs[1..], gap);
    }
  }

  /** Neighbouring codes are at least a gap apart, so decoding is strictly increasing. */
  lemma {:induction false} DecodeSpacing(segs: seq<Segment>, c: nat, gap: nat)
    requires gap >= 1 && Ascending(segs, gap) && c + 1 < Total(segs)
    requires forall i :: 0 <= i < |segs| ==> segs[i].step >= gap
    ensures Decode(segs, c) + gap <= Decode(segs, c + 1)
  {
    CountOf(segs[0]);
    var n := Count(segs[0]);
    if c + 1 < n {
      assert (c + 1) * segs[0].step == c * segs[0].step + segs[0].step;
    } else {
      TailAscending(segs, gap);
      if c >= n {
        DecodeSpacing(segs[1..], c - n, gap);
      } else {
        DecodeFirst(segs[1..]);
      }
    }
  }

  lemma DecodeFirst(segs: seq<Segment>)
    requires Ascending(segs, 1)
    ensures Total(segs) > 0 && Decode(segs, 0) == segs[0].min
  {}

  lemma {:induction false} DecodeIncreasing(segs: seq<Segment>, c: nat, d: nat)
    requires Ascending(segs, 1) && c < d < Total(segs)
    ensures Decode(segs, c) < Decode(segs, d)
    decreases d
  {
    DecodeSpacing(segs, d - 1, 1);
    if c < d - 1 {
      DecodeIncreasing(segs, c, d - 1);
    }
  }

  /** Encoding picks the code of the largest voltage of the table not above the request. */
  lemma {:induction false} EncodeIsFloor(segs: seq<Segment>, v: nat)
    requires Ascending(segs, 1) && segs[0].min <= v <= segs[|segs| - 1].max
    ensures Encode(segs, v) < Total(segs)
    ensures Decode(segs, Encode(segs, v)) <= v
    ensures Encode(segs, v) + 1 < Total(segs) ==> v < Decode(segs, Encode(segs, v) + 1)
  {
    var s, n := segs[0], Count(segs[0]);
    CountOf(s);
    if v <= s.max {
      var q := (v - s.min) / s.step;
      DivBounds(v - s.min, s.step);
      MulMonotone(n, q, s.step);
      if q + 1 == n && 1 < |segs| {
        TailAscending(segs, 1);
        DecodeFirst(segs[1..]);
      }
    } else {
      TailAscending(segs, 1);
      if v < segs[1].min {
        DecodeFirst(segs[1..]);
      } else {
        EncodeIsFloor(segs[1..], v);
      }
    }
  }

  /** A code survives decoding and encoding. */
  lemma EncodeDecode(segs: seq<Segment>, c: nat)
    requires Ascending(segs, 1) && c < Total(segs)
    ensures segs[0].min <= Decode(segs, c) <= segs[|segs| - 1].max
    ensures Encode(segs, Decode(segs, c)) == c
  {
    DecodeRange(segs, c);
    if c + 1 < Total(segs) {
      DecodeIncreasing(segs, c, c + 1);
    }
    FloorUnique(segs, Decode(segs, c), c);
  }

  /** The floor property determines the code. */
  lemma FloorUnique(segs: seq<Segment>, v: nat, c: nat)
    requires Ascending(segs, 1) && segs[0].min <= v <= segs[|segs| - 1].max
    requires c < Total(segs) && Decode(segs, c) <= v && (c + 1 < Total(segs) ==> v < Decode(segs, c + 1))
    ensures Encode(segs, v) == c
  {
    EncodeIsFloor(segs, v);
    var e := Encode(segs, v);
    if e < c && e + 1 < c {
      DecodeIncreasing(segs, e + 1, c);
    } else if c < e && c + 1 < e {
      DecodeIncreasing(segs, c + 1, e);
    }
  }

  lemma EncodeMonotone(segs: seq<Segment>, v: nat, w: nat)
    requires Ascending(segs, 1) && segs[0].min <= v <= w <= segs[|segs| - 1].max
    ensures Encode(segs, v) <= Encode(segs, w)
  {
    EncodeIsFloor(segs, v);
    EncodeIsFloor(segs, w);
    if Encode(segs, w) < Encode(segs, v) && Encode(segs, w) + 1 < Encode(segs, v) {
      DecodeIncreasing(segs, Encode(segs, w) + 1, Encode(segs, v));
    }
  }

  /** Raising a request by at most the smallest step raises the code by at most one. */
  lemma EncodeAdvance(segs: seq<Segment>, v: nat, w: nat, gap: nat)
    requires gap >= 1 && Ascending(segs, gap) && segs[0].min <= v <= w <= segs[|segs| - 1].max
    requires forall i :: 0 <= i < |segs| ==> segs[i].step >= gap
    requires w <= v + gap
    ensures Encode(segs, v) <= Encode(segs, w) <= Encode(segs, v) + 1
  {
    EncodeMonotone(segs, v, w);
    EncodeIsFloor(segs, v);
    EncodeIsFloor(segs, w);
    var c, d := Encode(segs, v), Encode(segs, w);
    if d >= c + 2 {
      DecodeSpacing(segs, c + 1, gap);
      if c + 2 < d {
        DecodeIncreasing(segs, c + 2, d);
      }
    }
  }
}
