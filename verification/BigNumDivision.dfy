/** Division of a two-word number by a word, half a word of quotient at a time. */
module BigNumDivision {
  import opened Numbers
  import opened Bytes
  import opened BigNumWords

  // ---------------------------------------------------------------- widths

  /** BN_BITS2. */
  function Bits(cfg: Config): nat {
    match cfg
    case EightBit => 8
    case SixteenBit => 16
    case ThirtyTwoBit => 32
    case SixtyFourBit => 64
  }

  lemma WordIsPower(cfg: Config)
    ensures cfg.Base() == Pow2(Bits(cfg))
  {
    ByteShifts();
    Pow2Sum(32, 32);
    hide Pow2;
  }

  /** The table of BN_num_bits_word, by ranges. */
  function TableBits(x: nat): (n: nat)
    requires x < 256
    ensures n <= 8
  {
    if x < 1 then 0 else if x < 2 then 1 else if x < 4 then 2 else if x < 8 then 3 else if x < 16 then 4
    else if x < 32 then 5 else if x < 64 then 6 else if x < 128 then 7 else 8
  }

  /** `n` is the number of significant bits. */
  ghost predicate HasBits(l: nat, n: nat) {
    if n == 0 then l == 0 else Pow2(n - 1) <= l < Pow2(n)
  }

  lemma TableIsRight(x: nat)
    requires x < 256
    ensures HasBits(x, TableBits(x)) && Pow2(7) == 128 && Pow2(0) == 1
  {
    assert Pow2(1) == 2 * Pow2(0) && Pow2(2) == 2 * Pow2(1) && Pow2(3) == 2 * Pow2(2) && Pow2(4) == 2 * Pow2(3);
    assert Pow2(5) == 2 * Pow2(4) && Pow2(6) == 2 * Pow2(5) && Pow2(7) == 2 * Pow2(6) && Pow2(8) == 2 * Pow2(7);
  }

  /** Bits dropped at the bottom count. */
  lemma ShiftedBits(l: nat, x: nat, p: nat, k: nat, n: nat)
    requires n > 0 && HasBits(x, n) && p == Pow2(k) && x * p <= l < (x + 1) * p
    ensures HasBits(l, n + k)
  {
    Pow2Sum(n - 1, k);
    Pow2Sum(n, k);
    var low, high := Pow2(n - 1), Pow2(n);
    assert n + k - 1 == n - 1 + k;
    hide Pow2;
    MulMonotone(low, x, p);
    MulMonotone(x + 1, high, p);
  }

  /** The byte of the word that BN_num_bits_word looks up, and its place.  Wherever a mask is
      tried, the bits above it are clear. */
  method TopByte(cfg: Config, l: nat) returns (x: nat, shift: nat, ghost p: nat)
    requires l < cfg.Base()
    ensures x < 256 && shift + 8 <= Bits(cfg) && p == Pow2(shift) && x * p <= l < (x + 1) * p && (shift > 0 ==> x > 0)
  {
    ByteShifts();
    hide Pow2;
    x, shift, p := l, 0, 1;
    if cfg.SixtyFourBit? && l / 0x1_0000_0000 != 0 {
      if l / 0x1_0000_0000_0000 != 0 {
        if l / 0x100_0000_0000_0000 != 0 {
          x, shift, p := l / 0x100_0000_0000_0000, 56, 0x100_0000_0000_0000;
        } else {
          x, shift, p := l / 0x1_0000_0000_0000, 48, 0x1_0000_0000_0000;
        }
      } else if l / 0x100_0000_0000 != 0 {
        x, shift, p := l / 0x100_0000_0000, 40, 0x100_0000_0000;
      } else {
        x, shift, p := l / 0x1_0000_0000, 32, 0x1_0000_0000;
      }
    } else if (cfg.ThirtyTwoBit? || cfg.SixtyFourBit?) && l / 0x1_0000 != 0 {
      if l / 0x100_0000 != 0 {
        x, shift, p := l / 0x100_0000, 24, 0x100_0000;
      } else {
        x, shift, p := l / 0x1_0000, 16, 0x1_0000;
      }
    } else if !cfg.EightBit? && l / 0x100 != 0 {
      x, shift, p := l / 0x100, 8, 0x100;
    }
  }

  /** BN_num_bits_word. */
  method NumBitsWord(cfg: Config, l: nat) returns (n: nat)
    requires l < cfg.Base()
    ensures HasBits(l, n) && n <= Bits(cfg)
  {
    ghost var p;
    var x, shift;
    x, shift, p := TopByte(cfg, l);
    n := TableBits(x) + shift;
    TableIsRight(x);
    hide HasBits, Pow2;
    if shift > 0 {
      NoBits(x, TableBits(x));
      ShiftedBits(l, x, p, shift, TableBits(x));
    } else {
      assert p == 1 by { ByteShifts(); }
    }
  }

  lemma NoBits(x: nat, n: nat)
    requires HasBits(x, n) && x > 0
    ensures n > 0
  {}

  lemma ByteShifts()
    ensures Pow2(0) == 1 && Pow2(8) == 0x100 && Pow2(16) == 0x1_0000 && Pow2(24) == 0x100_0000
    ensures Pow2(32) == 0x1_0000_0000 && Pow2(40) == 0x100_0000_0000 && Pow2(48) == 0x1_0000_0000_0000
    ensures Pow2(56) == 0x100_0000_0000_0000
  {
    TableIsRight(128);
    assert Pow2(8) == 2 * Pow2(7);
    hide *;
    Pow2Sum(8, 8);
    Pow2Sum(16, 8);
    Pow2Sum(24, 8);
    Pow2Sum(32, 8);
    Pow2Sum(40, 8);
    Pow2Sum(48, 8);
  }

  // ---------------------------------------------------------------- half a word of quotient

  /** What a word keeps of a number. */
  function Wrap(x: int, b: nat): (r: nat)
    requires b > 0
    ensures r < b
  {
    x % b
  }

  lemma WrapSmall(x: nat, b: nat)
    requires x < b
    ensures Wrap(x, b) == x
  {
    Small(x, b);
  }

  /** `l>>BN_BITS4` */
  function HighHalf(l: nat, half: nat): nat
    requires half > 0
  {
    l / half
  }

  /** The number formed by a word and the upper half of the next. */
  function Upper(h: nat, l: nat, half: nat): nat
    requires half > 0
  {
    h * half + HighHalf(l, half)
  }

  /** A word is two halves, and the divisor is made of `dh` and `dl`. */
  ghost predicate Parts(half: nat, b: nat, d: nat, dh: nat, dl: nat) {
    0 < dh < half && dl < half && b == half * half && d == dh * half + dl
  }

  /** `q` is the exact quotient of the upper three halves by the divisor. */
  ghost predicate Exact(half: nat, h: nat, l: nat, d: nat, q: nat)
    requires half > 0
  {
    q * d <= Upper(h, l, half) < (q + 1) * d
  }

  /** What the correction loop looks at: it goes on exactly while the quotient is too large. */
  lemma GuardExact(half: nat, h: nat, l1: nat, dh: nat, dl: nat, q: nat, t: nat)
    requires q < half && dl < half && h == t + q * dh
    ensures t >= half || q * dl <= t * half + l1 <==> q * (dh * half + dl) <= h * half + l1
  {
    HalfFits(q, dl, half);
    MulMonotone(half, t, half);
    PartialProducts(half, dh, dl, q);
    SumTimes(t, q * dh, half);
  }

  lemma PartialProducts(half: nat, dh: nat, dl: nat, q: nat)
    ensures q * (dh * half + dl) == q * dh * half + q * dl
  {
    assert q * (dh * half) == q * dh * half;
  }

  lemma SumTimes(x: nat, y: nat, z: nat)
    ensures (x + y) * z == x * z + y * z
  {}

  function FirstEstimate(half: nat, h: nat, dh: nat): nat
    requires 0 < dh < half
  {
    if h / half == dh then half - 1 else h / dh
  }

  /** The first estimate is not too small, and its product fits. */
  lemma EstimateAbove(half: nat, h: nat, l1: nat, dh: nat, dl: nat, e: nat)
    requires 0 < dh < half && dl < half && l1 < half && h < dh * half + dl
    requires e * (dh * half + dl) <= h * half + l1
    ensures e <= FirstEstimate(half, h, dh) < half && FirstEstimate(half, h, dh) * dh <= h
  {
    if h / half == dh {
      TopEstimate(half, h, l1, dh, dl, e);
    } else {
      BelowTop(h, half, dh, dl);
      NotAboveEstimate(half, h, l1, dh, dl, e);
      QuotientBelow(h, dh, half);
    }
  }

  lemma TopEstimate(half: nat, h: nat, l1: nat, dh: nat, dl: nat, e: nat)
    requires 0 < dh < half && dl < half && l1 < half && h < dh * half + dl && h / half == dh
    requires e * (dh * half + dl) <= h * half + l1
    ensures (half - 1) * dh <= h && e < half
  {
    var d := dh * half + dl;
    DivMod(h, half);
    MulMonotone(h + 1, d, half);
    assert (h + 1) * half == h * half + half;
    assert (half - 1) * dh == dh * half - dh;
    MulMonotone(half, e, d);
  }

  lemma QuotientBelow(h: nat, dh: nat, half: nat)
    requires dh > 0 && h < dh * half
    ensures h / dh < half && h / dh * dh <= h
  {
    DivMod(h, dh);
    MulMonotone(half, h / dh, dh);
  }

  lemma BelowTop(h: nat, half: nat, dh: nat, dl: nat)
    requires half > 0 && dl < half && h < dh * half + dl && h / half != dh
    ensures h < dh * half
  {
    if h >= dh * half {
      assert (dh + 1) * half == dh * half + half;
      DivUnique(h, half, dh);
    }
  }

  lemma NotAboveEstimate(half: nat, h: nat, l1: nat, dh: nat, dl: nat, e: nat)
    requires dh > 0 && l1 < half && e * (dh * half + dl) <= h * half + l1
    ensures e <= h / dh
  {
    assert e * (dh * half + dl) == e * dh * half + e * dl;
    assert (h + 1) * half == h * half + half;
    MulMonotone(h + 1, e * dh, half);
    DivMod(h, dh);
    MulMonotone(h / dh + 1, e, dh);
    assert (h / dh + 1) * dh == h / dh * dh + dh;
  }

  /** The loop's test in words: `t` is what the upper product leaves of the upper word. */
  predicate StopsAt(half: nat, b: nat, t: nat, tl: nat, l1: nat)
    requires half > 0 && b > 0
  {
    HighHalf(t, half) != 0 || tl <= Wrap(t * half, b) + l1
  }

  lemma StopsExactly(half: nat, b: nat, h: nat, l1: nat, dh: nat, dl: nat, q: nat, t: nat)
    requires q < half && dl < half && h == t + q * dh && b == half * half > 0
    ensures StopsAt(half, b, t, q * dl, l1) <==> q * (dh * half + dl) <= h * half + l1
  {
    GuardExact(half, h, l1, dh, dl, q, t);
    if t < half {
      Small(t, half);
      HalfShift(t, half);
    } else {
      DivMod(t, half);
    }
  }

  /** The products of the next smaller quotient. */
  lemma OneLess(q: nat, x: nat, b: nat)
    requires q > 0 && (q - 1) * x < b
    ensures Wrap(q * x - x, b) == (q - 1) * x
  {
    assert (q - 1) * x == q * x - x;
    Small((q - 1) * x, b);
  }

  /** The quotient and its two products, as the loop holds them. */
  ghost predicate Candidate(half: nat, h: nat, dh: nat, dl: nat, exact: nat, q: nat, th: nat, tl: nat) {
    exact <= q < half && th == q * dh <= h && tl == q * dl
  }

  /** The loop's test goes on exactly while the quotient is too large. */
  lemma TestExact(half: nat, b: nat, h: nat, l: nat, d: nat, dh: nat, dl: nat, exact: nat,
      q: nat, th: nat, tl: nat, t: nat)
    requires Parts(half, b, d, dh, dl) && Exact(half, h, l, d, exact) && b > 0
    requires Candidate(half, h, dh, dl, exact, q, th, tl) && t + th == h
    ensures StopsAt(half, b, t, tl, HighHalf(l, half)) <==> q == exact
  {
    var l1 := HighHalf(l, half);
    assert Upper(h, l, half) == h * half + l1;
    hide StopsAt, HighHalf, Upper;
    StopsExactly(half, b, h, l1, dh, dl, q, t);
    MulMonotone(q, exact, d);
    MulMonotone(exact + 1, q, d);
  }

  lemma NextCandidate(half: nat, b: nat, h: nat, d: nat, dh: nat, dl: nat, exact: nat, q: nat, th: nat, tl: nat)
    requires Parts(half, b, d, dh, dl) && h < d && b > 0
    requires Candidate(half, h, dh, dl, exact, q, th, tl) && exact < q
    ensures Candidate(half, h, dh, dl, exact, q - 1, Wrap(th - dh, b), Wrap(tl - dl, b))
  {
    hide Wrap;
    PartsPositive(half, b, d, dh, dl);
    MulMonotone(q - 1, q, dh);
    HalfFits(q - 1, dl, half);
    OneLess(q, dh, b);
    OneLess(q, dl, b);
  }

  lemma HighHalfFits(l: nat, half: nat)
    requires half > 0 && l < half * half
    ensures HighHalf(l, half) < half
  {
    TwoWords(l, half);
  }

  lemma FirstIsAbove(half: nat, b: nat, h: nat, l: nat, d: nat, dh: nat, dl: nat, exact: nat)
    requires Parts(half, b, d, dh, dl) && h < d && l < b && Exact(half, h, l, d, exact)
    ensures exact <= FirstEstimate(half, h, dh) < half && FirstEstimate(half, h, dh) * dh <= h
  {
    HighHalfFits(l, half);
    var l1 := HighHalf(l, half);
    hide HighHalf, FirstEstimate;
    EstimateAbove(half, h, l1, dh, dl, exact);
  }

  /** What the correction starts from. */
  lemma StartCandidate(half: nat, b: nat, h: nat, l: nat, d: nat, dh: nat, dl: nat, exact: nat,
      q: nat, th: nat, tl: nat)
    requires Parts(half, b, d, dh, dl) && h < d && l < b && Exact(half, h, l, d, exact)
    requires q == FirstEstimate(half, h, dh) && th == Wrap(q * dh, b) && tl == Wrap(dl * q, b)
    ensures Candidate(half, h, dh, dl, exact, q, th, tl)
  {
    PartsPositive(half, b, d, dh, dl);
    PartsBase(half, b, d, dh, dl);
    hide *;
    FirstIsAbove(half, b, h, l, d, dh, dl, exact);
    WrappedProducts(half, b, h, dh, dl, exact, q, th, tl);
  }

  lemma WrappedProducts(half: nat, b: nat, h: nat, dh: nat, dl: nat, exact: nat, q: nat, th: nat, tl: nat)
    requires b == half * half && dl < half && exact <= q < half && q * dh <= h < b
    requires th == Wrap(q * dh, b) && tl == Wrap(dl * q, b)
    ensures Candidate(half, h, dh, dl, exact, q, th, tl)
  {
    WrapSmall(q * dh, b);
    HalfFits(dl, q, half);
    WrapSmall(dl * q, b);
    hide Wrap;
  }

  lemma ExactExists(half: nat, h: nat, l: nat, d: nat) returns (exact: nat)
    requires half > 0 && d > 0
    ensures Exact(half, h, l, d, exact)
  {
    exact := Upper(h, l, half) / d;
    DivBounds(Upper(h, l, half), d);
  }

  lemma CandidateBounds(half: nat, h: nat, dh: nat, dl: nat, exact: nat, q: nat, th: nat, tl: nat)
    requires Candidate(half, h, dh, dl, exact, q, th, tl)
    ensures exact <= q && th <= h
  {}

  /** The estimate of half a word of quotient from the upper half of the divisor, and the loop
      that corrects it: it stops at the exact quotient. */
  method Estimate(half: nat, b: nat, h: nat, l: nat, ghost d: nat, dh: nat, dl: nat) returns (q: nat, th: nat, tl: nat)
    requires Parts(half, b, d, dh, dl) && h < d && l < b
    ensures half > 0 && Exact(half, h, l, d, q) && Candidate(half, h, dh, dl, q, q, th, tl)
  {
    PartsPositive(half, b, d, dh, dl);
    hide *;
    ghost var exact := ExactExists(half, h, l, d);
    var l1 := HighHalf(l, half);
    q := FirstEstimate(half, h, dh);
    th, tl := Wrap(q * dh, b), Wrap(dl * q, b);
    StartCandidate(half, b, h, l, d, dh, dl, exact, q, th, tl);
    CandidateBounds(half, h, dh, dl, exact, q, th, tl);
    WrapSmall(h - th, b);
    var t := Wrap(h - th, b);
    TestExact(half, b, h, l, d, dh, dl, exact, q, th, tl, t);
    while !StopsAt(half, b, t, tl, l1)
      invariant Candidate(half, h, dh, dl, exact, q, th, tl) && t + th == h
      invariant exact <= q && (StopsAt(half, b, t, tl, l1) <==> q == exact)
      decreases q
    {
      NextCandidate(half, b, h, d, dh, dl, exact, q, th, tl);
      q := q - 1;
      th := Wrap(th - dh, b);
      tl := Wrap(tl - dl, b);
      CandidateBounds(half, h, dh, dl, exact, q, th, tl);
      WrapSmall(h - th, b);
      t := Wrap(h - th, b);
      TestExact(half, b, h, l, d, dh, dl, exact, q, th, tl, t);
    }
  }

  lemma PartsPositive(half: nat, b: nat, d: nat, dh: nat, dl: nat)
    requires Parts(half, b, d, dh, dl)
    ensures half > 1 && b > 0 && d > 0 && 0 < dh < half && dl < half && d < b
  {
    JoinFits(dl, dh, half);
    MulMonotone(1, half, half);
    MulMonotone(1, dh, half);
  }

  // ---------------------------------------------------------------- taking it off

  /** `(tl<<BN_BITS4)&BN_MASK2h` */
  function LowPart(tl: nat, half: nat, b: nat): (r: nat)
    requires half > 0 && b > 0
  {
    var x := Wrap(tl * half, b);
    DivMod(x, half);
    x - x % half
  }

  lemma LowPartIs(tl: nat, half: nat, b: nat)
    requires half > 0 && tl < b == half * half
    ensures LowPart(tl, half, b) == tl % half * half < b
  {
    TwoWords(tl, half);
    HalfShift(tl % half, half);
    var u, v := tl / half, tl % half;
    assert tl * half == u * b + v * half by {
      assert (u * half + v) * half == u * half * half + v * half;
      assert u * half * half == u * (half * half);
    }
    DivModUnique(tl * half, b, u, v * half);
    DivModUnique(v * half, half, v, 0);
  }

  /** What is taken off, in words: the products' halves line up. */
  lemma TakenOff(half: nat, b: nat, d: nat, dh: nat, dl: nat, q: nat, th: nat, tl: nat, u: nat, low: nat, off: nat)
    requires Parts(half, b, d, dh, dl) && q < half && th == q * dh && tl == q * dl && off == Off(half, d, q)
    requires b > 0 && u == HighHalf(tl, half) && low == LowPart(tl, half, b)
    ensures (th + u) * b + low == off && low < b
  {
    HalfFits(q, dl, half);
    LowPartIs(tl, half, b);
    TwoWords(tl, half);
    hide LowPart;
    Products(half, dh, dl, q, u, tl % half);
  }

  lemma Products(half: nat, dh: nat, dl: nat, q: nat, u: nat, v: nat)
    requires q * dl == u * half + v
    ensures (q * dh + u) * (half * half) + v * half == q * (dh * half + dl) * half
  {
    var b := half * half;
    assert q * (dh * half + dl) == q * dh * half + (u * half + v) by {
      assert q * (dh * half + dl) == q * (dh * half) + q * dl;
      assert q * (dh * half) == q * dh * half;
    }
    var x := q * dh;
    assert (x * half + (u * half + v)) * half == x * half * half + u * half * half + v * half;
    assert x * half * half == x * b && u * half * half == u * b;
    assert (x + u) * b == x * b + u * b;
  }

  /** The two-word number is smaller by `off`. */
  ghost predicate Less(b: nat, h: nat, l: nat, h': nat, l': nat, off: nat) {
    h' < b && l' < b && h' * b + l' + off == h * b + l
  }

  /** The words of what is taken off, and their relation to the number. */
  ghost predicate OffWords(b: nat, h: nat, l: nat, top: nat, tl: nat, off: nat) {
    top * b + tl == off && tl < b && top + (if l < tl then 1 else 0) <= h < b && l < b
  }

  /** The multiple of the divisor that a round takes off. */
  function Off(half: nat, d: nat, q: nat): nat {
    q * d * half
  }

  lemma OffInWords(half: nat, b: nat, h: nat, l: nat, d: nat, dh: nat, dl: nat, q: nat, th: nat,
      tl: nat, u: nat, low: nat, off: nat)
    requires Parts(half, b, d, dh, dl) && h < b && l < b
    requires Candidate(half, h, dh, dl, q, q, th, tl) && off == Off(half, d, q) <= h * b + l
    requires u == HighHalf(tl, half) && low == LowPart(tl, half, b)
    ensures OffWords(b, h, l, th + u, low, off)
  {
    hide LowPart, HighHalf;
    TakenOff(half, b, d, dh, dl, q, th, tl, u, low, off);
    hide *;
    HighPartFits(h, l, th + u, low, b, off);
  }

  /** The subtraction with its borrow.  The last correction, for a remainder that would be
      negative, is never needed. */
  method Subtract(b: nat, h: nat, l: nat, d: nat, q: nat, top: nat, tl: nat, ghost off: nat)
    returns (h': nat, l': nat, q': nat, ghost corrected: bool)
    requires OffWords(b, h, l, top, tl, off)
    ensures Less(b, h, l, h', l', off) && q' == q && !corrected
  {
    OffBounds(b, h, l, top, tl, off);
    hide *;
    var th := Wrap(top, b);
    WrapSmall(top, b);
    if l < tl {
      th := Wrap(th + 1, b);
      WrapSmall(top + 1, b);
    }
    Borrow(l, tl, b);
    l' := Wrap(l - tl, b);
    h', q', corrected := AddBack(b, h, d, q, th);
    Borrow(h, th, b);
    h' := Wrap(h' - th, b);
    Borrowed(h, l, top, tl, b, off);
  }

  lemma OffBounds(b: nat, h: nat, l: nat, top: nat, tl: nat, off: nat)
    requires OffWords(b, h, l, top, tl, off)
    ensures tl < b && top + (if l < tl then 1 else 0) <= h < b && l < b
  {}

  /** `if (h < th) { h+=d; q--; }` */
  method AddBack(b: nat, h: nat, d: nat, q: nat, th: nat) returns (h': nat, q': nat, ghost corrected: bool)
    requires b > 0
    ensures corrected == (h < th)
    ensures h' == (if h < th then Wrap(h + d, b) else h) && q' == (if h < th then Wrap(q - 1, b) else q)
  {
    corrected := h < th;
    h', q' := h, q;
    if h < th {
      h' := Wrap(h' + d, b);
      q' := Wrap(q' - 1, b);
    }
  }

  lemma HighPartFits(h: nat, l: nat, th: nat, tl: nat, b: nat, off: nat)
    requires h < b && l < b && tl < b && th * b + tl == off <= h * b + l
    ensures OffWords(b, h, l, th, tl, off)
  {
    MulMonotone(h + 1, th, b);
    assert (h + 1) * b == h * b + b;
  }

  lemma Borrow(x: nat, y: nat, b: nat)
    requires x < b && y < b
    ensures Wrap(x - y, b) == if x < y then x - y + b else x - y
  {
    if x < y {
      ModMinus(x, y, b);
    } else {
      Small(x - y, b);
    }
  }

  lemma ModMinus(x: nat, y: nat, b: nat)
    requires x < y < b
    ensures (x - y) % b == x - y + b
  {
    var q, r := (x - y) / b, (x - y) % b;
    assert x - y == q * b + r;
    if q >= 0 {
      MulMonotone(0, q, b);
    } else if q <= -2 {
      MulMonotone(q, -2, b);
    }
    assert q == -1;
  }

  lemma Borrowed(h: nat, l: nat, top: nat, tl: nat, b: nat, off: nat)
    requires OffWords(b, h, l, top, tl, off)
    ensures var borrow := if l < tl then 1 else 0;
      Less(b, h, l, h - (top + borrow), l - tl + borrow * b, off)
  {
    var borrow := if l < tl then 1 else 0;
    assert (h - (top + borrow)) * b == h * b - (top * b + borrow * b);
  }

  // ---------------------------------------------------------------- the two rounds

  /** A round takes `q` times the divisor off, half a word up, and leaves less than that. */
  ghost predicate Rounded(half: nat, b: nat, h: nat, l: nat, d: nat, q: nat, h': nat, l': nat) {
    Less(b, h, l, h', l', Off(half, d, q)) && h' * b + l' < d * half
  }

  lemma TwoWordsUp(half: nat, b: nat, h: nat, l: nat)
    requires half > 0 && b == half * half
    ensures h * b + l == Upper(h, l, half) * half + l % half && l % half < half
  {
    DivMod(l, half);
    var u := l / half;
    assert (h * half + u) * half == h * half * half + u * half;
    assert h * half * half == h * (half * half);
  }

  /** What the exact quotient takes off is there, and what it leaves is small. */
  lemma ExactFits(half: nat, b: nat, h: nat, l: nat, d: nat, q: nat)
    requires half > 0 && b == half * half && Exact(half, h, l, d, q)
    ensures Off(half, d, q) <= h * b + l < Off(half, d, q) + d * half
  {
    TwoWordsUp(half, b, h, l);
    var n, r := Upper(h, l, half), l % half;
    hide Upper;
    MulMonotone(q * d, n, half);
    MulMonotone(n + 1, (q + 1) * d, half);
    assert (n + 1) * half == n * half + half && (q + 1) * d * half == (q * d + d) * half == q * d * half + d * half;
  }

  /** One round: half a word of quotient is found and taken off, and what is left is below the
      divisor, half a word up. */
  method Round(half: nat, b: nat, h: nat, l: nat, d: nat, dh: nat, dl: nat) returns (q: nat, h': nat, l': nat)
    requires Parts(half, b, d, dh, dl) && h < d && l < b
    ensures q < half && Rounded(half, b, h, l, d, q, h', l')
  {
    PartsPositive(half, b, d, dh, dl);
    hide *;
    var th, tl;
    q, th, tl := Estimate(half, b, h, l, d, dh, dl);
    ghost var off := Off(half, d, q);
    PartsBase(half, b, d, dh, dl);
    ExactFits(half, b, h, l, d, q);
    var u, low := HighHalf(tl, half), LowPart(tl, half, b);
    OffInWords(half, b, h, l, d, dh, dl, q, th, tl, u, low, off);
    CandidateBounds(half, h, dh, dl, q, q, th, tl);
    ghost var corrected;
    h', l', q, corrected := Subtract(b, h, l, d, q, th + u, low, off);
    RoundLeft(half, b, h, l, d, q, h', l');
  }

  lemma PartsBase(half: nat, b: nat, d: nat, dh: nat, dl: nat)
    requires Parts(half, b, d, dh, dl)
    ensures b == half * half
  {}

  lemma RoundLeft(half: nat, b: nat, h: nat, l: nat, d: nat, q: nat, h': nat, l': nat)
    requires h * b + l < Off(half, d, q) + d * half && Less(b, h, l, h', l', Off(half, d, q))
    ensures Rounded(half, b, h, l, d, q, h', l')
  {}

  /** The number left by the first round, moved up half a word for the second. */
  lemma MovedUp(half: nat, b: nat, h: nat, l: nat, d: nat, up: nat, low: nat)
    requires half > 0 && b == half * half && d < b && h < b && l < b && h * b + l < d * half
    requires up == Wrap(Wrap(h * half, b) + HighHalf(l, half), b) && low == l % half * half
    ensures up < d && low < b && up * b + low == (h * b + l) * half
  {
    HighBelowHalf(half, b, h, l, d);
    TwoWords(l, half);
    var u, v := HighHalf(l, half), l % half;
    assert l == u * half + v;
    MovedWrap(half, b, h, u);
    HalfShift(v, half);
    hide *;
    MovedValue(half, b, h, u, v, d);
  }

  lemma MovedWrap(half: nat, b: nat, h: nat, u: nat)
    requires b == half * half && h < half && u < half
    ensures b > 0 && Wrap(Wrap(h * half, b) + u, b) == h * half + u
  {
    HalfShift(h, half);
    JoinFits(u, h, half);
    WrapSmall(h * half, b);
    WrapSmall(h * half + u, b);
  }

  lemma HighBelowHalf(half: nat, b: nat, h: nat, l: nat, d: nat)
    requires half > 0 && d < b && h * b + l < d * half
    ensures h < half
  {
    MulMonotone(d, b, half);
    MulMonotone(half, h, b);
  }

  lemma MovedValue(half: nat, b: nat, h: nat, u: nat, v: nat, d: nat)
    requires b == half * half && h * b + (u * half + v) < d * half
    ensures (h * half + u) * b + v * half == (h * b + (u * half + v)) * half
    ensures h * half + u < d
  {
    assert (h * half + u) * b == h * half * b + u * b && u * b == u * half * half;
    assert h * b * half == h * half * b;
    assert (h * b + (u * half + v)) * half == h * b * half + u * half * half + v * half;
    assert h * b == h * half * half && (h * half + u) * half == h * half * half + u * half;
    MulMonotone(d, h * half + u, half);
  }

  /** `q` is the quotient of a two-word number by a word. */
  ghost predicate Divides(b: nat, h: nat, l: nat, d: nat, q: nat) {
    q * d <= h * b + l < (q + 1) * d
  }

  /** The two half quotients make up the quotient. */
  lemma TwoRounds(half: nat, b: nat, h0: nat, l0: nat, h1: nat, l1: nat, h2: nat, l2: nat,
      h3: nat, l3: nat, d: nat, q1: nat, q2: nat)
    requires half > 0 && Rounded(half, b, h0, l0, d, q1, h1, l1) && Rounded(half, b, h2, l2, d, q2, h3, l3)
    requires h2 * b + l2 == (h1 * b + l1) * half
    ensures Divides(b, h0, l0, d, q1 * half + q2)
  {
    SecondDivides(half, h1 * b + l1, h3 * b + l3, d, q2);
    JoinedQuotient(half, h1 * b + l1, d, q1, q2);
  }

  lemma SecondDivides(half: nat, v1: nat, v3: nat, d: nat, q: nat)
    requires half > 0 && v3 + Off(half, d, q) == v1 * half && v3 < d * half
    ensures q * d <= v1 < (q + 1) * d
  {
    assert (q + 1) * d == q * d + d;
    assert (q * d + d) * half == q * d * half + d * half;
    MulMonotone(v1 + 1, q * d, half);
    MulMonotone((q + 1) * d, v1, half);
    assert (v1 + 1) * half == v1 * half + half;
  }

  lemma JoinedQuotient(half: nat, v1: nat, d: nat, q1: nat, q2: nat)
    requires q2 * d <= v1 < (q2 + 1) * d
    ensures (q1 * half + q2) * d <= Off(half, d, q1) + v1 < (q1 * half + q2 + 1) * d
  {
    var x := q1 * half;
    assert x * d == q1 * d * half;
    assert (x + q2) * d == x * d + q2 * d && (x + q2 + 1) * d == x * d + (q2 + 1) * d;
  }

  /** `l>>k`, where `r` is `1<<k`. */
  function Shifted(l: nat, r: nat): nat
    requires r > 0
  {
    l / r
  }

  /** Shifting dividend and divisor up by `i` bits. */
  lemma Normalised(b: nat, p: nat, r: nat, h: nat, l: nat, d: nat, up: nat, low: nat, div: nat)
    requires p > 0 && r > 0 && b == r * p && h < d < r && l < b
    requires up == Wrap(h * p, b) + Shifted(l, r) && low == Wrap(l * p, b) && div == Wrap(d * p, b)
    ensures up < div < b && low < b && div == d * p && up * b + low == (h * b + l) * p
  {
    DivMod(l, r);
    var u, v := l / r, l % r;
    ShiftedUp(b, p, r, h, d);
    hide Wrap;
    UpperShare(b, p, r, u, v);
    ShiftedLow(b, p, r, l, u, v);
    hide *;
    ShiftedValue(b, p, h, l, u, v, up, low);
  }

  lemma ShiftedUp(b: nat, p: nat, r: nat, h: nat, d: nat)
    requires p > 0 && b == r * p > 0 && h < d < r
    ensures Wrap(h * p, b) == h * p && Wrap(d * p, b) == d * p && h * p + p <= d * p < b
  {
    MulMonotone(h + 1, d, p);
    MulMonotone(d + 1, r, p);
    assert (h + 1) * p == h * p + p && (d + 1) * p == d * p + p;
    WrapSmall(h * p, b);
    WrapSmall(d * p, b);
  }

  lemma ShiftedValue(b: nat, p: nat, h: nat, l: nat, u: nat, v: nat, up: nat, low: nat)
    requires up == h * p + u && low == v * p && l * p == u * b + v * p
    ensures up * b + low == (h * b + l) * p
  {
    assert (h * p + u) * b == h * p * b + u * b;
    assert (h * b + l) * p == h * b * p + l * p;
    assert h * b * p == h * p * b;
  }

  lemma UpperShare(b: nat, p: nat, r: nat, u: nat, v: nat)
    requires p > 0 && r > 0 && b == r * p && u * r + v < b
    ensures u < p
  {
    MulMonotone(p, u, r);
    assert p * r == r * p;
  }

  lemma ShiftedLow(b: nat, p: nat, r: nat, l: nat, u: nat, v: nat)
    requires p > 0 && r > 0 && b == r * p && l == u * r + v && v < r
    ensures l * p == u * b + v * p && Wrap(l * p, b) == v * p
  {
    assert (u * r + v) * p == u * r * p + v * p && u * r * p == u * (r * p);
    MulMonotone(v + 1, r, p);
    assert (v + 1) * p == v * p + p;
    DivModUnique(l * p, b, u, v * p);
  }

  /** A quotient is not changed by scaling. */
  lemma Unscaled(b: nat, h: nat, l: nat, d: nat, up: nat, low: nat, p: nat, q: nat)
    requires p > 0 && up * b + low == (h * b + l) * p && Divides(b, up, low, d * p, q)
    ensures Divides(b, h, l, d, q)
  {
    var n := h * b + l;
    assert q * (d * p) == q * d * p && (q + 1) * (d * p) == (q + 1) * d * p;
    MulMonotone(n + 1, q * d, p);
    MulMonotone((q + 1) * d, n, p);
    assert (n + 1) * p == n * p + p;
  }

  /** A divisor with its top bit set has a non-zero upper half. */
  lemma TopBitSet(cfg: Config, d: nat, n: nat, p: nat, r: nat)
    requires d > 0 && HasBits(d, n) && n <= Bits(cfg) && p == Pow2(Bits(cfg) - n) && r == Pow2(n)
    ensures n > 0 && r * p == cfg.Base() && d < r && d * p >= cfg.Half()
  {
    WordIsPower(cfg);
    Pow2Sum(n, Bits(cfg) - n);
    Pow2Sum(n - 1, Bits(cfg) - n);
    assert cfg.Base() == 2 * Pow2(Bits(cfg) - 1) && n - 1 + (Bits(cfg) - n) == Bits(cfg) - 1;
    var low := Pow2(n - 1);
    hide Pow2;
    MulMonotone(low, d, p);
    AtLeastHalf(cfg);
  }

  lemma AtLeastHalf(cfg: Config)
    ensures cfg.Base() >= 2 * cfg.Half()
  {
    MulMonotone(2, cfg.Half(), cfg.Half());
  }

  lemma MadeOfParts(half: nat, b: nat, d: nat)
    requires half > 0 && b == half * half && half <= d < b
    ensures Parts(half, b, d, d / half, d % half)
  {
    TwoWords(d, half);
    MulMonotone(d / half, 0, half);
  }

  /** The shift of bn_div_words that brings the divisor's top bit up. */
  method Normalise(cfg: Config, h: nat, l: nat, d: nat) returns (up: nat, low: nat, div: nat, ghost p: nat)
    requires h < d < cfg.Base() && l < cfg.Base()
    ensures p > 0 && div == d * p && cfg.Half() <= div < cfg.Base() && up < div && low < cfg.Base()
    ensures up * cfg.Base() + low == (h * cfg.Base() + l) * p
  {
    var n := NumBitsWord(cfg, d);
    var i := Bits(cfg) - n;
    var b, e, r := cfg.Base(), Pow2(i), Pow2(n);
    TopBitSet(cfg, d, n, e, r);
    hide *;
    p := e;
    up, low, div := Wrap(h * e, b) + Shifted(l, r), Wrap(l * e, b), Wrap(d * e, b);
    Normalised(b, e, r, h, l, d, up, low, div);
  }

  /** bn_div_words: the quotient of a two-word number by a word; an upper word beyond the
      divisor loses the divisor once. */
  method DivWords(cfg: Config, h0: nat, l0: nat, d0: nat) returns (ret: nat)
    requires h0 < cfg.Base() && l0 < cfg.Base() && d0 < cfg.Base()
    requires d0 == 0 || h0 < 2 * d0
    ensures ret < cfg.Base()
    ensures d0 == 0 ==> ret == cfg.Base() - 1
    ensures d0 > 0 ==> Divides(cfg.Base(), if h0 < d0 then h0 else h0 - d0, l0, d0, ret)
  {
    var half, b := cfg.Half(), cfg.Base();
    assert half >= 2 && b == half * half;
    if d0 == 0 {
      return b - 1;
    }
    var h1 := if h0 >= d0 then h0 - d0 else h0;
    var h, l, d;
    ghost var p;
    h, l, d, p := Normalise(cfg, h1, l0, d0);
    hide *;
    MadeOfParts(half, b, d);
    var dh, dl := d / half, d % half;
    // the two turns of the loop
    ghost var hn, ln := h, l;
    var q, r1, s1 := Round(half, b, h, l, d, dh, dl);
    LeftIsSmall(half, b, hn, ln, d, q, r1, s1);
    HalfShift(q, half);
    ret := Wrap(q * half, b);
    WrapSmall(q * half, b);
    h := Wrap(Wrap(r1 * half, b) + HighHalf(s1, half), b);
    l := s1 % half * half;
    MovedUp(half, b, r1, s1, d, h, l);
    var q2, r2, s2 := Round(half, b, h, l, d, dh, dl);
    TwoRounds(half, b, hn, ln, r1, s1, h, l, r2, s2, d, q, q2);
    JoinFits(q2, q, half);
    ret := ret + q2;
    Unscaled(b, h1, l0, d0, hn, ln, p, ret);
  }

  lemma LeftIsSmall(half: nat, b: nat, h: nat, l: nat, d: nat, q: nat, h': nat, l': nat)
    requires Rounded(half, b, h, l, d, q, h', l')
    ensures h' < b && l' < b && h' * b + l' < d * half
  {}
}
