/** The word macros of the big-number code: multiply, multiply-add and square of one
    word, in the double-width, the high-product and the half-word form. */
module BigNumWords {
  import opened Numbers

  /** The word configurations; a word has `Half()` squared values. */
  datatype Config = EightBit | SixteenBit | ThirtyTwoBit | SixtyFourBit
  {
    function Half(): (h: nat)
      ensures h >= 2 && h % 2 == 0
    {
      match this
      case EightBit => 0x10
      case SixteenBit => 0x100
      case ThirtyTwoBit => 0x1_0000
      case SixtyFourBit => 0x1_0000_0000
    }

    function Base(): (b: nat)
      ensures b > 0
    {
      Half() * Half()
    }
  }

  // ---------------------------------------------------------------- arithmetic

  lemma DivModUnique(x: nat, d: nat, q: nat, r: nat)
    requires d > 0 && r < d && x == q * d + r
    ensures x / d == q && x % d == r
  {
    var e := x / d;
    assert x == e * d + x % d;
    MulMonotone(e + 1, q, d);
    MulMonotone(q + 1, e, d);
    assert (e + 1) * d == e * d + d && (q + 1) * d == q * d + d;
  }

  lemma MulBound(x: nat, y: nat, m: nat, n: nat)
    requires x <= m && y <= n
    ensures x * y <= m * n
  {
    MulMonotone(x, m, y);
    MulMonotone(y, n, m);
    assert x * y <= m * y && y * m <= n * m;
  }

  /** A two-word value is below the square of the base only if its high word fits. */
  lemma HighWordFits(hi: nat, lo: nat, b: nat)
    requires b > 0 && hi * b + lo < b * b
    ensures hi < b
  {
    MulMonotone(b, hi, b);
  }

  lemma Small(x: nat, b: nat)
    requires x < b
    ensures x % b == x && x / b == 0
  {
    DivModUnique(x, b, 0, x);
  }

  /** Addition of two words, and the carry the macros find by comparing the wrapped sum
      with an operand. */
  function Sum(x: nat, y: nat, b: nat): nat
    requires b > 0
  {
    (x + y) % b
  }

  function Carry(x: nat, y: nat, b: nat): nat
    requires b > 0
  {
    if Sum(x, y, b) < y then 1 else 0
  }

  lemma SumAndCarry(x: nat, y: nat, b: nat)
    requires x < b && y < b
    ensures Sum(x, y, b) + Carry(x, y, b) * b == x + y
    ensures Sum(x, y, b) < b && Carry(x, y, b) <= 1
  {
    if x + y < b {
      DivModUnique(x + y, b, 0, x + y);
    } else {
      DivModUnique(x + y, b, 1, x + y - b);
    }
  }

  // ---------------------------------------------------------------- double-width forms

  /** Any product of two words plus two words fits two words. */
  lemma MulAddFits(a: nat, w: nat, r: nat, c: nat, b: nat)
    requires a < b && w < b && r < b && c < b
    ensures a * w + r + c < b * b
  {
    MulBound(a, w, b - 1, b - 1);
    assert (b - 1) * (b - 1) == b * b - 2 * b + 1;
  }

  lemma TwoWords(t: nat, b: nat)
    requires b > 0 && t < b * b
    ensures t % b + t / b * b == t && t % b < b && t / b < b && t / b % b == t / b
  {
    DivMod(t, b);
    HighWordFits(t / b, t % b, b);
    Small(t / b, b);
  }

  method MulAddLLong(cfg: Config, r: nat, a: nat, w: nat, c: nat) returns (r': nat, c': nat)
    requires r < cfg.Base() && a < cfg.Base() && w < cfg.Base() && c < cfg.Base()
    ensures r' + c' * cfg.Base() == a * w + r + c
    ensures r' < cfg.Base() && c' < cfg.Base()
  {
    var b := cfg.Base();
    hide *;
    MulAddFits(a, w, r, c, b);
    var t := a * w + r + c;
    TwoWords(t, b);
    r' := t % b;
    c' := t / b % b;
  }

  method MulLLong(cfg: Config, a: nat, w: nat, c: nat) returns (r': nat, c': nat)
    requires a < cfg.Base() && w < cfg.Base() && c < cfg.Base()
    ensures r' + c' * cfg.Base() == a * w + c
    ensures r' < cfg.Base() && c' < cfg.Base()
  {
    var b := cfg.Base();
    hide *;
    MulAddFits(a, w, 0, c, b);
    var t := a * w + c;
    TwoWords(t, b);
    r' := t % b;
    c' := t / b % b;
  }

  // ---------------------------------------------------------------- high-product forms

  /** BN_UMULT_LOHI, and BN_UMULT_HIGH with the truncated product. */
  method UMult(cfg: Config, a: nat, w: nat) returns (low: nat, high: nat)
    requires a < cfg.Base() && w < cfg.Base()
    ensures high * cfg.Base() + low == a * w && low < cfg.Base() && high < cfg.Base()
  {
    var b := cfg.Base();
    hide *;
    MulAddFits(a, w, 0, 0, b);
    TwoWords(a * w, b);
    low := a * w % b;
    high := a * w / b;
  }

  /** The columns of the high-product multiply-add: two carries and the high product fit a word. */
  lemma UMultColumns(a: nat, w: nat, r: nat, c: nat, b: nat, low: nat, high: nat, ret: nat, k1: nat, r': nat, k2: nat)
    requires a < b && w < b && r < b && c < b && r' < b
    requires high * b + low == a * w && ret + k1 * b == r + c && r' + k2 * b == ret + low
    ensures r' + (k1 + high + k2) * b == a * w + r + c
    ensures k1 + high + k2 < b
  {
    MulAddFits(a, w, r, c, b);
    assert (k1 + high + k2) * b == k1 * b + high * b + k2 * b;
    HighWordFits(k1 + high + k2, r', b);
  }

  method MulAddUMult(cfg: Config, r: nat, a: nat, w: nat, c: nat) returns (r': nat, c': nat)
    requires r < cfg.Base() && a < cfg.Base() && w < cfg.Base() && c < cfg.Base()
    ensures r' + c' * cfg.Base() == a * w + r + c
    ensures r' < cfg.Base() && c' < cfg.Base()
  {
    var b := cfg.Base();
    var low, high := UMult(cfg, a, w);
    hide *;
    SumAndCarry(r, c, b);
    var ret := Sum(r, c, b);
    var k1 := Carry(r, c, b);
    SumAndCarry(ret, low, b);
    r' := Sum(ret, low, b);
    var k2 := Carry(ret, low, b);
    UMultColumns(a, w, r, c, b, low, high, ret, k1, r', k2);
    Small(k1 + high, b);
    Small(k1 + high + k2, b);
    c' := (k1 + high) % b;
    c' := (c' + k2) % b;
  }

  method MulUMult(cfg: Config, a: nat, w: nat, c: nat) returns (r': nat, c': nat)
    requires a < cfg.Base() && w < cfg.Base() && c < cfg.Base()
    ensures r' + c' * cfg.Base() == a * w + c
    ensures r' < cfg.Base() && c' < cfg.Base()
  {
    var b := cfg.Base();
    var low, high := UMult(cfg, a, w);
    hide *;
    SumAndCarry(c, low, b);
    r' := Sum(c, low, b);
    var k := Carry(c, low, b);
    UMultColumns(a, w, 0, c, b, low, high, c, 0, r', k);
    Small(high + k, b);
    c' := (high + k) % b;
  }

  // ---------------------------------------------------------------- half-word forms

  /** The columns of mul64: four half products, two of them summed in the middle. */
  lemma HalfColumns(half: nat, l: nat, h: nat, bl: nat, bh: nat, m: nat, k1: nat, lo: nat, k2: nat)
    requires half > 0
    requires m + k1 * (half * half) == bh * l + bl * h
    requires lo + k2 * (half * half) == bl * l + m % half * half
    ensures (bh * h + k1 * half + m / half + k2) * (half * half) + lo == (h * half + l) * (bh * half + bl)
  {
    var b := half * half;
    var q, r := m / half, m % half;
    DivMod(m, half);
    ColumnAlgebra(half, b, l, h, bl, bh, q, r, k1, k2, lo);
  }

  lemma ColumnAlgebra(half: nat, b: nat, l: nat, h: nat, bl: nat, bh: nat, q: nat, r: nat, k1: nat, k2: nat, lo: nat)
    requires b == half * half
    requires q * half + r + k1 * b == bh * l + bl * h
    requires lo + k2 * b == bl * l + r * half
    ensures (bh * h + k1 * half + q + k2) * b + lo == (h * half + l) * (bh * half + bl)
  {
    ExpandProduct(half, l, h, bl, bh);
    ScaleMiddle(half, q, r, k1);
    assert (bh * h + k1 * half + q + k2) * b == bh * h * b + k1 * half * b + q * b + k2 * b;
  }

  lemma ExpandProduct(half: nat, l: nat, h: nat, bl: nat, bh: nat)
    ensures (h * half + l) * (bh * half + bl) == bh * h * (half * half) + (bh * l + bl * h) * half + bl * l
  {
    assert (h * half + l) * (bh * half + bl) == (h * half) * (bh * half) + (h * half) * bl + l * (bh * half) + l * bl;
    assert (h * half) * (bh * half) == bh * h * (half * half);
    assert (bh * l + bl * h) * half == l * (bh * half) + (h * half) * bl;
  }

  lemma ScaleMiddle(half: nat, q: nat, r: nat, k1: nat)
    ensures (q * half + r + k1 * (half * half)) * half == q * (half * half) + r * half + k1 * half * (half * half)
  {
    assert (q * half + r + k1 * (half * half)) * half == q * half * half + r * half + k1 * (half * half) * half;
    assert q * half * half == q * (half * half);
    assert k1 * (half * half) * half == k1 * half * (half * half);
  }

  /** The four half products, their bounds, and the fit of the result. */
  lemma HalfFits(x: nat, y: nat, half: nat)
    requires x < half && y < half
    ensures x * y < half * half && x * y % (half * half) == x * y
  {
    MulBound(x, y, half - 1, half - 1);
    assert (half - 1) * (half - 1) == half * half - 2 * half + 1;
    Small(x * y, half * half);
  }

  lemma HalfShift(x: nat, half: nat)
    requires x < half
    ensures x * half < half * half && x * half % (half * half) == x * half
  {
    MulMonotone(x + 1, half, half);
    assert (x + 1) * half == x * half + half;
    Small(x * half, half * half);
  }

  lemma JoinFits(l: nat, h: nat, half: nat)
    requires l < half && h < half
    ensures h * half + l < half * half
  {
    MulMonotone(h + 1, half, half);
    assert (h + 1) * half == h * half + half;
  }

  lemma HalfWordsFit(l: nat, h: nat, bl: nat, bh: nat, half: nat, hi: nat, lo: nat)
    requires l < half && h < half && bl < half && bh < half
    requires hi * (half * half) + lo == (h * half + l) * (bh * half + bl)
    ensures hi < half * half
  {
    JoinFits(l, h, half);
    JoinFits(bl, bh, half);
    MulAddFits(h * half + l, bh * half + bl, 0, 0, half * half);
    HighWordFits(hi, lo, half * half);
  }

  /** Additions into the high word that stay below the base do not wrap. */
  lemma NoWrap(x: nat, y: nat, z: nat, t: nat, b: nat)
    requires x + y + z + t < b
    ensures (x + y) % b == x + y && (x + y + z) % b == x + y + z && (x + y + z + t) % b == x + y + z + t
  {
    Small(x + y, b);
    Small(x + y + z, b);
    Small(x + y + z + t, b);
  }

  /** The middle column and the low word of mul64. */
  method MiddleColumn(half: nat, lt: nat, p: nat, m1: nat) returns (lo: nat, k1: nat, m: nat, k2: nat)
    requires half > 0 && lt < half * half && p < half * half && m1 < half * half
    ensures m + k1 * (half * half) == p + m1 && k1 <= 1 && m < half * half
    ensures lo + k2 * (half * half) == lt + m % half * half && k2 <= 1 && lo < half * half
  {
    var b := half * half;
    hide *;
    SumAndCarry(p, m1, b);
    k1 := Carry(p, m1, b);
    m := Sum(p, m1, b);
    TwoWords(m, half);
    HalfShift(m % half, half);
    var low := m % half * half % b;
    SumAndCarry(lt, low, b);
    lo := Sum(lt, low, b);
    k2 := Carry(lt, low, b);
  }

  /** mul64: the halves `l`, `h` of one word times the halves of another. */
  method Mul64(cfg: Config, l: nat, h: nat, bl: nat, bh: nat) returns (lo: nat, hi: nat)
    requires l < cfg.Half() && h < cfg.Half() && bl < cfg.Half() && bh < cfg.Half()
    ensures hi * cfg.Base() + lo == (h * cfg.Half() + l) * (bh * cfg.Half() + bl)
    ensures lo < cfg.Base() && hi < cfg.Base()
  {
    var half, b := cfg.Half(), cfg.Base();
    assert b == half * half;
    hide *;
    HalfFits(bh, l, half);
    HalfFits(bl, l, half);
    HalfFits(bl, h, half);
    HalfFits(bh, h, half);
    var p, lt, m1, ht := bh * l % b, bl * l % b, bl * h % b, bh * h % b;
    var k1, m, k2;
    lo, k1, m, k2 := MiddleColumn(half, lt, p, m1);
    TwoWords(m, half);
    HalfColumns(half, l, h, bl, bh, m, k1, lo, k2);
    ghost var all := bh * h + k1 * half + m / half + k2;
    HalfWordsFit(l, h, bl, bh, half, all, lo);
    var carried := if k1 == 1 then half else 0;
    assert carried == k1 * half by { assert k1 == 0 || k1 == 1; }
    NoWrap(ht, carried, m / half, k2, b);
    ht := (ht + carried) % b;
    ht := (ht + m / half % half) % b;
    hi := (ht + k2) % b;
  }

  /** LBITS and HBITS of a word. */
  lemma SplitWord(a: nat, half: nat)
    requires half > 0 && a < half * half
    ensures a == a / half % half * half + a % half
    ensures a % half < half && a / half % half < half
  {
    TwoWords(a, half);
  }

  lemma AddedCarries(hi: nat, lo: nat, p: nat, x: nat, s1: nat, k1: nat, y: nat, s2: nat, k2: nat, b: nat)
    requires hi * b + lo == p && s1 + k1 * b == lo + x && s2 + k2 * b == s1 + y
    requires s2 < b && p + x + y < b * b
    ensures (hi + k1 + k2) * b + s2 == p + x + y
    ensures hi + k1 + k2 < b
  {
    assert (hi + k1 + k2) * b == hi * b + k1 * b + k2 * b;
    HighWordFits(hi + k1 + k2, s2, b);
  }

  /** The half-word multiply-add, given the halves of the multiplier. */
  method MulAddHalf(cfg: Config, r: nat, a: nat, bl: nat, bh: nat, c: nat) returns (r': nat, c': nat)
    requires r < cfg.Base() && a < cfg.Base() && c < cfg.Base() && bl < cfg.Half() && bh < cfg.Half()
    ensures r' + c' * cfg.Base() == a * (bh * cfg.Half() + bl) + r + c
    ensures r' < cfg.Base() && c' < cfg.Base()
  {
    var half, b := cfg.Half(), cfg.Base();
    assert b == half * half;
    SplitWord(a, half);
    var l, h := a % half, a / half % half;
    l, h := Mul64(cfg, l, h, bl, bh);
    hide *;
    SumAndCarry(l, c, b);
    var s1, k1 := Sum(l, c, b), Carry(l, c, b);
    SumAndCarry(s1, r, b);
    var s2, k2 := Sum(s1, r, b), Carry(s1, r, b);
    JoinFits(bl, bh, half);
    MulAddFits(a, bh * half + bl, r, c, b);
    AddedCarries(h, l, a * (bh * half + bl), c, s1, k1, r, s2, k2, b);
    Small(h + k1 + k2, b);
    h := h + k1 + k2;
    c' := h % b;
    r' := s2;
  }

  method MulHalf(cfg: Config, a: nat, bl: nat, bh: nat, c: nat) returns (r': nat, c': nat)
    requires a < cfg.Base() && c < cfg.Base() && bl < cfg.Half() && bh < cfg.Half()
    ensures r' + c' * cfg.Base() == a * (bh * cfg.Half() + bl) + c
    ensures r' < cfg.Base() && c' < cfg.Base()
  {
    var half, b := cfg.Half(), cfg.Base();
    assert b == half * half;
    SplitWord(a, half);
    var l, h := a % half, a / half % half;
    l, h := Mul64(cfg, l, h, bl, bh);
    hide *;
    SumAndCarry(l, c, b);
    var s, k := Sum(l, c, b), Carry(l, c, b);
    JoinFits(bl, bh, half);
    MulAddFits(a, bh * half + bl, 0, c, b);
    AddedCarries(h, l, a * (bh * half + bl), c, s, k, 0, s, 0, b);
    Small(h + k, b);
    c' := (h + k) % b;
    r' := s;
  }

  // ---------------------------------------------------------------- squares

  /** `(m & BN_MASK2h1) >> (BN_BITS4-1)`: the mask clears the bits below half the half-base. */
  function MiddleHigh(m: nat, half: nat): nat
    requires half >= 2
  {
    (m - m % (half / 2)) / (half / 2)
  }

  /** `(m & BN_MASK2l) << (BN_BITS4+1)`, in a word. */
  function MiddleLow(m: nat, half: nat): nat
    requires half >= 2
  {
    m % half * (2 * half) % (half * half)
  }

  lemma LowerHalfBits(m: nat, g: nat)
    requires g > 0
    ensures m % (2 * g) == m / g % 2 * g + m % g
  {
    var q, r := m / g, m % g;
    var q2, e := q / 2, q % 2;
    DivMod(m, g);
    PairUp(q2, e, g);
    DivModUnique(m, 2 * g, q2, e * g + r);
  }

  lemma PairUp(q2: nat, e: nat, g: nat)
    requires e < 2
    ensures (2 * q2 + e) * g == q2 * (2 * g) + e * g && e * g <= g
  {
    assert (2 * q2 + e) * g == 2 * q2 * g + e * g;
    assert e * g == if e == 0 then 0 else g;
  }

  lemma ShiftOutTop(e: nat, r: nat, g: nat)
    requires g > 0 && r < g
    ensures r * (4 * g) < 2 * g * (2 * g)
    ensures (e * g + r) * (4 * g) % (2 * g * (2 * g)) == r * (4 * g)
  {
    var b := 2 * g * (2 * g);
    MulMonotone(r + 1, g, 4 * g);
    assert (r + 1) * (4 * g) == r * (4 * g) + 4 * g && g * (4 * g) == b;
    assert (e * g + r) * (4 * g) == e * b + r * (4 * g) by {
      assert e * g * (4 * g) == e * b;
      assert (e * g + r) * (4 * g) == e * g * (4 * g) + r * (4 * g);
    }
    DivModUnique((e * g + r) * (4 * g), b, e, r * (4 * g));
  }

  lemma DoubleScale(q: nat, r: nat, g: nat)
    ensures q * (2 * g * (2 * g)) + r * (4 * g) == 4 * g * (q * g + r)
  {
    assert 4 * g * (q * g + r) == 4 * g * (q * g) + 4 * g * r;
    assert 4 * g * (q * g) == q * (2 * g * (2 * g));
  }

  /** The middle product, doubled and split at the top bit of its low half as sqr64 does. */
  lemma DoubledMiddle(m: nat, half: nat)
    requires half >= 2 && half % 2 == 0
    ensures MiddleHigh(m, half) * (half * half) + MiddleLow(m, half) == 2 * half * m
    ensures MiddleLow(m, half) < half * half
  {
    var g := half / 2;
    assert half == 2 * g && 2 * half == 4 * g;
    var q, r := m / g, m % g;
    DivMod(m, g);
    DivModUnique(q * g, g, q, 0);
    assert MiddleHigh(m, half) == q;
    LowerHalfBits(m, g);
    ShiftOutTop(q % 2, r, g);
    assert MiddleLow(m, half) == r * (4 * g);
    DoubleScale(q, r, g);
  }

  lemma SquareColumns(half: nat, l: nat, h: nat, top: nat, low: nat, lo: nat, k: nat)
    requires top * (half * half) + low == 2 * half * (l * h)
    requires lo + k * (half * half) == l * l + low
    ensures (h * h + top + k) * (half * half) + lo == (h * half + l) * (h * half + l)
  {
    var b := half * half;
    ExpandProduct(half, l, h, l, h);
    assert (h * l + l * h) * half == 2 * half * (l * h);
    assert (h * h + top + k) * b == h * h * b + top * b + k * b;
  }

  /** sqr64: the exact square of a word, in every word configuration. */
  method Sqr64(cfg: Config, a: nat) returns (lo: nat, hi: nat)
    requires a < cfg.Base()
    ensures hi * cfg.Base() + lo == a * a
    ensures lo < cfg.Base() && hi < cfg.Base()
  {
    var half, b := cfg.Half(), cfg.Base();
    assert half >= 2 && half % 2 == 0 && b == half * half;
    hide *;
    SplitWord(a, half);
    var l, h := a % half, a / half % half;
    HalfFits(l, h, half);
    HalfFits(l, l, half);
    HalfFits(h, h, half);
    var m := l * h % b;
    var ll := l * l % b;
    var hh := h * h % b;
    DoubledMiddle(m, half);
    var top, low := MiddleHigh(m, half), MiddleLow(m, half);
    SumAndCarry(ll, low, b);
    lo := Sum(ll, low, b);
    var k := Carry(ll, low, b);
    SquareColumns(half, l, h, top, low, lo, k);
    ghost var all := h * h + top + k;
    MulAddFits(a, a, 0, 0, b);
    HighWordFits(all, lo, b);
    Small(h * h + top, b);
    Small(all, b);
    hh := (hh + top) % b;
    hi := (hh + k) % b;
  }

  method SqrLLong(cfg: Config, a: nat) returns (lo: nat, hi: nat)
    requires a < cfg.Base()
    ensures hi * cfg.Base() + lo == a * a
    ensures lo < cfg.Base() && hi < cfg.Base()
  {
    lo, hi := UMult(cfg, a, a);
  }

  // ---------------------------------------------------------------- word arrays

  /** Value of a little-endian word array. */
  function Words(ws: seq<nat>, b: nat): nat {
    if ws == [] then 0 else ws[0] + b * Words(ws[1..], b)
  }

  function Power(b: nat, n: nat): nat {
    if n == 0 then 1 else b * Power(b, n - 1)
  }

  ghost predicate AllWords(ws: seq<nat>, b: nat) {
    forall i :: 0 <= i < |ws| ==> ws[i] < b
  }

  /** The multiply-add macro applied along an array, its carry threaded through. */
  ghost predicate Threaded(rs: seq<nat>, ws: seq<nat>, w: nat, c: nat, out: seq<nat>, c': nat, b: nat)
    requires |rs| == |ws| == |out|
  {
    if rs == [] then c' == c
    else exists mid: nat ::
      && mid < b && out[0] < b && out[0] + mid * b == ws[0] * w + rs[0] + c
      && Threaded(rs[1..], ws[1..], w, mid, out[1..], c', b)
  }

  /** Threading the carry multiplies and adds the whole numbers, in words. */
  lemma {:induction false} ThreadedValue(rs: seq<nat>, ws: seq<nat>, w: nat, c: nat, out: seq<nat>, c': nat, b: nat)
    requires |rs| == |ws| == |out| && c < b && Threaded(rs, ws, w, c, out, c', b)
    ensures Words(out, b) + c' * Power(b, |rs|) == Words(rs, b) + Words(ws, b) * w + c
    ensures AllWords(out, b) && c' < b
  {
    if rs != [] {
      var mid: nat :|
        && mid < b && out[0] < b && out[0] + mid * b == ws[0] * w + rs[0] + c
        && Threaded(rs[1..], ws[1..], w, mid, out[1..], c', b);
      ThreadedValue(rs[1..], ws[1..], w, mid, out[1..], c', b);
      assert forall i :: 0 < i < |out| ==> out[i] == out[1..][i-1];
      UnfoldWords(rs, b);
      UnfoldWords(ws, b);
      UnfoldWords(out, b);
      var p := Power(b, |rs| - 1);
      PowerStep(c', b, |rs|);
      hide *;
      ThreadStep(rs[0], Words(rs[1..], b), ws[0], Words(ws[1..], b), w, c, out[0], Words(out[1..], b), mid, c' * p, b);
    }
  }

  /** The top word counts most. */
  lemma {:induction false} WordsSnoc(ws: seq<nat>, x: nat, b: nat)
    ensures Words(ws + [x], b) == Words(ws, b) + x * Power(b, |ws|)
  {
    var all := ws + [x];
    if ws != [] {
      WordsSnoc(ws[1..], x, b);
      assert all[1..] == ws[1..] + [x];
      PowerStep(x, b, |ws|);
      var p, v := x * Power(b, |ws| - 1), Words(ws[1..], b);
      assert b * (v + p) == b * v + b * p;
    }
  }

  lemma UnfoldWords(ws: seq<nat>, b: nat)
    requires ws != []
    ensures Words(ws, b) == ws[0] + b * Words(ws[1..], b)
  {}

  lemma PowerStep(c: nat, b: nat, n: nat)
    requires n > 0
    ensures c * Power(b, n) == b * (c * Power(b, n - 1))
  {
    var p := Power(b, n - 1);
    assert Power(b, n) == b * p;
    assert c * (b * p) == b * (c * p);
  }

  lemma ThreadStep(r0: nat, r: nat, w0: nat, ws: nat, w: nat, c: nat, o0: nat, o: nat, mid: nat, top: nat, b: nat)
    requires o0 + mid * b == w0 * w + r0 + c && o + top == r + ws * w + mid
    ensures o0 + b * o + b * top == r0 + b * r + (w0 + b * ws) * w + c
  {
    assert b * (o + top) == b * o + b * top;
    assert b * (r + ws * w + mid) == b * r + b * (ws * w) + mid * b;
    assert (w0 + b * ws) * w == w0 * w + b * (ws * w) by {
      assert b * ws * w == b * (ws * w);
    }
  }
}
