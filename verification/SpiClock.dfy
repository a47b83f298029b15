/** The two-stage clock divider of the SPI controller. */
module SpiClock {
  import opened Numbers
  import opened Bytes

  /** The two layouts of the module clock register: where the power-of-two divider is written.
      It is always read back from bit 8. */
  datatype Layout = Common | Sun8iw11
  {
    function ShiftUnit(): nat { if Common? then 0x100 else 0x1_0000 }
  }

  lemma DivDiv(x: nat, a: nat, b: nat)
    requires a > 0 && b > 0
    ensures a * b > 0 && x / a / b == x / (a * b)
  {
    var q := x / a / b;
    DivMod(x, a);
    DivMod(x / a, b);
    assert a * b > 0;
    DivMod(x, a * b);
    var e := x / (a * b);
    MulMonotone(q + 1, e, a * b);
    MulMonotone(e + 1, q, a * b);
    Bracket(x, a, b);
  }

  lemma Bracket(x: nat, a: nat, b: nat)
    requires a > 0 && b > 0
    ensures x / a / b * (a * b) <= x < (x / a / b + 1) * (a * b)
  {
    var p, q := x / a, x / a / b;
    DivMod(x, a);
    DivMod(p, b);
    assert q * (a * b) == q * b * a && (q + 1) * (a * b) == (q + 1) * b * a;
    assert (q + 1) * b == q * b + b;
    MulMonotone(q * b, p, a);
    MulMonotone(p + 1, (q + 1) * b, a);
    assert (p + 1) * a == p * a + a;
  }

  /** The power `1 << n`. */
  function TwoTo(n: nat): (p: nat)
    requires n <= 3
    ensures p > 0
  {
    if n == 0 then 1 else if n == 1 then 2 else if n == 2 then 4 else 8
  }

  /** The divider chosen by sunxi_spi_clk_init. */
  datatype Divider = Divider(n: nat, m: nat)

  function Ratio(src: nat, request: nat): nat
    requires request > 0
  {
    var div := (src + request - 1) / request;
    if div == 0 then 1 else div
  }

  predicate FitsOf(d: Divider, div: nat) {
    && d.n <= 3 && 1 <= d.m <= 16
    && TwoTo(d.n) * d.m <= div < TwoTo(d.n) * (d.m + 1)
    && (d.n > 0 ==> d.m >= 8)
  }

  /** The clock register word. */
  function Word(layout: Layout, d: Divider): nat {
    0x8000_0000 + 0x100_0000 + d.n * layout.ShiftUnit() + (d.m - 1)
  }

  /** The divider pair the set-up picks for a ratio. */
  function Chosen(div: nat): Divider {
    if div > 64 then Divider(3, div / 8)
    else if div > 32 then Divider(2, div / 4)
    else if div > 16 then Divider(1, div / 2)
    else Divider(0, div)
  }

  /** It is the largest multiplier below 17 for the smallest power that allows it. */
  lemma ChosenFits(div: nat)
    requires 1 <= div <= 128
    ensures FitsOf(Chosen(div), div)
  {}

  method ClkInit(layout: Layout, src: nat, request: nat) returns (ok: bool, word: nat, ghost d: Divider)
    requires request > 0 && src + request - 1 < 0x1_0000_0000
    ensures ok <==> Ratio(src, request) <= 128
    ensures ok ==> d == Chosen(Ratio(src, request)) && FitsOf(d, Ratio(src, request)) && word == Word(layout, d)
  {
    d := Divider(0, 1);
    word := 0;
    var div := (src + request - 1) / request;
    div := if div == 0 then 1 else div;
    assert div == Ratio(src, request);
    hide Ratio, FitsOf, TwoTo;
    var n, m;
    if div > 128 {
      return false, word, d;
    } else if div > 64 {
      n := 3;
      m := div / 8;
    } else if div > 32 {
      n := 2;
      m := div / 4;
    } else if div > 16 {
      n := 1;
      m := div / 2;
    } else {
      n := 0;
      m := div;
    }
    var factor := m - 1;
    ChosenFits(div);
    word := 0x8000_0000 + 0x100_0000 + n * layout.ShiftUnit() + factor;
    d := Divider(n, m);
    ok := true;
  }

  /** The module clock the hardware makes of the divider. */
  function ModuleClock(src: nat, d: Divider): nat
    requires d.n <= 3 && d.m > 0
  {
    src / TwoTo(d.n) / d.m
  }

  /** The module clock a register word gives: bit 31 opens the gate, bits 24 to 26 select the
      source, the power is where the layout has it, and the low four bits hold the multiplier
      less one. */
  function HardwareClock(layout: Layout, src: nat, word: nat): nat {
    if word / 0x8000_0000 % 2 == 0 || word / 0x100_0000 % 8 != 1 then 0
    else src / TwoTo(word / layout.ShiftUnit() % 4) / (word % 16 + 1)
  }

  /** The word written gives the clock of the divider pair. */
  lemma WordGives(layout: Layout, src: nat, d: Divider)
    requires d.n <= 3 && 1 <= d.m <= 16
    ensures HardwareClock(layout, src, Word(layout, d)) == ModuleClock(src, d)
  {
    var word := Word(layout, d);
    assert word / 0x8000_0000 == 1 && word / 0x100_0000 % 8 == 1 && word % 16 == d.m - 1;
    assert word / layout.ShiftUnit() % 4 == d.n;
    hide *;
    SameClock(layout, src, word, d);
  }

  lemma SameClock(layout: Layout, src: nat, word: nat, d: Divider)
    requires d.n <= 3 && 1 <= d.m && word / 0x8000_0000 % 2 == 1 && word / 0x100_0000 % 8 == 1
    requires word % 16 == d.m - 1 && word / layout.ShiftUnit() % 4 == d.n
    ensures HardwareClock(layout, src, word) == ModuleClock(src, d)
  {}

  /** sunxi_get_spic_clk: the clock computed from the register read back.  For a word of the
      common layout it is the clock the hardware makes, for one of the other layout the clock
      without the power-of-two divider. */
  method GetClk(src: nat, word: nat) returns (clk: nat)
    ensures clk == ReadBack(src, word)
    ensures forall d: Divider :: d.n <= 3 && 1 <= d.m <= 16 && word == Word(Common, d) ==> clk == ModuleClock(src, d)
    ensures forall d: Divider :: d.n <= 3 && 1 <= d.m <= 16 && word == Word(Sun8iw11, d) ==> clk == src / d.m
  {
    var sel, n, m := word / 0x100_0000 % 8, word / 0x100 % 4, word % 16 + 1;
    var c := if sel == 0 then 24000000 else if sel == 1 then src else 0;
    clk := c / TwoTo(n) / m;
    assert clk == ReadBack(src, word);
    hide *;
    forall d: Divider | d.n <= 3 && 1 <= d.m <= 16
      ensures word == Word(Common, d) ==> clk == ModuleClock(src, d)
      ensures word == Word(Sun8iw11, d) ==> clk == src / d.m
    {
      ReadsBack(src, Common, d);
      ReadsBack(src, Sun8iw11, d);
    }
  }

  /** What is read back of a word written. */
  lemma ReadsBack(src: nat, layout: Layout, d: Divider)
    requires d.n <= 3 && 1 <= d.m <= 16
    ensures ReadBack(src, Word(layout, d)) == if layout.Common? then ModuleClock(src, d) else src / d.m
  {
    FieldsReadBack(layout, d);
    hide Word, TwoTo;
    NoPower(src);
  }

  lemma NoPower(src: nat)
    ensures src / TwoTo(0) == src
  {}

  function ReadBack(src: nat, word: nat): nat {
    var sel, n, m := word / 0x100_0000 % 8, word / 0x100 % 4, word % 16 + 1;
    (if sel == 0 then 24000000 else if sel == 1 then src else 0) / TwoTo(n) / m
  }

  // ---------------------------------------------------------------- second stage

  /** `clk >> k`. */
  function Halved(clk: nat, k: nat): nat {
    if k == 0 then clk else Halved(clk / 2, k - 1)
  }

  /** The bus clock a rate register gives: bit 12 selects the linear divider of the low eight
      bits, otherwise bits 8 to 11 hold the power of two. */
  function BusClock(clk: nat, reg: nat): nat {
    if reg / 0x1000 % 2 == 1 then clk / (2 * (reg % 0x100 + 1)) else Halved(clk, reg / 0x100 % 16)
  }

  /** Two registers that differ at most in bits 8 to 12. */
  predicate SameBeside(reg: nat, reg': nat) {
    reg' / 0x2000 == reg / 0x2000 && reg' % 0x100 == reg % 0x100
  }

  /** The register with an exponent written: bits 8 to 12 are cleared first, so an exponent below
      32 can be added. */
  function WithCdr1(reg: nat, k: nat): nat {
    reg / 0x2000 * 0x2000 + k * 0x100 + reg % 0x100
  }

  /** Number of halvings that bring a clock down to the request. */
  function Halvings(clk: nat, request: nat): (k: nat)
    ensures Halved(clk, k) <= request
    ensures forall j :: 0 <= j < k ==> Halved(clk, j) > request
  {
    if clk <= request then 0
    else
      var k := Halvings(clk / 2, request);
      assert forall j :: 0 < j < k + 1 ==> Halved(clk, j) == Halved(clk / 2, j - 1);
      k + 1
  }

  /** The exponent written is read by the hardware, and nothing beside it changes; from 16 on it
      spills into the selection bit. */
  lemma Cdr1Read(reg: nat, k: nat, clk: nat)
    requires k < 32
    ensures SameBeside(reg, WithCdr1(reg, k))
    ensures WithCdr1(reg, k) / 0x1000 % 2 == k / 16 && WithCdr1(reg, k) / 0x100 % 16 == k % 16
    ensures k < 16 ==> BusClock(clk, WithCdr1(reg, k)) == Halved(clk, k)
  {
    var reg' := WithCdr1(reg, k);
    PlacedBits(reg / 0x2000, k, reg % 0x100, reg');
    hide WithCdr1, Halved;
    Decoded(reg, reg', k, clk);
  }

  lemma Decoded(reg: nat, reg': nat, k: nat, clk: nat)
    requires k < 32 && reg' / 0x2000 == reg / 0x2000 && reg' % 0x100 == reg % 0x100
    requires reg' / 0x1000 % 2 == k / 16 && reg' / 0x100 % 16 == k % 16
    ensures SameBeside(reg, reg') && (k < 16 ==> BusClock(clk, reg') == Halved(clk, k))
  {
    hide Halved;
    if k < 16 {
      Small(k);
    }
  }

  lemma Small(k: nat)
    requires k < 16
    ensures k / 16 == 0 && k % 16 == k
  {}

  lemma PlacedBits(q: nat, k: nat, low: nat, reg: nat)
    requires k < 32 && low < 0x100 && reg == q * 0x2000 + k * 0x100 + low
    ensures reg / 0x2000 == q && reg % 0x100 == low && reg / 0x1000 % 2 == k / 16 && reg / 0x100 % 16 == k % 16
  {
    DivUnique(reg, 0x2000, q);
    DivUnique(reg, 0x100, q * 0x20 + k);
    DivUnique(reg, 0x1000, q * 2 + k / 16);
    DivMod(reg, 0x100);
    OneBit(q, k / 16);
    FourBits(q * 2 + k / 16, k % 16);
  }

  lemma OneBit(q: nat, h: nat)
    requires h < 2
    ensures (q * 2 + h) % 2 == h
  {}

  lemma FourBits(q: nat, h: nat)
    requires h < 16
    ensures (q * 16 + h) % 16 == h
  {}

  lemma {:induction false} FewHalvings(clk: nat, request: nat, n: nat)
    requires clk < Pow2(n) * (request + 1)
    ensures Halvings(clk, request) <= n
  {
    if clk > request {
      var p := Pow2(n - 1);
      assert Pow2(n) * (request + 1) == 2 * (p * (request + 1)) by {
        assert 2 * p * (request + 1) == 2 * (p * (request + 1));
      }
      FewHalvings(clk / 2, request, n - 1);
    }
  }

  /** spi_set_clk, the power-of-two divider: the halvings needed, unless they do not fit their
      four bits, and nothing else in the register. */
  method SetClk(request: nat, ahb: nat, reg: nat) returns (reg': nat)
    requires request > 0 && ahb < 0x1_0000_0000
    ensures SameBeside(reg, reg')
    ensures reg' / 0x1000 % 2 == 0 <==> Halvings(ahb, request) < 16
    ensures reg' / 0x100 % 16 == Halvings(ahb, request) % 16
    ensures Halvings(ahb, request) < 16 ==>
              forall clk: nat :: BusClock(clk, reg') == Halved(clk, Halvings(ahb, request))
  {
    var clk: nat, div: nat := ahb, 0;
    while clk > request
      invariant Halvings(ahb, request) == div + Halvings(clk, request)
      decreases clk
    {
      div := div + 1;
      clk := clk / 2;
    }
    reg' := WithCdr1(reg, div);
    Below32(ahb, request);
    hide WithCdr1, BusClock;
    forall c: nat ensures div < 16 ==> BusClock(c, reg') == Halved(c, div) {
      Cdr1Read(reg, div, c);
    }
    Cdr1Read(reg, div, 0);
  }

  /** Even the fastest clock needs fewer than 32 halvings. */
  lemma Below32(ahb: nat, request: nat)
    requires request > 0 && ahb < 0x1_0000_0000
    ensures Halvings(ahb, request) < 32
  {
    assert Pow2(8) == 256 && Pow2(1) == 2 by {
      assert Pow2(4) == 2 * Pow2(3) && Pow2(3) == 2 * Pow2(2) && Pow2(2) == 2 * Pow2(1) && Pow2(1) == 2 * Pow2(0);
      Pow2Sum(4, 4);
    }
    hide Pow2;
    Pow2Sum(8, 8);
    Pow2Sum(16, 16);
    Pow2Sum(1, 31);
    MulMonotone(2, request + 1, Pow2(31));
    FewHalvings(ahb, request, 31);
  }

  // ---------------------------------------------------------------- the composed divider

  lemma RatioIsCeiling(src: nat, request: nat)
    requires 0 < request <= src
    ensures (Ratio(src, request) - 1) * request < src <= Ratio(src, request) * request
  {
    var x := src + request - 1;
    DivMod(x, request);
    var q := x / request;
    assert (q - 1) * request == q * request - request;
    MulMonotone(q, 0, request);
  }

  /** What FitsOf means for the total divider of the first stage. */
  lemma DividerBounds(d: Divider, div: nat)
    requires FitsOf(d, div)
    ensures var p := TwoTo(d.n) * d.m;
      0 < p <= div && (if d.n == 0 then p == div else 8 * div < 9 * p)
  {}

  lemma NotBelowHalf(src: nat, request: nat, p: nat, div: nat, clk: nat)
    requires 0 < request <= src && 0 < p <= div
    requires (div - 1) * request < src && src < (clk + 1) * p
    ensures 2 * clk + 1 >= request
  {
    assert div * request == (div - 1) * request + request;
    MulMonotone(p, div, request);
    MulMonotone(2 * (clk + 1), request, p);
    assert 2 * (clk + 1) * p == 2 * ((clk + 1) * p);
    assert request * p == p * request;
  }

  lemma NotAbove(src: nat, request: nat, p: nat, clk: nat)
    requires 0 < p && src <= p * request && clk * p <= src
    ensures clk <= request
  {
    MulMonotone(request + 1, clk, p);
    assert (request + 1) * p == p * request + p;
  }

  lemma OvershootBelowEighth(src: nat, request: nat, p: nat, div: nat, clk: nat)
    requires 0 < request && 0 < p && src <= div * request && clk * p <= src && 8 * div < 9 * p
    ensures 8 * clk < 9 * request
  {
    MulMonotone(9 * request, 8 * clk, p);
    MulMonotone(8 * div + 1, 9 * p, request);
    Scaled(8, clk, p);
    Scaled(9, request, p);
    Scaled(9, p, request);
    Scaled(8, div, request);
    assert (8 * div + 1) * request == 8 * div * request + request;
    assert request * p == p * request;
  }

  /** The first stage alone may overshoot the request by less than an eighth; together with
      the power-of-two stage, which then halves at most once, the clock ends between half
      the request and the request. */
  lemma TwoStages(src: nat, request: nat, d: Divider)
    requires 0 < request <= src && FitsOf(d, Ratio(src, request))
    ensures 8 * ModuleClock(src, d) < 9 * request
    ensures Halvings(ModuleClock(src, d), request) <= 1
    ensures request / 2 <= Halved(ModuleClock(src, d), Halvings(ModuleClock(src, d), request)) <= request
  {
    var div, p, clk := Ratio(src, request), TwoTo(d.n) * d.m, ModuleClock(src, d);
    RatioIsCeiling(src, request);
    DividerBounds(d, div);
    Bracket(src, TwoTo(d.n), d.m);
    hide Ratio, FitsOf, ModuleClock, TwoTo;
    NotBelowHalf(src, request, p, div, clk);
    if p == div {
      NotAbove(src, request, p, clk);
    } else {
      OvershootBelowEighth(src, request, p, div, clk);
    }
    if clk > request {
      assert Halvings(clk, request) == 1 + Halvings(clk / 2, request);
      assert Halved(clk, 1) == Halved(clk / 2, 0) == clk / 2;
    }
  }

  /** The register reports the true module clock exactly when the power-of-two divider is
      written where it is read back, or is not used. */
  lemma ReadBackExact(layout: Layout, src: nat, d: Divider)
    requires d.n <= 3 && 1 <= d.m <= 16 && src >= 16
    ensures ReadBack(src, Word(layout, d)) == ModuleClock(src, d) <==> layout.Common? || d.n == 0
  {
    FieldsReadBack(layout, d);
    hide Word;
    assert TwoTo(0) == 1;
    if !layout.Common? {
      if d.n > 0 {
        DivideLess(src, TwoTo(d.n), d.m);
      }
    }
  }

  /** The register word's fields as they are read back. */
  lemma FieldsReadBack(layout: Layout, d: Divider)
    requires d.n <= 3 && 1 <= d.m <= 16
    ensures var word := Word(layout, d);
      word / 0x100_0000 % 8 == 1 && word % 16 + 1 == d.m && word / 0x100 % 4 == if layout.Common? then d.n else 0
  {
    var word := Word(layout, d);
    assert word / 0x100_0000 == 0x81;
    DivUnique(word, 0x100, 0x81_0000 + if layout.Common? then d.n else d.n * 0x100);
  }

  lemma DivideLess(src: nat, p: nat, m: nat)
    requires p >= 2 && 1 <= m <= 16 <= src
    ensures src / p / m < src / m
  {
    Bracket(src, p, m);
    DivMod(src, m);
    var q, e := src / p / m, src / m;
    if q >= e {
      MulMonotone(2 * m, p * m, q);
      MulMonotone(2, p, m);
      assert q * (p * m) >= q * (2 * m);
      assert q * (2 * m) == 2 * (q * m);
      MulMonotone(e, q, m);
      assert e >= 1;
      MulMonotone(1, e, m);
      assert false;
    }
  }

  // ---------------------------------------------------------------- the window, on both layouts

  /** Between half the request and the request. */
  predicate InWindow(request: nat, clk: nat) {
    request / 2 <= clk <= request
  }

  /** What the hardware runs at after set-up and claim: both stages, the second sized by the
      clock read back. */
  function FinalClock(layout: Layout, src: nat, request: nat): nat
    requires 0 < request && 1 <= Ratio(src, request) <= 128
  {
    ChosenFits(Ratio(src, request));
    var d := Chosen(Ratio(src, request));
    Halved(ModuleClock(src, d), Halvings(ReadBack(src, Word(layout, d)), request))
  }

  /** Requests whose clock survives the lost power-of-two divider: those that need none, those
      of 1 Hz, and those halved once whose wrongly read clock is just about twice the request. */
  predicate Survives(src: nat, request: nat)
    requires request > 0
  {
    var div := Ratio(src, request);
    div <= 16 || request == 1 || (div <= 32 && 4 * (request / 2) <= src / (div / 2) <= 2 * request + 1)
  }

  /** For every source and request within the divider's reach, the final clock is in the
      window exactly on the common layout, or when the request survives. */
  lemma WindowExactly(layout: Layout, src: nat, request: nat)
    requires 0 < request <= src && Ratio(src, request) <= 128
    ensures InWindow(request, FinalClock(layout, src, request)) <==> layout.Common? || Survives(src, request)
  {
    var div := Ratio(src, request);
    assert div >= 1;
    ChosenFits(div);
    var d := Chosen(div);
    FieldsReadBack(layout, d);
    NoPower(src);
    if layout.Common? || d.n == 0 {
      TwoStages(src, request, d);
    } else {
      RatioIsCeiling(src, request);
      LostPower(src, request, d.n, d.m, div);
      Rehalved(src, d.n, d.m);
    }
  }

  /** The true clock is the one read back, halved. */
  lemma Rehalved(src: nat, n: nat, m: nat)
    requires n <= 3 && m > 0
    ensures src / TwoTo(n) / m == Halved(src / m, n)
  {
    var p := TwoTo(n);
    DivDiv(src, p, m);
    DivDiv(src, m, p);
    assert p * m == m * p;
    HalvedIsDivided(src / m, n);
  }

  lemma HalvedIsDivided(x: nat, n: nat)
    requires n <= 3
    ensures Halved(x, n) == x / TwoTo(n)
  {
    assert Halved(x, 1) == Halved(x / 2, 0) == x / 2;
    assert Halved(x, 2) == Halved(x / 2, 1) == Halved(x / 2 / 2, 0);
    assert Halved(x, 3) == Halved(x / 2, 2) == Halved(x / 2 / 2, 1) == Halved(x / 2 / 2 / 2, 0);
  }

  lemma {:induction false} HalvedAgain(x: nat, j: nat, k: nat)
    ensures Halved(Halved(x, j), k) == Halved(x, j + k)
  {
    if j > 0 {
      HalvedAgain(x / 2, j - 1, k);
    }
  }

  lemma {:induction false} HalvedFalls(x: nat, j: nat, k: nat)
    ensures Halved(x, j + k) <= Halved(x, j)
  {
    if j > 0 {
      HalvedFalls(x / 2, j - 1, k);
    } else if k > 0 {
      HalvedFalls(x / 2, 0, k - 1);
    }
  }

  /** Halving `b` down to the request and then `n` times more, where `b` is `2^n` times the
      request up to the rounding of the ratio. */
  lemma LostPower(src: nat, request: nat, n: nat, m: nat, div: nat)
    requires 1 <= n <= 3 && 8 <= m <= 16 && TwoTo(n) * m <= div < TwoTo(n) * (m + 1)
    requires 0 < request && (div - 1) * request < src <= div * request
    ensures InWindow(request, Halved(Halved(src / m, n), Halvings(src / m, request)))
      <==> request == 1 || (n == 1 && 4 * (request / 2) <= src / m <= 2 * request + 1)
  {
    var b, r := src / m, request;
    DivMod(src, m);
    BackUpper(src, r, n, m, div, b);
    BackLower(src, r, n, m, div, b);
    LostHalvings(b, r, n);
  }

  lemma LostHalvings(b: nat, r: nat, n: nat)
    requires 1 <= n <= 3 && r > 0 && 8 * b <= (9 * TwoTo(n) - 1) * r && b / TwoTo(n - 1) > r
    ensures InWindow(r, Halved(Halved(b, n), Halvings(b, r)))
      <==> r == 1 || (n == 1 && 4 * (r / 2) <= b <= 2 * r + 1)
  {
    var k := Halvings(b, r);
    AtLeast(b, r, n, k);
    HalvedAgain(b, n, k);
    HalvedAgain(b, k, n);
    HalvedFalls(b, k, n);
    hide Halvings;
    if n == 1 {
      OneLost(b, r, k);
    } else {
      ManyLost(b, r, n, k);
    }
  }

  lemma AtLeast(b: nat, r: nat, n: nat, k: nat)
    requires 1 <= n <= 3 && b / TwoTo(n - 1) > r && Halved(b, k) <= r
    ensures k >= n
  {
    HalvedIsDivided(b, n - 1);
    if k < n {
      HalvedFalls(b, k, n - 1 - k);
      assert false;
    }
  }

  lemma ManyLost(b: nat, r: nat, n: nat, k: nat)
    requires 2 <= n <= 3 && r > 0 && 8 * b <= (9 * TwoTo(n) - 1) * r && k >= n
    ensures r > 1 ==> Halved(b, n + k) < r / 2
  {
    HalvedFalls(b, 2 * n, k - n);
    HalvedAgain(b, n, n);
    HalvedIsDivided(b, n);
    HalvedIsDivided(b / TwoTo(n), n);
  }

  lemma OneLost(b: nat, r: nat, k: nat)
    requires r > 0 && r < b && 8 * b <= 17 * r && k == Halvings(b, r) && k >= 1
    ensures InWindow(r, Halved(b, k + 1)) <==> r == 1 || 4 * (r / 2) <= b <= 2 * r + 1
  {
    HalvedIsDivided(b, 1);
    HalvedIsDivided(b, 2);
    HalvedIsDivided(b, 3);
    hide Halved, Halvings;
    HalvingsAre(b, r, if b <= 2 * r + 1 then 1 else 2);
  }

  /** The halvings are known where the clock crosses the request. */
  lemma HalvingsAre(b: nat, r: nat, n: nat)
    requires n > 0 && Halved(b, n) <= r < Halved(b, n - 1)
    ensures Halvings(b, r) == n
  {
    var k := Halvings(b, r);
    if k < n {
      HalvedFalls(b, k, n - 1 - k);
    }
  }

  /** The clock read back is at most `2^n + (2^n - 1) / 8` times the request. */
  lemma BackUpper(src: nat, r: nat, n: nat, m: nat, div: nat, b: nat)
    requires 1 <= n <= 3 && 8 <= m && div < TwoTo(n) * (m + 1) && src <= div * r && b * m <= src
    ensures 8 * b <= (9 * TwoTo(n) - 1) * r
  {
    var p := TwoTo(n);
    assert p >= 2 && p * (m + 1) == p * m + p;
    hide TwoTo;
    MulMonotone(div, p * m + p - 1, r);
    Eighths(p, m);
    MulMonotone(8 * (p * m + p - 1), (9 * p - 1) * m, r);
    Scaled(8, p * m + p - 1, r);
    Cancel(8 * b, 9 * p - 1, r, m);
  }

  lemma Eighths(p: nat, m: nat)
    requires p >= 1 && m >= 8
    ensures 8 * (p * m + p - 1) <= (9 * p - 1) * m
  {
    MulMonotone(8, m, p - 1);
    assert (p - 1) * m == p * m - m && (9 * p - 1) * m == 9 * (p * m) - m;
  }

  lemma Scaled(k: nat, x: nat, y: nat)
    ensures k * (x * y) == k * x * y
  {}

  lemma Cancel(x: nat, k: nat, r: nat, m: nat)
    requires m > 0 && x * m <= k * m * r
    ensures x <= k * r
  {
    assert k * m * r == k * r * m;
    MulMonotone(k * r + 1, x, m);
    assert (k * r + 1) * m == k * r * m + m;
  }

  /** Halved one time too few it is still above the request. */
  lemma BackLower(src: nat, r: nat, n: nat, m: nat, div: nat, b: nat)
    requires 1 <= n <= 3 && 8 <= m && TwoTo(n) * m <= div && 0 < r && (div - 1) * r < src <= div * r
        && src < (b + 1) * m
    ensures b / TwoTo(n - 1) > r
  {
    var h := TwoTo(n - 1);
    assert TwoTo(n) == 2 * h;
    if b / h <= r {
      DivMod(b, h);
      MulMonotone(b / h, r, h);
      assert b + 1 <= (r + 1) * h;
      MulMonotone(b + 1, (r + 1) * h, m);
      MulMonotone(2 * h * m - 1, div - 1, r);
      Overtaken(h, r, m);
      assert false;
    }
  }

  lemma Overtaken(h: nat, r: nat, m: nat)
    requires h >= 1 && r >= 1 && m >= 8
    ensures (2 * h * m - 1) * r + 1 > (r + 1) * h * m || r == 1
  {
    var q := h * m;
    MulMonotone(1, h, m);
    Scaled(2, h, m);
    Scaled(r + 1, h, m);
    Compared(q, r);
  }

  lemma Compared(q: nat, r: nat)
    requires q >= 8 && r >= 1
    ensures (2 * q - 1) * r + 1 > (r + 1) * q || r == 1
  {
    assert (2 * q - 1) * r == 2 * (q * r) - r && (r + 1) * q == q * r + q;
    MulMonotone(2, r, q - 1);
    assert r * (q - 1) == q * r - r;
  }

  /** Clock set-up and bus claim, on either layout: what the hardware makes of the two registers
      written is in the window exactly on the common layout, or when the request survives. */
  method Configure(layout: Layout, src: nat, request: nat, reg: nat) returns (ok: bool, word: nat, reg': nat)
    requires 0 < request <= src && src + request - 1 < 0x1_0000_0000
    ensures ok <==> Ratio(src, request) <= 128
    ensures SameBeside(reg, reg') && (!ok ==> reg' == reg)
    ensures ok ==> BusClock(HardwareClock(layout, src, word), reg') == FinalClock(layout, src, request)
    ensures ok ==> (InWindow(request, BusClock(HardwareClock(layout, src, word), reg')) <==>
                    layout.Common? || Survives(src, request))
  {
    reg' := reg;
    ghost var d;
    ok, word, d := ClkInit(layout, src, request);
    if ok {
      var sclk := GetClk(src, word);
      assert sclk == ReadBack(src, word);
      BackFits(src, layout, d);
      reg' := SetClk(request, sclk, reg);
      WordGives(layout, src, d);
      FinalHalvings(layout, src, request);
      WindowExactly(layout, src, request);
    }
  }

  /** The second stage never needs all its bits. */
  lemma FinalHalvings(layout: Layout, src: nat, request: nat)
    requires 0 < request <= src && Ratio(src, request) <= 128
    ensures Ratio(src, request) >= 1
    ensures Halvings(ReadBack(src, Word(layout, Chosen(Ratio(src, request)))), request) < 16
  {
    var div := Ratio(src, request);
    ChosenFits(div);
    var d := Chosen(div);
    RatioIsCeiling(src, request);
    ReadsBack(src, layout, d);
    BackSmall(src, request, div, ReadBack(src, Word(layout, d)), layout, d);
  }

  lemma BackFits(src: nat, layout: Layout, d: Divider)
    requires d.n <= 3 && 1 <= d.m <= 16
    ensures ReadBack(src, Word(layout, d)) <= src
  {
    ReadsBack(src, layout, d);
    if layout.Common? {
      hide TwoTo;
      DividedTwice(src, TwoTo(d.n), d.m);
    } else {
      DividedTwice(src, 1, d.m);
    }
  }

  lemma DividedTwice(x: nat, a: nat, b: nat)
    requires a > 0 && b > 0
    ensures x / a / b <= x && x / 1 == x
  {
    DivMod(x, a);
    DivMod(x / a, b);
    MulMonotone(1, a, x / a);
    MulMonotone(1, b, x / a / b);
  }

  /** The clock read back is less than sixteen times the request. */
  lemma BackSmall(src: nat, request: nat, div: nat, back: nat, layout: Layout, d: Divider)
    requires 0 < request <= src && div == Ratio(src, request) && FitsOf(d, div)
    requires (div - 1) * request < src <= div * request
    requires back == if layout.Common? then ModuleClock(src, d) else src / d.m
    ensures Halvings(back, request) < 16
  {
    if layout.Common? || d.n == 0 {
      NoPower(src);
      TwoStages(src, request, d);
    } else {
      DivMod(src, d.m);
      BackUpper(src, request, d.n, d.m, div, back);
      assert 8 * back <= 71 * request by {
        MulMonotone(9 * TwoTo(d.n) - 1, 71, request);
      }
    }
    assert back < 16 * request;
    FourSuffice(back, request);
  }

  lemma FourSuffice(b: nat, r: nat)
    requires r > 0 && b < 16 * r
    ensures Halvings(b, r) <= 4
  {
    assert Pow2(4) == 2 * Pow2(3) && Pow2(3) == 2 * Pow2(2) && Pow2(2) == 2 * Pow2(1) && Pow2(1) == 2 * Pow2(0);
    FewHalvings(b, r, 4);
  }
}
