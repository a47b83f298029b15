/** Numbers of many words: shifting in place, and division by a word. */
module BigNumbers {
  import opened Numbers
  import opened Bytes
  import opened BigNumWords
  import opened BigNumDivision

  // ---------------------------------------------------------------- word sequences

  lemma PrependWord(x: nat, ws: seq<nat>, b: nat)
    ensures Words([x] + ws, b) == x + b * Words(ws, b)
  {
    assert ([x] + ws)[1..] == ws;
  }

  lemma TopZero(ws: seq<nat>, b: nat)
    requires ws != [] && ws[|ws| - 1] == 0
    ensures Words(ws[..|ws| - 1], b) == Words(ws, b)
  {
    WordsSnoc(ws[..|ws| - 1], 0, b);
    assert ws[..|ws| - 1] + [0] == ws;
  }

  lemma {:induction false} NonZeroWords(ws: seq<nat>, b: nat)
    requires b > 0 && (ws == [] || ws[|ws| - 1] != 0)
    ensures Words(ws, b) == 0 <==> ws == []
  {
    if |ws| > 1 {
      NonZeroWords(ws[1..], b);
      MulMonotone(1, Words(ws[1..], b), b);
    }
  }

  /** Whole words of zeros at the bottom. */
  lemma {:induction false} ZerosBelow(n: nat, ws: seq<nat>, b: nat)
    ensures Words(seq(n, _ => 0) + ws, b) == Words(ws, b) * Power(b, n)
  {
    var all := seq(n, _ => 0) + ws;
    if n == 0 {
      assert all == ws;
    } else {
      ZerosBelow(n - 1, ws, b);
      assert all[1..] == seq(n - 1, _ => 0) + ws;
      PowerStep(Words(ws, b), b, n);
    }
  }

  lemma {:induction false} PowerIsPow2(cfg: Config, n: nat)
    ensures Power(cfg.Base(), n) == Pow2(n * Bits(cfg))
  {
    if n > 0 {
      PowerIsPow2(cfg, n - 1);
      WordIsPower(cfg);
      assert n * Bits(cfg) == Bits(cfg) + (n - 1) * Bits(cfg);
      Pow2Sum(Bits(cfg), (n - 1) * Bits(cfg));
    }
  }

  // ---------------------------------------------------------------- one word of a shift

  /** What has been shifted so far: `p` times the words, and room at the bottom. */
  ghost predicate Raised(out: seq<nat>, ws: seq<nat>, p: nat, b: nat)
    requires p > 0
  {
    out != [] && AllWords(out, b) && Words(out, b) == Words(ws, b) * p && out[0] % p == 0
  }

  /** A word's bits split into `r` upper and `p` lower ones. */
  ghost predicate Splits(b: nat, p: nat, r: nat) {
    p > 0 && r > 0 && b == r * p
  }

  /** `(l<<lb)&BN_MASK2` */
  function LowShift(l: nat, p: nat, b: nat): nat
    requires b > 0
  {
    Wrap(l * p, b)
  }

  /** The word `l` is shifted in below: its upper bits go into the lowest word so far, its lower
      bits below that. */
  lemma ShiftIn(out: seq<nat>, ws: seq<nat>, l: nat, p: nat, r: nat, b: nat, low: nat)
    requires Splits(b, p, r) && 0 < b && l < b && Raised(out, ws, p, b) && low == LowShift(l, p, b)
    ensures Raised([low, out[0] + Shifted(l, r)] + out[1..], [l] + ws, p, b)
  {
    DivMod(l, r);
    var u, v, x := l / r, l % r, out[0] + l / r;
    UpperShare(b, p, r, u, v);
    ShiftedLow(b, p, r, l, u, v);
    AddBelow(out[0], u, p, r, b);
    MultipleOf(v, p);
    var rest := [x] + out[1..];
    assert [low, x] + out[1..] == [low] + rest;
    PrependWord(low, rest, b);
    PrependWord(x, out[1..], b);
    PrependWord(out[0], out[1..], b);
    assert out == [out[0]] + out[1..];
    PrependWord(l, ws, b);
    var all := [low] + rest;
    assert AllWords(all, b) by {
      assert forall i :: 2 <= i < |all| ==> all[i] == out[i-1];
    }
    ShiftInValue(out[0], Words(out[1..], b), Words(ws, b), l, u, v * p, p, b);
  }

  /** Bits go where there were none. */
  lemma AddBelow(x: nat, u: nat, p: nat, r: nat, b: nat)
    requires p > 0 && b == r * p && x < b && x % p == 0 && u < p
    ensures x + u < b
  {
    DivMod(x, p);
    MulMonotone(r, x / p, p);
    MulMonotone(x / p + 1, r, p);
    assert (x / p + 1) * p == x / p * p + p;
  }

  lemma ShiftInValue(x: nat, rest: nat, ws: nat, l: nat, u: nat, low: nat, p: nat, b: nat)
    requires x + b * rest == ws * p && l * p == u * b + low
    ensures low + b * (x + u + b * rest) == (l + b * ws) * p
  {
    assert b * (x + b * rest) == b * (ws * p);
    assert b * (x + u + b * rest) == b * (x + b * rest) + b * u;
    assert (l + b * ws) * p == l * p + b * ws * p && b * ws * p == b * (ws * p);
  }

  // ---------------------------------------------------------------- one word of a division

  /** Quotient and remainder. */
  ghost predicate QuotRem(a: nat, q: nat, w: nat, rem: nat) {
    a == q * w + rem && rem < w
  }

  /** The words so far, divided. */
  ghost predicate Divided(ws: seq<nat>, qs: seq<nat>, w: nat, rem: nat, b: nat) {
    |ws| == |qs| && AllWords(qs, b) && QuotRem(Words(ws, b), Words(qs, b), w, rem)
  }

  /** `(l-((d*w)&BN_MASK2))&BN_MASK2` */
  function RestWord(l: nat, q: nat, w: nat, b: nat): nat
    requires b > 0
  {
    Wrap(l - Wrap(q * w, b), b)
  }

  /** It is the remainder of the two words. */
  lemma RestIsRemainder(h: nat, l: nat, w: nat, q: nat, b: nat)
    requires 0 < b && w < b && Divides(b, h, l, w, q)
    ensures QuotRem(h * b + l, q, w, RestWord(l, q, w, b))
  {
    var rem := h * b + l - q * w;
    assert (q + 1) * w == q * w + w;
    var e, f := q * w / b, q * w % b;
    DivMod(q * w, b);
    assert (e - h) * b == e * b - h * b;
    assert l - f == rem + (e - h) * b;
    hide *;
    ModShift(rem, e - h, b);
    RestUnfolds(l, q, w, b, f, rem);
  }

  lemma RestUnfolds(l: nat, q: nat, w: nat, b: nat, f: nat, rem: nat)
    requires b > 0 && f == q * w % b && (l - f) % b == rem
    ensures RestWord(l, q, w, b) == rem
  {}

  lemma ModShift(r: nat, k: int, b: nat)
    requires r < b
    ensures (r + k * b) % b == r
  {
    var x := r + k * b;
    var q, s := x / b, x % b;
    assert x == q * b + s;
    MulMonotone(q + 1, k, b);
    MulMonotone(k + 1, q, b);
    assert (q + 1) * b == q * b + b && (k + 1) * b == k * b + b;
  }

  lemma DivideIn(ws: seq<nat>, qs: seq<nat>, w: nat, rem: nat, b: nat, l: nat, q: nat, rem': nat)
    requires Divided(ws, qs, w, rem, b) && q < b && QuotRem(rem * b + l, q, w, rem')
    ensures Divided([l] + ws, [q] + qs, w, rem', b)
  {
    PrependWord(l, ws, b);
    PrependWord(q, qs, b);
    assert forall i :: 0 < i < |[q] + qs| ==> ([q] + qs)[i] == qs[i-1];
    var x, y := Words(ws, b), Words(qs, b);
    hide *;
    DivideInValue(x, y, w, rem, b, l, q, rem');
  }

  lemma DivideInValue(x: nat, y: nat, w: nat, rem: nat, b: nat, l: nat, q: nat, rem': nat)
    requires x == y * w + rem && rem * b + l == q * w + rem'
    ensures l + b * x == (q + b * y) * w + rem'
  {
    assert b * (y * w + rem) == b * (y * w) + rem * b;
    assert (q + b * y) * w == q * w + b * y * w && b * y * w == b * (y * w);
  }

  /** Undoing the shift of dividend and divisor. */
  lemma UndoShift(a: nat, q: nat, w: nat, p: nat, div: nat, rem: nat)
    requires p > 0 && div == w * p && QuotRem(a * p, q, div, rem)
    ensures QuotRem(a, q, w, Shifted(rem, p))
  {
    var y := q * w;
    assert q * (w * p) == y * p;
    assert a * p == y * p + rem && rem < w * p;
    hide *;
    MulMonotone(a + 1, y, p);
    assert (a + 1) * p == a * p + p;
    Remaining(a, y, w, p, rem);
    RemUnfolds(a, q, w, Shifted(rem, p), y);
  }

  lemma Remaining(a: nat, y: nat, w: nat, p: nat, rem: nat)
    requires p > 0 && y <= a && a * p == y * p + rem && rem < w * p
    ensures Shifted(rem, p) == a - y < w
  {
    var x := a - y;
    assert (x + y) * p == x * p + y * p;
    MulMonotone(w, x, p);
    DivModUnique(rem, p, x, 0);
  }

  lemma RemUnfolds(a: nat, q: nat, w: nat, rem: nat, y: nat)
    requires y == q * w && y <= a && rem == a - y < w
    ensures QuotRem(a, q, w, rem)
  {}

  // ---------------------------------------------------------------- the numbers

  /** The words below `top` moved up by `nw` words and `lb` bits, and the room they leave cleared. */
  method MoveUp(cfg: Config, t0: seq<nat>, top: nat, nw: nat, lb: nat) returns (t: seq<nat>)
    requires top + nw < |t0| && t0[top + nw] == 0 && AllWords(t0[..top], cfg.Base()) && lb < Bits(cfg)
    ensures |t| == |t0| && t[..nw] == seq(nw, _ => 0) && AllWords(t[..nw + top + 1], cfg.Base())
    ensures Words(t[nw..nw + top + 1], cfg.Base()) == Words(t0[..top], cfg.Base()) * Pow2(lb)
  {
    if lb == 0 {
      t := MoveWords(t0, top, nw, cfg.Base());
      assert Pow2(0) == 1;
    } else {
      t := MoveBits(cfg, t0, top, nw, lb);
    }
    hide *;
    ClearedBelow(t, nw, nw + top + 1, cfg.Base());
    t := seq(nw, _ => 0) + t[nw..];
  }

  lemma ClearedBelow(t: seq<nat>, nw: nat, m: nat, b: nat)
    requires nw <= m <= |t| && AllWords(t[nw..m], b) && b > 0
    ensures
      var after := seq(nw, _ => 0) + t[nw..];
      && |after| == |t| && after[..nw] == seq(nw, _ => 0)
      && after[nw..m] == t[nw..m] && AllWords(after[..m], b)
  {
    var after := seq(nw, _ => 0) + t[nw..];
    forall i | 0 <= i < m ensures after[..m][i] < b {
      if i >= nw {
        assert after[i] == t[nw..m][i - nw];
      }
    }
  }

  /** The loop for whole words. */
  method MoveWords(t0: seq<nat>, top: nat, nw: nat, b: nat) returns (t: seq<nat>)
    requires top + nw < |t0| && t0[top + nw] == 0 && b > 0 && AllWords(t0[..top], b)
    ensures |t| == |t0| && AllWords(t[nw..nw + top + 1], b)
    ensures Words(t[nw..nw + top + 1], b) == Words(t0[..top], b)
  {
    t := t0;
    var i := top;
    while i > 0
      invariant 0 <= i <= top && |t| == |t0| && t[top + nw] == 0
      invariant forall k :: 0 <= k < i ==> t[k] == t0[k]
      invariant forall k :: i <= k < top ==> t[nw + k] == t0[k]
    {
      i := i - 1;
      t := t[nw + i := t[i]];
    }
    assert t[nw..nw + top + 1] == t0[..top] + [0];
    hide Words;
    WordsSnoc(t0[..top], 0, b);
  }

  /** The loop for less than a word. */
  method MoveBits(cfg: Config, t0: seq<nat>, top: nat, nw: nat, lb: nat) returns (t: seq<nat>)
    requires top + nw < |t0| && t0[top + nw] == 0 && AllWords(t0[..top], cfg.Base()) && 0 < lb < Bits(cfg)
    ensures |t| == |t0| && AllWords(t[nw..nw + top + 1], cfg.Base())
    ensures Words(t[nw..nw + top + 1], cfg.Base()) == Words(t0[..top], cfg.Base()) * Pow2(lb)
  {
    var b, p, r := cfg.Base(), Pow2(lb), Pow2(Bits(cfg) - lb);
    ghost var ws := t0[..top];
    BitsSplit(cfg, lb);
    StartMove(t0, ws, nw, p, b);
    hide Pow2, Words;
    t := t0;
    var i := top;
    while i > 0
      invariant 0 <= i <= top && |t| == |t0| && MovedFrom(t, ws, i, nw, p, b)
    {
      hide *;
      i := i - 1;
      var l := t[i];
      ghost var was := t;
      var low: nat, high: nat := LowShift(l, p, b), t[nw + i + 1] + Shifted(l, r);
      t := t[nw + i + 1 := high];
      t := t[nw + i := low];
      MoveOne(was, ws, i, nw, p, r, b, high, low);
    }
    MovedAll(t, ws, nw, p, b);
  }

  class BigNum {
    const cfg: Config
    var d: seq<nat>
    var top: nat
    var neg: bool

    /** A duplicate, with no room to spare. */
    constructor (a: BigNum)
      requires a.Valid()
      ensures Valid() && cfg == a.cfg && neg == a.neg && top == a.top && d == a.d[..a.top]
          && Magnitude() == a.Magnitude()
    {
      cfg, neg, top, d := a.cfg, a.neg, a.top, a.d[..a.top];
      new;
      assert d[..top] == a.d[..a.top];
    }

    ghost predicate Valid()
      reads this
    {
      top <= |d| && AllWords(d[..top], cfg.Base())
    }

    /** bn_check_top: no zero word on top. */
    predicate Canonical()
      reads this
    {
      top <= |d| && (top > 0 ==> d[top - 1] != 0)
    }

    ghost function Magnitude(): nat
      requires top <= |d|
      reads this
    {
      Words(d[..top], cfg.Base())
    }

    /** BN_is_zero looks at `top` alone. */
    lemma Zero()
      requires Valid() && Canonical()
      ensures top == 0 <==> Magnitude() == 0
    {
      NonZeroWords(d[..top], cfg.Base());
    }

    /** bn_correct_top. */
    method CorrectTop()
      requires Valid()
      modifies `top
      ensures Valid() && Canonical() && Magnitude() == old(Magnitude()) && top <= old(top)
    {
      while top > 0 && d[top - 1] == 0
        invariant Valid() && Magnitude() == old(Magnitude()) && top <= old(top)
      {
        TopZero(d[..top], cfg.Base());
        assert d[..top][..top - 1] == d[..top - 1];
        top := top - 1;
      }
    }

    /** bn_wexpand: the words in use are copied to a larger array, if there is memory. */
    method Expand(words: nat, memory: bool) returns (ok: bool)
      requires top <= |d|
      modifies `d
      ensures ok == (words <= |old(d)| || memory)
      ensures top <= |d| && d[..top] == old(d[..top]) && (ok ==> |d| >= words) && (!ok ==> d == old(d))
    {
      if words <= |d| {
        return true;
      }
      if !memory {
        return false;
      }
      var garbage: seq<nat> := *;
      if |garbage| != words {
        garbage := seq(words, _ => 0);
      }
      d := d[..top] + garbage[top..];
      ok := true;
    }

    /** BN_lshift onto itself: the words move up from the top, so none is overwritten before it
        is read. */
    method LShift(n: nat, memory: bool) returns (ok: bool)
      requires Valid()
      modifies `d, `top
      ensures ok == (memory || old(top) + n / Bits(cfg) + 1 <= |old(d)|)
      ensures Valid() && (!ok ==> d == old(d) && top == old(top))
      ensures ok ==> Canonical() && Magnitude() == old(Magnitude()) * Pow2(n)
    {
      ghost var ws := d[..top];
      var nw, lb := n / Bits(cfg), n % Bits(cfg);
      ok := Expand(top + nw + 1, memory);
      if !ok {
        return;
      }
      d := MoveUp(cfg, d[top + nw := 0], top, nw, lb);
      ShiftTotal(cfg, n, ws, d[nw..nw + top + 1], d[..nw + top + 1]);
      top := top + nw + 1;
      hide Words, Pow2;
      CorrectTop();
    }

    /** BN_div_word: divides in place and returns the remainder; a zero divisor and a lack of
        memory return the highest word and change nothing. */
    method DivWord(w0: nat, memory: bool) returns (ret: nat, ghost ok: bool)
      requires Valid()
      modifies `d, `top
      ensures ok == (w0 % cfg.Base() > 0 && (memory || old(top) == 0 || old(top) + 1 <= |old(d)|))
      ensures Valid() && (!ok ==> ret == cfg.Base() - 1 && d == old(d) && top == old(top))
      ensures ok ==> QuotRem(old(Magnitude()), Magnitude(), w0 % cfg.Base(), ret)
      ensures ok && old(top) > 0 ==> Canonical()
    {
      var b := cfg.Base();
      var w := w0 % b;
      if w == 0 {
        return b - 1, false;
      }
      if top == 0 {
        return 0, true;
      }
      ghost var a := Magnitude();
      var n := NumBitsWord(cfg, w);
      var j := Bits(cfg) - n;
      var p := Pow2(j);
      TopBitSet(cfg, w, n, p, Pow2(n));
      DivisorFits(b, w, p, Pow2(n));
      hide Pow2, Words, QuotRem, AllWords, HasBits;
      var done := LShift(j, memory);
      if !done {
        return b - 1, false;
      }
      var div := LowShift(w, p, b);
      ghost var m := Magnitude();
      ret := DivLoop(div);
      UndoShift(a, Magnitude(), w, p, div, ret);
      ret := Shifted(ret, p);
      ok := true;
    }

    /** The loop over the words, from the top, and the one zero word it may leave there. */
    method DivLoop(w: nat) returns (ret: nat)
      requires Valid() && Canonical() && 0 < w < cfg.Base()
      modifies `d, `top
      ensures Valid() && Canonical() && QuotRem(old(Magnitude()), Magnitude(), w, ret)
    {
      ghost var ws := d[..top];
      ret := QuotientLoop(w, ws);
      if top > 0 && d[top - 1] == 0 {
        TopZero(d[..top], cfg.Base());
        assert d[..top][..top - 1] == d[..top - 1];
        top := top - 1;
      }
    }

    method QuotientLoop(w: nat, ghost ws: seq<nat>) returns (ret: nat)
      requires top <= |d| && ws == d[..top] && AllWords(ws, cfg.Base()) && 0 < w < cfg.Base()
      requires top > 0 ==> d[top - 1] != 0
      modifies `d
      ensures top <= |d| && Divided(ws, d[..top], w, ret, cfg.Base())
      ensures top > 1 && d[top - 1] == 0 ==> d[top - 2] != 0
    {
      var b := cfg.Base();
      var t: seq<nat>, i := d, top;
      ret := 0;
      StartDivision(t, ws, w, b);
      while i > 0
        invariant 0 <= i <= top && |t| == |old(d)| && ret < w && DividedFrom(t, ws, i, w, ret, b)
      {
        hide *;
        i := i - 1;
        var l := t[i];
        WordAt(t, ws, i, w, ret, b);
        var q := DivWords(cfg, ret, l, w);
        DivideOne(t, ws, i, w, ret, b, q);
        ret := RestWord(l, q, w, b);
        t := t[i := q];
      }
      DivisionDone(t, ws, w, ret, b);
      d := t;
    }
  }

  /** The words from `i` on are divided, those below not yet; at the top there is a quotient word
      that is not zero, or a remainder that will make the next one so. */
  ghost predicate DividedFrom(t: seq<nat>, ws: seq<nat>, i: nat, w: nat, rem: nat, b: nat) {
    var n := |ws|;
    && i <= n <= |t| && t[..i] == ws[..i] && AllWords(ws, b) && (n > 0 ==> ws[n - 1] != 0)
    && Divided(ws[i..], t[i..n], w, rem, b)
    && (i == n ==> rem == 0)
    && (i + 1 == n ==> t[n - 1] != 0 || rem > 0)
    && (i + 1 < n ==> t[n - 1] != 0 || t[n - 2] != 0)
  }

  lemma StartDivision(t: seq<nat>, ws: seq<nat>, w: nat, b: nat)
    requires |ws| <= |t| && t[..|ws|] == ws && AllWords(ws, b) && (ws != [] ==> ws[|ws| - 1] != 0) && w > 0
    ensures DividedFrom(t, ws, |ws|, w, 0, b)
  {
    assert ws[..|ws|] == ws;
    NothingDivided(ws[|ws|..], t[|ws|..|ws|], w, b);
  }

  lemma WordAt(t: seq<nat>, ws: seq<nat>, i: nat, w: nat, rem: nat, b: nat)
    requires i < |ws| && DividedFrom(t, ws, i + 1, w, rem, b)
    ensures i < |t| && t[i] < b
  {
    assert t[..i+1][i] == ws[..i+1][i];
  }

  lemma DivideOne(t: seq<nat>, ws: seq<nat>, i: nat, w: nat, rem: nat, b: nat, q: nat)
    requires i < |ws| && DividedFrom(t, ws, i + 1, w, rem, b) && 0 < w < b && q < b && Divides(b, rem, t[i], w, q)
    ensures DividedFrom(t[i := q], ws, i, w, RestWord(t[i], q, w, b), b) && RestWord(t[i], q, w, b) < w
  {
    hide Divided, Divides, QuotRem, RestWord, AllWords;
    var l, n := t[i], |ws|;
    assert l == t[..i+1][i] == ws[i] && [l] + ws[i+1..] == ws[i..];
    RestIsRemainder(rem, l, w, q, b);
    DivideIn(ws[i+1..], t[i+1..n], w, rem, b, l, q, RestWord(l, q, w, b));
    SomeQuotient(b, rem, l, w, q, RestWord(l, q, w, b));
    assert [q] + t[i+1..n] == t[i := q][i..n];
    assert t[i := q][..i] == t[..i+1][..i] == ws[..i+1][..i] == ws[..i];
  }

  lemma DivisionDone(t: seq<nat>, ws: seq<nat>, w: nat, rem: nat, b: nat)
    requires DividedFrom(t, ws, 0, w, rem, b)
    ensures |ws| <= |t| && Divided(ws, t[..|ws|], w, rem, b)
    ensures |ws| > 1 && t[|ws| - 1] == 0 ==> t[|ws| - 2] != 0
  {
    assert ws[0..] == ws && t[0..|ws|] == t[..|ws|];
  }

  lemma NothingDivided(ws: seq<nat>, qs: seq<nat>, w: nat, b: nat)
    requires ws == qs == [] && w > 0
    ensures Divided(ws, qs, w, 0, b)
  {}

  lemma WordBelow(ws: seq<nat>, i: nat, b: nat)
    requires i < |ws| && AllWords(ws, b)
    ensures ws[i] < b
  {}

  /** A zero quotient word leaves its whole dividend as the remainder, and after a remainder the
      quotient word is not zero. */
  lemma SomeQuotient(b: nat, h: nat, l: nat, w: nat, q: nat, rem: nat)
    requires w < b && QuotRem(h * b + l, q, w, rem)
    ensures rem < w
    ensures h == 0 && l > 0 ==> q > 0 || rem > 0
    ensures h > 0 ==> q > 0
  {
    MulMonotone(1, h, b);
  }

  lemma DivisorFits(b: nat, w: nat, p: nat, r: nat)
    requires p > 0 && r * p == b > 0 && 0 < w < r
    ensures LowShift(w, p, b) == w * p && 0 < LowShift(w, p, b) < b
  {
    MulMonotone(1, w, p);
    MulMonotone(w + 1, r, p);
    assert (w + 1) * p == w * p + p;
    WrapSmall(w * p, b);
  }

  /** The words from `i` on have been moved up, those below not yet. */
  ghost predicate MovedFrom(t: seq<nat>, ws: seq<nat>, i: nat, nw: nat, p: nat, b: nat)
    requires p > 0
  {
    && i <= |ws| && nw + |ws| < |t| && t[..i] == ws[..i]
    && Raised(t[nw + i..nw + |ws| + 1], ws[i..], p, b)
  }

  lemma MovedAll(t: seq<nat>, ws: seq<nat>, nw: nat, p: nat, b: nat)
    requires p > 0 && MovedFrom(t, ws, 0, nw, p, b)
    ensures Raised(t[nw..nw + |ws| + 1], ws, p, b)
  {
    assert ws[0..] == ws;
  }

  lemma MoveOne(t: seq<nat>, ws: seq<nat>, i: nat, nw: nat, p: nat, r: nat, b: nat, high: nat, low: nat)
    requires p > 0 && r > 0 && b > 0 && Splits(b, p, r) && AllWords(ws, b) && MovedFrom(t, ws, i + 1, nw, p, b)
    requires high == t[nw + i + 1] + Shifted(t[i], r) && low == LowShift(t[i], p, b)
    ensures MovedFrom(t[nw + i + 1 := high][nw + i := low], ws, i, nw, p, b)
  {
    hide Raised, Splits, LowShift, Shifted, AllWords;
    var k, m, l := nw + i, nw + |ws| + 1, t[i];
    assert l == t[..i+1][i] == ws[i];
    WordBelow(ws, i, b);
    assert [l] + ws[i+1..] == ws[i..];
    ShiftIn(t[k + 1..m], ws[i+1..], l, p, r, b, low);
    TwoWordsSet(t, k, m, i, high, low);
    assert t[..i+1][..i] == t[..i] && ws[..i+1][..i] == ws[..i];
  }

  /** Two neighbouring words set, seen from below and from above. */
  lemma TwoWordsSet(d: seq<nat>, k: nat, m: nat, i: nat, high: nat, low: nat)
    requires i <= k && k + 1 < m <= |d|
    ensures
      var after := d[k + 1 := high][k := low];
      && after[..i] == d[..i]
      && after[k..m] == [low, high] + d[k + 1..m][1..]
  {
    var after := d[k + 1 := high][k := low];
    var rest := [low, high] + d[k + 1..m][1..];
    assert |rest| == m - k;
    forall j | 0 <= j < m - k ensures after[k..m][j] == rest[j] {
      if j >= 2 {
        assert rest[j] == d[k + 1..m][1..][j - 2] == d[k + j];
      }
    }
  }

  lemma BitsSplit(cfg: Config, lb: nat)
    requires 0 < lb < Bits(cfg)
    ensures Splits(cfg.Base(), Pow2(lb), Pow2(Bits(cfg) - lb))
  {
    WordIsPower(cfg);
    Pow2Sum(Bits(cfg) - lb, lb);
  }

  lemma StartMove(t: seq<nat>, ws: seq<nat>, nw: nat, p: nat, b: nat)
    requires p > 0 && b > 0 && nw + |ws| < |t| && t[..|ws|] == ws && t[nw + |ws|] == 0
    ensures MovedFrom(t, ws, |ws|, nw, p, b)
  {
    assert ws[..|ws|] == ws && ws[|ws|..] == [];
    var out := t[nw + |ws|..nw + |ws| + 1];
    assert out == [0] && out[1..] == [];
  }

  lemma ShiftTotal(cfg: Config, n: nat, ws: seq<nat>, out: seq<nat>, all: seq<nat>)
    requires Words(out, cfg.Base()) == Words(ws, cfg.Base()) * Pow2(n % Bits(cfg))
    requires n / Bits(cfg) <= |all| && all[..n / Bits(cfg)] == seq(n / Bits(cfg), _ => 0) && all[n / Bits(cfg)..] == out
    ensures Words(all, cfg.Base()) == Words(ws, cfg.Base()) * Pow2(n)
  {
    var bits, nw, lb := Bits(cfg), n / Bits(cfg), n % Bits(cfg);
    assert all == seq(nw, _ => 0) + out;
    ZerosBelow(nw, out, cfg.Base());
    PowerIsPow2(cfg, nw);
    DivMod(n, bits);
    Pow2Sum(nw * bits, lb);
    var v, x, y := Words(ws, cfg.Base()), Pow2(lb), Pow2(nw * bits);
    hide *;
    Regroup(v, x, y);
  }

  lemma Regroup(v: nat, x: nat, y: nat)
    ensures v * x * y == v * (y * x)
  {}
}
