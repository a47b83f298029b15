/** The decimal spelling of a number of many words, and what it denotes. */
module BigNumDecimal {
  import opened Numbers
  import opened BigNumWords
  import opened BigNumbers

  // ---------------------------------------------------------------- decimal digits

  const DIGITS: string := "0123456789"

  function DigitValue(c: char): nat {
    if '0' <= c <= '9' then (c as int) - ('0' as int) else 0
  }

  /** The number a string of digits denotes. */
  function DecimalValue(s: string): nat {
    if s == [] then 0 else DecimalValue(s[..|s| - 1]) * 10 + DigitValue(s[|s| - 1])
  }

  ghost predicate AllDigits(s: string) {
    forall i :: 0 <= i < |s| ==> '0' <= s[i] <= '9'
  }

  /** `%u` */
  function Decimal(n: nat): (s: string)
    ensures s != [] && AllDigits(s)
  {
    if n < 10 then [DIGITS[n]] else Decimal(n / 10) + [DIGITS[n % 10]]
  }

  function Zeros(k: nat): (s: string)
    ensures |s| == k && AllDigits(s)
  {
    seq(k, _ => '0')
  }

  /** `%0ku` */
  function Padded(n: nat, k: nat): (s: string)
    ensures AllDigits(s)
  {
    if |Decimal(n)| < k then Zeros(k - |Decimal(n)|) + Decimal(n) else Decimal(n)
  }

  lemma {:induction false} DecimalRight(n: nat)
    ensures DecimalValue(Decimal(n)) == n
    ensures n > 0 ==> Decimal(n)[0] != '0'
  {
    if n >= 10 {
      DecimalRight(n / 10);
      assert Decimal(n)[..|Decimal(n)| - 1] == Decimal(n / 10);
    }
  }

  lemma {:induction false} DecimalShort(n: nat, k: nat)
    requires k > 0 && n < Power(10, k)
    ensures |Decimal(n)| <= k
  {
    if n >= 10 {
      assert Power(10, k) == 10 * Power(10, k - 1);
      assert k > 1 by {
        assert Power(10, 0) == 1;
      }
      DecimalShort(n / 10, k - 1);
    }
  }

  /** Writing one string of digits behind another. */
  lemma {:induction false} DecimalJoin(s: string, t: string)
    ensures DecimalValue(s + t) == DecimalValue(s) * Power(10, |t|) + DecimalValue(t)
  {
    if t == [] {
      assert s + t == s;
    } else {
      var front := t[..|t| - 1];
      DecimalJoin(s, front);
      assert (s + t)[..|s + t| - 1] == s + front;
      var v, p, w := DecimalValue(s), Power(10, |t| - 1), DecimalValue(front);
      assert Power(10, |t|) == 10 * p;
      assert DecimalValue(s + t) == DecimalValue(s + front) * 10 + DigitValue(t[|t| - 1]);
      assert DecimalValue(t) == w * 10 + DigitValue(t[|t| - 1]);
      hide *;
      JoinStep(v, p, w);
    }
  }

  lemma JoinStep(v: nat, p: nat, w: nat)
    ensures (v * p + w) * 10 == v * (10 * p) + w * 10
  {
    assert v * p * 10 == v * (10 * p);
  }

  lemma {:induction false} ZerosValue(k: nat)
    ensures DecimalValue(Zeros(k)) == 0
  {
    if k > 0 {
      ZerosValue(k - 1);
      assert Zeros(k)[..k - 1] == Zeros(k - 1);
    }
  }

  /** A padded block has the wanted width and value. */
  lemma PaddedRight(n: nat, k: nat)
    requires k > 0 && n < Power(10, k)
    ensures |Padded(n, k)| == k && DecimalValue(Padded(n, k)) == n
  {
    DecimalShort(n, k);
    DecimalRight(n);
    hide DecimalValue, Decimal, Power, Zeros;
    ZerosValue(k - |Decimal(n)|);
    DecimalJoin(Zeros(k - |Decimal(n)|), Decimal(n));
    assert 0 * Power(10, |Decimal(n)|) == 0;
  }

  // ---------------------------------------------------------------- blocks

  /** BN_DEC_NUM. */
  function BlockDigits(cfg: Config): (k: nat)
    ensures k > 0
  {
    match cfg
    case EightBit => 2
    case SixteenBit => 5
    case ThirtyTwoBit => 9
    case SixtyFourBit => 19
  }

  /** BN_DEC_CONV. */
  function BlockDivisor(cfg: Config): nat {
    match cfg
    case EightBit => 100
    case SixteenBit => 10_0000
    case ThirtyTwoBit => 10_0000_0000
    case SixtyFourBit => 1000_0000_0000_0000_0000
  }

  /** What BN_div_word makes of it: 100000 does not fit 16 bits. */
  function BlockBase(cfg: Config): (w: nat)
    ensures w > 0
  {
    BlockDivisor(cfg) % cfg.Base()
  }

  lemma BlocksAreDecimal(cfg: Config)
    ensures BlockDivisor(cfg) == Power(10, BlockDigits(cfg))
    ensures if cfg.SixteenBit? then BlockBase(cfg) == 34464 else BlockBase(cfg) == BlockDivisor(cfg)
    ensures 1 < BlockBase(cfg) <= BlockDivisor(cfg)
  {
    PowersOfTen();
    hide Power;
    match cfg
    case EightBit =>
    case SixteenBit =>
    case ThirtyTwoBit =>
    case SixtyFourBit => assert cfg.Base() == 0x1_0000_0000_0000_0000;
  }

  lemma PowersOfTen()
    ensures Power(10, 2) == 100 && Power(10, 5) == 10_0000 && Power(10, 9) == 10_0000_0000
    ensures Power(10, 19) == 1000_0000_0000_0000_0000
  {
    assert Power(10, 1) == 10 && Power(10, 2) == 100 by {
      assert Power(10, 0) == 1 && Power(10, 1) == 10 * Power(10, 0) && Power(10, 2) == 10 * Power(10, 1);
    }
    hide Power;
    PowerSum(10, 2, 2);
    PowerSum(10, 4, 1);
    PowerSum(10, 5, 4);
    PowerSum(10, 9, 9);
    PowerSum(10, 18, 1);
  }

  lemma {:induction false} PowerSum(b: nat, m: nat, n: nat)
    ensures Power(b, m + n) == Power(b, m) * Power(b, n)
  {
    if m > 0 {
      PowerSum(b, m - 1, n);
      var x, y := Power(b, m - 1), Power(b, n);
      assert b * (x * y) == b * x * y;
    }
  }

  /** The digits printed for the blocks, the last one first and unpadded. */
  function Print(blocks: seq<nat>, k: nat): (s: string)
    requires blocks != []
    ensures s != [] && AllDigits(s)
  {
    if |blocks| == 1 then Decimal(blocks[0]) else Print(blocks[1..], k) + Padded(blocks[0], k)
  }

  /** The digits denote the blocks read with the decimal base. */
  lemma {:induction false} PrintValue(blocks: seq<nat>, k: nat)
    requires blocks != [] && k > 0 && AllWords(blocks, Power(10, k))
    ensures DecimalValue(Print(blocks, k)) == Words(blocks, Power(10, k))
    ensures blocks[|blocks| - 1] > 0 ==> Print(blocks, k)[0] != '0'
  {
    hide Decimal, Padded, DecimalValue, Power, Words;
    var p := Power(10, k);
    UnfoldWords(blocks, p);
    if |blocks| == 1 {
      DecimalRight(blocks[0]);
      NoWords(blocks[1..], p);
    } else {
      assert AllWords(blocks[1..], p) by {
        assert forall i :: 0 <= i < |blocks[1..]| ==> blocks[1..][i] == blocks[i+1];
      }
      PrintValue(blocks[1..], k);
      PaddedRight(blocks[0], k);
      var s, t := Print(blocks[1..], k), Padded(blocks[0], k);
      assert Print(blocks, k) == s + t;
      DecimalJoin(s, t);
    }
  }

  lemma NoWords(ws: seq<nat>, p: nat)
    requires ws == []
    ensures p * Words(ws, p) == 0
  {}

  /** Blocks cut by a smaller base and printed with the decimal one give too much, unless there
      is one block only. */
  lemma {:induction false} WrongBase(blocks: seq<nat>, w: nat, p: nat)
    requires blocks != [] && 0 < w < p && blocks[|blocks| - 1] > 0 && AllWords(blocks, w)
    ensures Words(blocks, p) >= Words(blocks, w) > 0
    ensures Words(blocks, p) == Words(blocks, w) <==> |blocks| == 1
    ensures |blocks| == 1 <==> Words(blocks, w) < w
  {
    var rest := blocks[1..];
    if |blocks| > 1 {
      assert rest[|rest| - 1] == blocks[|blocks| - 1];
      assert AllWords(rest, w) by {
        assert forall i :: 0 <= i < |rest| ==> rest[i] == blocks[i+1];
      }
      WrongBase(rest, w, p);
      var x, y := Words(rest, w), Words(rest, p);
      MulMonotone(x, y, p);
      MulMonotone(w + 1, p, x);
      MulMonotone(1, x, w);
      assert (w + 1) * x == w * x + x && y * p == p * y;
    } else {
      assert rest == [];
    }
  }

  // ---------------------------------------------------------------- the driver of the division

  /** The blocks so far and what is left of the number. */
  ghost predicate Cut(a: nat, blocks: seq<nat>, left: nat, w: nat) {
    AllWords(blocks, w) && a == Words(blocks, w) + left * Power(w, |blocks|)
  }

  lemma CutMore(a: nat, blocks: seq<nat>, left: nat, w: nat, q: nat, rem: nat)
    requires Cut(a, blocks, left, w) && QuotRem(left, q, w, rem)
    ensures Cut(a, blocks + [rem], q, w)
  {
    assert AllWords(blocks + [rem], w);
    assert left == q * w + rem;
    WordsSnoc(blocks, rem, w);
    PowerStep(q, w, |blocks| + 1);
    var p := Power(w, |blocks|);
    hide *;
    CutValue(q, w, rem, p);
  }

  lemma CutValue(q: nat, w: nat, rem: nat, p: nat)
    ensures (q * w + rem) * p == w * (q * p) + rem * p
  {
    assert q * w * p == w * (q * p);
  }

  lemma Shrinks(left: nat, q: nat, w: nat, rem: nat)
    requires QuotRem(left, q, w, rem) && left > 0 && w > 1
    ensures q < left && (q == 0 ==> rem > 0)
  {
    MulMonotone(2, w, q);
  }

  /** The loop of BN_bn2dec, on a duplicate of the number. */
  method Blocks(a: BigNum) returns (blocks: seq<nat>)
    requires a.Valid() && a.Canonical()
    ensures Cut(a.Magnitude(), blocks, 0, BlockBase(a.cfg))
    ensures blocks == [] <==> a.Magnitude() == 0
    ensures blocks != [] ==> blocks[|blocks| - 1] > 0
  {
    var t := new BigNum(a);
    var w := BlockBase(a.cfg);
    BlocksAreDecimal(a.cfg);
    blocks := [];
    StartCut(t.Magnitude(), w);
    t.Zero();
    while t.top != 0
      invariant t.Valid() && t.Canonical() && t.cfg == a.cfg && fresh(t)
      invariant Cut(a.Magnitude(), blocks, t.Magnitude(), w)
      invariant t.top == 0 <==> t.Magnitude() == 0
      invariant if blocks == [] then t.Magnitude() == a.Magnitude() else a.Magnitude() > 0
      invariant blocks != [] && t.top == 0 ==> blocks[|blocks| - 1] > 0
      decreases t.Magnitude()
    {
      ghost var left := t.Magnitude();
      var rem;
      ghost var ok;
      rem, ok := t.DivWord(BlockDivisor(a.cfg), true);
      CutMore(a.Magnitude(), blocks, left, w, t.Magnitude(), rem);
      Shrinks(left, t.Magnitude(), w, rem);
      t.Zero();
      blocks := blocks + [rem];
    }
  }

  lemma StartCut(a: nat, w: nat)
    ensures Cut(a, [], a, w)
  {}

  /** The digits behind the sign, if there is one. */
  function Unsigned(s: string): string {
    if s != [] && s[0] == '-' then s[1..] else s
  }

  /** BN_bn2dec: a sign for a negative number, and its digits without a leading zero.  The digits
      denote the number exactly when words are not of 16 bits, or it is below 34464. */
  method ToDecimal(a: BigNum) returns (s: string)
    requires a.Valid() && a.Canonical()
    ensures s != [] && (s[0] == '-' <==> a.neg && a.Magnitude() > 0)
    ensures var digits := Unsigned(s);
      && digits != [] && AllDigits(digits) && (digits[0] == '0' ==> digits == "0")
      && (DecimalValue(digits) == a.Magnitude() <==> !a.cfg.SixteenBit? || a.Magnitude() < 34464)
  {
    var blocks := Blocks(a);
    if blocks == [] {
      return "0";
    }
    var k := BlockDigits(a.cfg);
    var text := Decimal(blocks[|blocks| - 1]);
    var i := |blocks| - 1;
    while i > 0
      invariant 0 <= i < |blocks| && text == Print(blocks[i..], k)
    {
      i := i - 1;
      assert blocks[i..][1..] == blocks[i+1..];
      text := text + Padded(blocks[i], k);
    }
    assert blocks[0..] == blocks;
    PrintedRight(a.cfg, a.Magnitude(), blocks);
    s := (if a.neg then "-" else "") + text;
    Behind(s, text, a.neg);
  }

  lemma Behind(s: string, text: string, neg: bool)
    requires text != [] && AllDigits(text) && s == (if neg then "-" else "") + text
    ensures s != [] && (s[0] == '-' <==> neg) && Unsigned(s) == text
  {}

  lemma PrintedRight(cfg: Config, a: nat, blocks: seq<nat>)
    requires blocks != [] && blocks[|blocks| - 1] > 0 && Cut(a, blocks, 0, BlockBase(cfg))
    ensures var digits := Print(blocks, BlockDigits(cfg));
      && digits[0] != '0'
      && (DecimalValue(digits) == a <==> !cfg.SixteenBit? || a < 34464)
  {
    BlocksAreDecimal(cfg);
    var p, w := BlockDivisor(cfg), BlockBase(cfg);
    assert AllWords(blocks, p);
    PrintValue(blocks, BlockDigits(cfg));
    assert a == Words(blocks, w);
    if cfg.SixteenBit? {
      WrongBase(blocks, w, p);
    }
  }
}
