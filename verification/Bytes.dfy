/** Eight-bit registers as sequences of bits, least significant bit first, with
    the C operators used on them. */
module Bytes {

  type Byte = b: seq<bool> | |b| == 8 witness seq(8, _ => false)

  function Pow2(n: nat): (p: nat)
    ensures p >= 1
  {
    if n == 0 then 1 else 2 * Pow2(n - 1)
  }

  lemma {:induction false} Pow2Sum(a: nat, b: nat)
    ensures Pow2(a + b) == Pow2(a) * Pow2(b)
  {
    if a > 0 {
      Pow2Sum(a - 1, b);
      assert 2 * (Pow2(a - 1) * Pow2(b)) == 2 * Pow2(a - 1) * Pow2(b);
    }
  }

  function Value(bits: seq<bool>): (v: nat)
    ensures v < Pow2(|bits|)
  {
    if bits == [] then 0 else (if bits[0] then 1 else 0) + 2 * Value(bits[1..])
  }

  /** The low `n` bits of `v`. */
  function ToBits(v: nat, n: nat): (bits: seq<bool>)
    ensures |bits| == n
  {
    if n == 0 then [] else [v % 2 == 1] + ToBits(v / 2, n - 1)
  }

  lemma {:induction false} ValueOfBits(v: nat, n: nat)
    requires v < Pow2(n)
    ensures Value(ToBits(v, n)) == v
  {
    if n > 0 {
      ValueOfBits(v / 2, n - 1);
    }
  }

  lemma {:induction false} BitsPrefix(v: nat, n: nat, k: nat)
    requires k <= n
    ensures ToBits(v, n)[..k] == ToBits(v, k)
  {
    if k > 0 {
      BitsPrefix(v / 2, n - 1, k - 1);
    }
  }

  /** Flipping every bit of a `n`-bit field counts down from the top. */
  lemma {:induction false} ValueOfComplement(bits: seq<bool>)
    ensures Value(seq(|bits|, i requires 0 <= i < |bits| => !bits[i])) == Pow2(|bits|) - 1 - Value(bits)
  {
    if bits != [] {
      ValueOfComplement(bits[1..]);
      var flipped := seq(|bits|, i requires 0 <= i < |bits| => !bits[i]);
      assert flipped[1..] == seq(|bits[1..]|, i requires 0 <= i < |bits[1..]| => !bits[1..][i]);
    }
  }

  function And(a: Byte, b: Byte): Byte { seq(8, i requires 0 <= i < 8 => a[i] && b[i]) }
  function Or(a: Byte, b: Byte): Byte { seq(8, i requires 0 <= i < 8 => a[i] || b[i]) }
  function Not(a: Byte): Byte { seq(8, i requires 0 <= i < 8 => !a[i]) }

  /** `(u8)(v << k)`. */
  function ShiftedByte(v: nat, k: nat): Byte
    requires k <= 8
  {
    seq(k, _ => false) + ToBits(v, 8 - k)
  }

  /** A mask of `width` ones above `offset` zeros. */
  function MaskOf(offset: nat, width: nat): Byte {
    seq(8, i requires 0 <= i < 8 => offset <= i < offset + width)
  }

  function FieldBits(b: Byte, offset: nat, width: nat): (f: seq<bool>)
    requires offset + width <= 8
    ensures |f| == width
  {
    b[offset..offset + width]
  }
}
