/** Numbers, their bytes, and the division facts the other modules share. */
module Numbers {

  type byte = x: int | 0 <= x < 256

  datatype Option<T> = None | Some(value: T)

  // ---------------------------------------------------------------- products and quotients

  lemma MulMonotone(a: int, b: int, d: nat)
    ensures a <= b ==> a * d <= b * d
  {}

  lemma DivMod(x: nat, d: nat)
    requires d > 0
    ensures x == x / d * d + x % d && 0 <= x % d < d
  {}

  lemma DivBounds(x: nat, d: nat)
    requires d > 0
    ensures x / d * d <= x < (x / d + 1) * d
  {}

  lemma DivUnique(x: nat, d: nat, q: nat)
    requires d > 0 && q * d <= x < (q + 1) * d
    ensures x / d == q
  {
    DivBounds(x, d);
    MulMonotone(x / d + 1, q, d);
    MulMonotone(q + 1, x / d, d);
  }

  lemma MultipleOf(q: nat, p: nat)
    requires p > 0
    ensures q * p % p == 0
  {
    DivMod(q * p, p);
    var e, r := q * p / p, q * p % p;
    MulMonotone(q + 1, e, p);
    MulMonotone(e + 1, q, p);
    assert (q + 1) * p == q * p + p && (e + 1) * p == e * p + p;
  }

  // ---------------------------------------------------------------- bytes

  function Power256(n: nat): (p: nat)
    ensures p > 0
  {
    if n == 0 then 1 else 256 * Power256(n - 1)
  }

  /** The number spelled most significant byte first. */
  function BigEndian(s: seq<nat>): nat {
    if s == [] then 0 else BigEndian(s[..|s| - 1]) * 256 + s[|s| - 1]
  }

  lemma BigEndianLast(front: seq<nat>, last: nat)
    ensures BigEndian(front + [last]) == BigEndian(front) * 256 + last
  {
    assert (front + [last])[..|front|] == front;
  }

  /** A 32-bit number from its four bytes. */
  lemma WordFromBytes(w: nat)
    requires w < 0x1_0000_0000
    ensures w == w / 0x100_0000 % 256 * 0x100_0000 + w / 0x1_0000 % 256 * 0x1_0000 + w / 0x100 % 256 * 0x100 + w % 256
  {
    var w1 := w / 256;
    var w2 := w1 / 256;
    var w3 := w2 / 256;
    assert w / 0x1_0000 == w2 && w / 0x100_0000 == w3 && w3 < 256;
    assert w == w1 * 256 + w % 256 && w1 == w2 * 256 + w1 % 256 && w2 == w3 * 256 + w2 % 256;
  }
}
