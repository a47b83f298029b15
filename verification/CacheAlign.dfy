/** Buffers that begin and end on a cache line, cut out of a larger array. */
module CacheAlign {
  import opened Numbers
  import opened Bytes

  /** `x & ~((1<<k)-1)`, bit by bit. */
  function ClearLow(x: nat, k: nat): nat {
    if k == 0 then x else 2 * ClearLow(x / 2, k - 1)
  }

  /** Clearing the low bits rounds down. */
  lemma {:induction false} ClearLowRounds(x: nat, k: nat)
    ensures ClearLow(x, k) % Pow2(k) == 0 && ClearLow(x, k) <= x < ClearLow(x, k) + Pow2(k)
  {
    if k > 0 {
      ClearLowRounds(x / 2, k - 1);
      Doubled(ClearLow(x / 2, k - 1), Pow2(k - 1));
    }
  }

  lemma Doubled(c: nat, p: nat)
    requires p > 0 && c % p == 0
    ensures 2 * c % (2 * p) == 0
  {
    DivMod(c, p);
    var q := c / p;
    assert 2 * c == q * (2 * p);
    MultipleOf(q, 2 * p);
  }

  /** ROUND and ALIGN to `1<<k`. */
  function RoundUp(x: nat, k: nat): nat {
    ClearLow(x + Pow2(k) - 1, k)
  }

  /** The least multiple that is not below. */
  lemma RoundUpLeast(x: nat, k: nat)
    ensures RoundUp(x, k) % Pow2(k) == 0 && x <= RoundUp(x, k) < x + Pow2(k)
  {
    ClearLowRounds(x + Pow2(k) - 1, k);
  }

  /** PAD_SIZE. */
  function PadSize(size: nat, pad: nat): nat
    requires size >= 1 && pad >= 1
  {
    ((size - 1) / pad + 1) * pad
  }

  lemma PadSizeLeast(size: nat, pad: nat)
    requires size >= 1 && pad >= 1
    ensures PadSize(size, pad) % pad == 0 && size <= PadSize(size, pad) < size + pad
  {
    var q := (size - 1) / pad;
    DivMod(size - 1, pad);
    assert (q + 1) * pad == q * pad + pad;
    MultipleOf(q + 1, pad);
  }

  /** Bytes of the array ALLOC_ALIGN_BUFFER_PAD declares. */
  function RawSize(bytes: nat, k: nat, pad: nat): nat
    requires bytes >= 1 && pad >= 1
  {
    RoundUp(PadSize(bytes, pad), k) + (Pow2(k) - 1)
  }

  /** Wherever the array lies: the pointer is aligned, from it on a whole number of alignment
      units fits the array, they hold all elements padded, and less than one unit and one
      padding is left over beyond that. */
  lemma BufferFits(base: nat, count: nat, elem: nat, k: nat, pad: nat)
    requires count >= 1 && elem >= 1 && pad >= 1
    ensures count * elem >= 1
    ensures
      var bytes, start := count * elem, RoundUp(base, k);
      var room := RoundUp(PadSize(bytes, pad), k);
      && start % Pow2(k) == 0 && room % Pow2(k) == 0
      && base <= start && start + room <= base + RawSize(bytes, k, pad)
      && bytes <= PadSize(bytes, pad) <= room < bytes + pad + Pow2(k)
  {
    MulMonotone(1, count, elem);
    var bytes := count * elem;
    RoundUpLeast(base, k);
    PadSizeLeast(bytes, pad);
    RoundUpLeast(PadSize(bytes, pad), k);
  }

  /** The spare bytes are needed exactly: the units reach the end of the array if and only if it
      begins one byte behind an aligned address, or units are single bytes. */
  lemma SpareExactly(base: nat, bytes: nat, k: nat, pad: nat)
    requires bytes >= 1 && pad >= 1
    ensures RoundUp(base, k) + RoundUp(PadSize(bytes, pad), k) == base + RawSize(bytes, k, pad)
      <==> k == 0 || base % Pow2(k) == 1
  {
    RoundUpLeast(base, k);
    UnitIsOne(k);
    var p, up, room := Pow2(k), RoundUp(base, k), RoundUp(PadSize(bytes, pad), k);
    assert RawSize(bytes, k, pad) == room + (p - 1);
    hide *;
    NextMultiple(base, up, p);
  }

  lemma UnitIsOne(k: nat)
    ensures Pow2(k) == 1 <==> k == 0
  {}

  lemma NextMultiple(base: nat, up: nat, p: nat)
    requires p > 0 && up % p == 0 && base <= up < base + p
    ensures up == base + p - 1 <==> p == 1 || base % p == 1
  {
    DivMod(base, p);
    DivMod(up, p);
    NextUnit(base, up, p, base / p, base % p, up / p);
  }

  lemma NextUnit(base: nat, up: nat, p: nat, q: nat, r: nat, e: nat)
    requires p > 0 && base == q * p + r && r < p && up == e * p && base <= up < base + p
    ensures up == base + p - 1 <==> p == 1 || r == 1
  {
    MulMonotone(e + 1, q, p);
    MulMonotone(q + 2, e, p);
    assert (e + 1) * p == e * p + p && (q + 1) * p == q * p + p && (q + 2) * p == q * p + 2 * p;
    assert e == q || e == q + 1;
  }
}
