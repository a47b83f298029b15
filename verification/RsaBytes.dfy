/** Byte order of the numbers handed to and taken from the RSA engine. */
module RsaBytes {
  import opened Numbers
  import opened HashPadding

  /** What __rsa_padding leaves in the destination group. */
  function Group(data: seq<byte>, groupLen: nat): (g: seq<byte>)
    ensures |g| == groupLen
  {
    if |data| <= groupLen then Zeros(groupLen - |data|) + Reversed(data) else Zeros(groupLen)
  }

  /** __rsa_padding.  When the data is longer than the group, the start index wraps as an
      unsigned number and no byte is copied. */
  method RsaPadding(dst: array<byte>, src: array<byte>, dataLen: nat, groupLen: nat)
    requires dst != src && groupLen <= dst.Length && dataLen <= src.Length
    modifies dst
    ensures dst[..groupLen] == Group(src[..dataLen], groupLen)
    ensures dst[groupLen..] == old(dst[groupLen..])
  {
    var j := 0;
    while j < groupLen
      invariant 0 <= j <= groupLen && dst[..j] == Zeros(j) && dst[groupLen..] == old(dst[groupLen..])
    {
      dst[j] := 0;
      j := j + 1;
    }
    if dataLen <= groupLen {
      var i := groupLen - dataLen;
      while i < groupLen
        invariant groupLen - dataLen <= i <= groupLen && dst[groupLen..] == old(dst[groupLen..])
        invariant forall k :: 0 <= k < groupLen ==>
          dst[k] == if groupLen - dataLen <= k < i then src[groupLen - 1 - k] else 0
      {
        dst[i] := src[groupLen - 1 - i];
        i := i + 1;
      }
    }
  }

  lemma {:induction false} ZerosScale(z: nat, s: seq<byte>)
    ensures Number(Zeros(z) + s) == Number(s) * Power256(z)
  {
    var t := Zeros(z) + s;
    if z == 0 {
      assert t == s;
    } else {
      ZerosScale(z - 1, s);
      assert t[1..] == Zeros(z - 1) + s;
      assert 256 * (Number(s) * Power256(z - 1)) == Number(s) * (256 * Power256(z - 1));
    }
  }

  lemma {:induction false} ReversedNumber(s: seq<byte>)
    ensures Number(Reversed(s)) == BigEndian(s)
  {
    if s != [] {
      ReversedNumber(s[..|s| - 1]);
      assert Reversed(s)[1..] == Reversed(s[..|s| - 1]);
    }
  }

  /** The group, read least significant byte first, is the data read most significant byte
      first, shifted up by the unused bytes. */
  lemma GroupNumber(data: seq<byte>, groupLen: nat)
    requires |data| <= groupLen
    ensures Number(Group(data, groupLen)) == BigEndian(data) * Power256(groupLen - |data|)
  {
    ZerosScale(groupLen - |data|, Reversed(data));
    ReversedNumber(data);
  }

  /** So the number is preserved exactly when the group is filled, or the number is zero. */
  lemma GroupPreservesExactly(data: seq<byte>, groupLen: nat)
    ensures Number(Group(data, groupLen)) == BigEndian(data) <==> |data| == groupLen || BigEndian(data) == 0
  {
    if |data| <= groupLen {
      GroupNumber(data, groupLen);
      PowerAtLeast(groupLen - |data|);
      var p := Power256(groupLen - |data|);
      hide *;
      ScaleGrows(BigEndian(data), p);
    } else {
      ZeroNumber(groupLen);
    }
  }

  lemma {:induction false} ZeroNumber(n: nat)
    ensures Number(Zeros(n)) == 0
  {
    if n > 0 {
      ZeroNumber(n - 1);
      assert Zeros(n)[1..] == Zeros(n - 1);
    }
  }

  lemma PowerAtLeast(n: nat)
    ensures n == 0 ==> Power256(n) == 1
    ensures n > 0 ==> Power256(n) >= 2
  {}

  lemma ScaleGrows(x: nat, p: nat)
    requires p >= 1
    ensures x * p == x <==> x == 0 || p == 1
  {
    if x > 0 && p > 1 {
      assert x * p == x * (p - 1) + x;
    }
  }

  /** With a filled group, padding into the engine and out again restores the bytes. */
  lemma GroupInvolution(data: seq<byte>)
    ensures Group(Group(data, |data|), |data|) == data
  {}
}
