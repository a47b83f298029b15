/** Message padding for the hash engine, done in place, and the byte order helper it uses. */
module HashPadding {
  import opened Numbers

  // ---------------------------------------------------------------- words in memory

  /** The bytes of a 32-bit word in memory, least significant first. */
  function Stored(w: nat): (s: seq<byte>)
    ensures |s| == 4
  {
    [w % 256, w / 0x100 % 256, w / 0x1_0000 % 256, w / 0x100_0000 % 256]
  }

  /** __aw_endian4. */
  function SwapWord(w: nat): (r: nat)
    ensures r < 0x1_0000_0000
  {
    w % 256 * 0x100_0000 + w / 0x100 % 256 * 0x1_0000 + w / 0x1_0000 % 256 * 0x100 + w / 0x100_0000 % 256
  }

  function Reversed(s: seq<byte>): (r: seq<byte>)
    ensures |r| == |s|
  {
    seq(|s|, i requires 0 <= i < |s| => s[|s| - 1 - i])
  }

  lemma JoinBytes(b0: nat, b1: nat, b2: nat, b3: nat)
    requires b0 < 256 && b1 < 256 && b2 < 256 && b3 < 256
    ensures var w := b3 * 0x100_0000 + b2 * 0x1_0000 + b1 * 0x100 + b0;
      w % 256 == b0 && w / 0x100 % 256 == b1 && w / 0x1_0000 % 256 == b2 && w / 0x100_0000 % 256 == b3
  {
    var w := b3 * 0x100_0000 + b2 * 0x1_0000 + b1 * 0x100 + b0;
    assert w / 0x100 == b3 * 0x1_0000 + b2 * 0x100 + b1;
    assert w / 0x1_0000 == b3 * 0x100 + b2;
    assert w / 0x100_0000 == b3;
  }

  /** Swapping reverses the stored bytes. */
  lemma SwapReverses(w: nat)
    ensures Stored(SwapWord(w)) == Reversed(Stored(w))
  {
    JoinBytes(w / 0x100_0000 % 256, w / 0x1_0000 % 256, w / 0x100 % 256, w % 256);
  }

  /** Swapping twice gives the word back. */
  lemma SwapInvolution(w: nat)
    requires w < 0x1_0000_0000
    ensures SwapWord(SwapWord(w)) == w
  {
    JoinBytes(w / 0x100_0000 % 256, w / 0x1_0000 % 256, w / 0x100 % 256, w % 256);
    WordFromBytes(w);
  }

  // ---------------------------------------------------------------- the standards

  /** The eight low bytes of a number, least significant first. */
  function LittleEndian8(v: nat): (s: seq<byte>)
    ensures |s| == 8
  {
    Stored(v % 0x1_0000_0000) + Stored(v / 0x1_0000_0000)
  }

  /** The 64-bit message length in bits: most significant byte first as in section 5.1.1 of
      FIPS 180-4, or least significant first as in section 3.2 of RFC 1321. */
  function LengthField(n: nat, bigEndian: bool): (s: seq<byte>)
    ensures |s| == 8
  {
    if bigEndian then Reversed(LittleEndian8(n * 8)) else LittleEndian8(n * 8)
  }

  function Zeros(n: nat): (z: seq<byte>)
    ensures |z| == n
  {
    seq(n, _ => 0)
  }

  /** Number of zero bytes after the marker: the least that completes a 64-byte block with
      the length field. */
  function Gap(n: nat): (z: nat)
    ensures (n + 1 + z + 8) % 64 == 0 && z < 64
  {
    (119 - n % 64) % 64
  }

  function Padding(n: nat, bigEndian: bool): seq<byte> {
    [0x80] + Zeros(Gap(n)) + LengthField(n, bigEndian)
  }

  function Padded(msg: seq<byte>, bigEndian: bool): seq<byte> {
    msg + Padding(|msg|, bigEndian)
  }

  // ---------------------------------------------------------------- the driver

  /** `padding_buf[i] = w`. */
  method PutWord(buf: array<byte>, i: nat, w: nat)
    requires buf.Length == 64 && i < 16
    modifies buf
    ensures buf[..] == old(buf[..i*4]) + Stored(w) + old(buf[i*4+4..])
  {
    var s := Stored(w);
    buf[i*4], buf[i*4+1], buf[i*4+2], buf[i*4+3] := s[0], s[1], s[2], s[3];
  }

  lemma LengthWords(n: nat, bigEndian: bool)
    requires n < 0x1_0000_0000
    ensures
      var hi, lo := n / 0x2000_0000, n * 8 % 0x1_0000_0000;
      LengthField(n, bigEndian)
      == if bigEndian then Stored(SwapWord(hi)) + Stored(SwapWord(lo)) else Stored(lo) + Stored(hi)
  {
    var hi, lo := n / 0x2000_0000, n * 8 % 0x1_0000_0000;
    assert n * 8 / 0x1_0000_0000 == hi;
    SwapReverses(hi);
    SwapReverses(lo);
    hide Stored, SwapWord;
    if bigEndian {
      assert Reversed(Stored(lo) + Stored(hi)) == Reversed(Stored(hi)) + Reversed(Stored(lo));
    }
  }

  /** Words 14 and 15 of the block. */
  method PutLength(buf: array<byte>, dataSize: nat, hashMode: bool)
    requires buf.Length == 64 && dataSize < 0x1_0000_0000
    modifies buf
    ensures buf[..] == old(buf[..56]) + LengthField(dataSize, hashMode)
  {
    LengthWords(dataSize, hashMode);
    hide Stored, SwapWord, LengthField;
    if hashMode {
      var w14 := dataSize / 0x2000_0000;
      var w15 := dataSize * 8 % 0x1_0000_0000;
      w14 := SwapWord(w14);
      w15 := SwapWord(w15);
      PutWord(buf, 14, w14);
      PutWord(buf, 15, w15);
      assert buf[..] == old(buf[..56]) + (Stored(w14) + Stored(w15));
    } else {
      var w14 := dataSize * 8 % 0x1_0000_0000;
      var w15 := dataSize / 0x2000_0000;
      PutWord(buf, 14, w14);
      PutWord(buf, 15, w15);
      assert buf[..] == old(buf[..56]) + (Stored(w14) + Stored(w15));
    }
  }

  method Clear(buf: array<byte>)
    requires buf.Length == 64
    modifies buf
    ensures buf[..] == Zeros(64)
  {
    var i := 0;
    while i < 64
      invariant 0 <= i <= 64 && buf[..i] == Zeros(i)
    {
      buf[i] := 0;
      i := i + 1;
    }
  }

  /** `for (i=0; i<q; i++) ptext[i] = text[base + i];` */
  method CopyIn(buf: array<byte>, text: array<byte>, base: nat, q: nat)
    requires buf != text && buf.Length == 64 && q <= 64 && base + q <= text.Length
    modifies buf
    ensures buf[..] == text[base..base+q] + old(buf[q..])
  {
    var i := 0;
    while i < q
      invariant 0 <= i <= q && buf[..i] == text[base..base+i] && buf[q..] == old(buf[q..])
    {
      buf[i] := text[base + i];
      i := i + 1;
    }
  }

  /** `for (i=0; i<64; i++) text[base + i] = ptext[i];` */
  method CopyOut(text: array<byte>, base: nat, buf: array<byte>)
    requires buf != text && buf.Length == 64 && base + 64 <= text.Length
    modifies text
    ensures text[..] == old(text[..base]) + buf[..] + old(text[base+64..])
  {
    var i := 0;
    while i < 64
      invariant 0 <= i <= 64 && text[..base] == old(text[..base]) && text[base+64..] == old(text[base+64..])
      invariant text[base..base+i] == buf[..i]
    {
      text[base + i] := buf[i];
      i := i + 1;
    }
    assert text[..] == text[..base] + text[base..base+64] + text[base+64..];
  }

  /** Size of the padded message. */
  function PaddedSize(n: nat): (size: nat)
    ensures size % 64 == 0 && n + 9 <= size < n + 9 + 64
  {
    n + 9 + Gap(n)
  }

  /** The case of a whole number of blocks. */
  method PadAligned(text: array<byte>, buf: array<byte>, dataSize: nat, hashMode: bool) returns (size: nat)
    requires text != buf && buf.Length == 64 && buf[..] == Zeros(64) && dataSize % 64 == 0
    requires PaddedSize(dataSize) <= text.Length && dataSize < 0x1_0000_0000
    modifies text, buf
    ensures size == PaddedSize(dataSize)
    ensures text[..] == Padded(old(text[..dataSize]), hashMode) + old(text[size..])
  {
    hide LengthField;
    var k := dataSize / 64;
    PutWord(buf, 0, 0x80);
    PutLength(buf, dataSize, hashMode);
    assert buf[..] == [0x80] + Zeros(55) + LengthField(dataSize, hashMode);
    CopyOut(text, k * 64, buf);
    size := (k + 1) * 64;
  }

  /** The case where marker and length still fit the last block. */
  method PadShort(text: array<byte>, buf: array<byte>, dataSize: nat, hashMode: bool) returns (size: nat)
    requires text != buf && buf.Length == 64 && buf[..] == Zeros(64) && dataSize % 64 < 56
    requires PaddedSize(dataSize) <= text.Length && dataSize < 0x1_0000_0000
    modifies text, buf
    ensures size == PaddedSize(dataSize)
    ensures text[..] == Padded(old(text[..dataSize]), hashMode) + old(text[size..])
  {
    hide LengthField;
    var k, q := dataSize / 64, dataSize % 64;
    ghost var msg, last := text[..dataSize], text[k*64..k*64+q];
    ghost var tail := [0x80] + Zeros(55 - q) + LengthField(dataSize, hashMode);
    assert Padded(msg, hashMode) == text[..k*64] + (last + tail);
    CopyIn(buf, text, k * 64, q);
    buf[q] := 0x80;
    PutLength(buf, dataSize, hashMode);
    assert buf[..] == last + tail;
    CopyOut(text, k * 64, buf);
    size := (k + 1) * 64;
  }

  /** The case where the length needs a block of its own. */
  method PadLong(text: array<byte>, buf: array<byte>, dataSize: nat, hashMode: bool) returns (size: nat)
    requires text != buf && buf.Length == 64 && buf[..] == Zeros(64) && dataSize % 64 >= 56
    requires PaddedSize(dataSize) <= text.Length && dataSize < 0x1_0000_0000
    modifies text, buf
    ensures size == PaddedSize(dataSize)
    ensures text[..] == Padded(old(text[..dataSize]), hashMode) + old(text[size..])
  {
    ghost var msg := text[..dataSize];
    LongShape(msg, hashMode);
    hide *;
    var k, q := dataSize / 64, dataSize % 64;
    assert dataSize == k * 64 + q;
    ghost var head, last, behind := text[..k*64], text[k*64..k*64+q], text[(k+2)*64..];
    assert msg[k*64..] == last && msg[..k*64] == head;
    CopyIn(buf, text, k * 64, q);
    buf[q] := 0x80;
    ghost var block1 := buf[..];
    assert block1 == LongFirst(last);
    CopyOut(text, k * 64, buf);
    assert text[..(k+1)*64] == head + block1 && text[(k+2)*64..] == behind;
    Clear(buf);
    PutLength(buf, dataSize, hashMode);
    ghost var block2 := buf[..];
    assert block2 == Zeros(56) + LengthField(dataSize, hashMode);
    CopyOut(text, (k + 1) * 64, buf);
    size := (k + 2) * 64;
    assert text[..] == head + block1 + block2 + behind;
  }

  /** The first of the two last blocks. */
  ghost function LongFirst(last: seq<byte>): seq<byte>
    requires |last| < 64
  {
    last + [0x80] + Zeros(63 - |last|)
  }

  lemma LongShape(msg: seq<byte>, hashMode: bool)
    requires |msg| % 64 >= 56
    ensures PaddedSize(|msg|) == (|msg| / 64 + 2) * 64
    ensures Padded(msg, hashMode) == msg[..|msg| / 64 * 64] + LongFirst(msg[|msg| / 64 * 64..])
                                     + (Zeros(56) + LengthField(|msg|, hashMode))
  {
    hide LengthField;
    var k, q := |msg| / 64, |msg| % 64;
    var len := LengthField(|msg|, hashMode);
    var head, last := msg[..k*64], msg[k*64..];
    assert Gap(|msg|) == 119 - q;
    TwoBlocks(q, len);
    assert msg == head + last;
    assert Padded(msg, hashMode) == head + last + ([0x80] + Zeros(119 - q) + len);
    assert head + last + ([0x80] + Zeros(63 - q) + (Zeros(56) + len)) == head + LongFirst(last) + (Zeros(56) + len);
  }

  lemma TwoBlocks(q: nat, len: seq<byte>)
    requires 56 <= q < 64
    ensures [0x80] + Zeros(119 - q) + len == [0x80] + Zeros(63 - q) + (Zeros(56) + len)
  {}

  /** __sha_padding, and with `hashMode` set __sha256_padding: the padding of the message in
      place; what lies behind the padded message is not touched. */
  method ShaPadding(text: array<byte>, dataSize: nat, hashMode: bool) returns (size: nat)
    requires PaddedSize(dataSize) <= text.Length && PaddedSize(dataSize) < 0x1_0000_0000
    modifies text
    ensures size == PaddedSize(dataSize)
    ensures text[..size] == Padded(old(text[..dataSize]), hashMode)
    ensures text[size..] == old(text[size..])
  {
    hide Padding;
    var q := dataSize % 64;
    var buf := new byte[64];
    Clear(buf);
    ghost var msg, behind := text[..dataSize], text[PaddedSize(dataSize)..];
    if q == 0 {
      size := PadAligned(text, buf, dataSize, hashMode);
    } else if q < 56 {
      size := PadShort(text, buf, dataSize, hashMode);
    } else {
      size := PadLong(text, buf, dataSize, hashMode);
    }
    PaddedLength(msg, hashMode);
    assert text[..] == Padded(msg, hashMode) + behind;
  }

  lemma PaddedLength(msg: seq<byte>, bigEndian: bool)
    ensures |Padded(msg, bigEndian)| == PaddedSize(|msg|)
  {}

  // ---------------------------------------------------------------- reading a padded message back

  function Number(s: seq<byte>): nat {
    if s == [] then 0 else s[0] + 256 * Number(s[1..])
  }

  /** Read the length field of a padded message and cut the message off. */
  function Unpad(t: seq<byte>, bigEndian: bool): seq<byte> {
    if |t| < 8 then []
    else
      var field := t[|t| - 8..];
      var n := Number(if bigEndian then Reversed(field) else field) / 8;
      if n <= |t| then t[..n] else []
  }

  lemma NumberOf4(a: seq<byte>, b: seq<byte>)
    requires |a| == 4
    ensures Number(a + b) == a[0] + 256 * (a[1] + 256 * (a[2] + 256 * (a[3] + 256 * Number(b))))
  {
    var t := a + b;
    var t1 := t[1..];
    var t2 := t1[1..];
    var t3 := t2[1..];
    assert t3[1..] == b;
    assert Number(t) == a[0] + 256 * Number(t1);
    assert Number(t1) == a[1] + 256 * Number(t2);
    assert Number(t2) == a[2] + 256 * Number(t3);
    assert Number(t3) == a[3] + 256 * Number(b);
  }

  lemma StoredNumber(w: nat, b: seq<byte>)
    requires w < 0x1_0000_0000
    ensures Number(Stored(w) + b) == w + 0x1_0000_0000 * Number(b)
  {
    NumberOf4(Stored(w), b);
    WordFromBytes(w);
  }

  lemma LengthReadBack(n: nat)
    requires n < 0x2000_0000_0000_0000
    ensures Number(LittleEndian8(n * 8)) == n * 8
  {
    var v := n * 8;
    var lo, hi := v % 0x1_0000_0000, v / 0x1_0000_0000;
    hide Stored;
    StoredNumber(lo, Stored(hi));
    StoredNumber(hi, []);
    assert Stored(hi) + [] == Stored(hi);
  }

  /** Padding can be undone: the message comes back from its padding, for both byte orders. */
  lemma UnpadPadded(msg: seq<byte>, bigEndian: bool)
    requires |msg| < 0x2000_0000_0000_0000
    ensures Unpad(Padded(msg, bigEndian), bigEndian) == msg
  {
    hide LittleEndian8, Number;
    var t := Padded(msg, bigEndian);
    var field := LengthField(|msg|, bigEndian);
    assert t[|t| - 8..] == field;
    LengthReadBack(|msg|);
    if bigEndian {
      assert Reversed(field) == LittleEndian8(|msg| * 8);
    }
    assert t[..|msg|] == msg;
  }

  /** Different messages, of any lengths, never pad to the same blocks. */
  lemma PaddingInjective(m1: seq<byte>, m2: seq<byte>, bigEndian: bool)
    requires |m1| < 0x2000_0000_0000_0000 && |m2| < 0x2000_0000_0000_0000
    requires Padded(m1, bigEndian) == Padded(m2, bigEndian)
    ensures m1 == m2
  {
    UnpadPadded(m1, bigEndian);
    UnpadPadded(m2, bigEndian);
  }
}
