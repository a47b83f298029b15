/** The page bitmap that protects the top of DRAM, and the size field of a secure region. */
module DrmBitmap {
  import opened Bytes

  const DRAM_BASE: nat := 0x4000_0000
  const BITMAP_BITS: nat := 1024 * 256   // one 1 GiB bank, one bit per 4 KiB page
  const ADDRESSES: nat := 0x10_0000       // 20 address bits in a control word
  const WORD: nat := 0x1_0000_0000

  type Bitmap = b: seq<bool> | |b| == BITMAP_BITS witness seq(BITMAP_BITS, _ => false)

  // ---------------------------------------------------------------- the device

  /** The control word `(data << 24) | (8 << 20) | addr`.  An address beyond its 20 bits ends up
      in the length. */
  function Ctrl(data: nat, addr: nat): nat
    requires data < 256 && addr < 0x20_0000
  {
    data * 0x100_0000 + 8 * 0x10_0000 + addr
  }

  function CtrlData(ctrl: nat): nat { ctrl / 0x100_0000 % 256 }
  function CtrlLen(ctrl: nat): nat { ctrl / 0x10_0000 % 16 }
  function CtrlAddr(ctrl: nat): nat { ctrl % 0x10_0000 }

  /** What the device does with a control word of equal data bits: it sets that many bits of
      the bank's bitmap from the address on, as far as the bitmap reaches. */
  function Poke(b: Bitmap, ctrl: nat): Bitmap {
    Fill(b, CtrlAddr(ctrl), CtrlLen(ctrl), CtrlData(ctrl) == 0xff)
  }

  function Fill(b: Bitmap, addr: nat, len: nat, on: bool): Bitmap {
    seq(BITMAP_BITS, i requires 0 <= i < BITMAP_BITS => if addr <= i < addr + len then on else b[i])
  }

  lemma PokeFills(b: Bitmap, on: bool, addr: nat)
    requires addr < 0x20_0000
    ensures Poke(b, Ctrl(if on then 0xff else 0, addr)) == Fill(b, addr % ADDRESSES, 8 + addr / ADDRESSES, on)
  {
    var ctrl := Ctrl(if on then 0xff else 0, addr);
    assert CtrlAddr(ctrl) == addr % ADDRESSES && CtrlLen(ctrl) == 8 + addr / ADDRESSES
        && CtrlData(ctrl) == if on then 0xff else 0;
  }

  // ---------------------------------------------------------------- the region

  /** DRAM size in megabytes, as the driver computes it with 32-bit wrap-around. */
  function DramMB(dramEnd: nat): nat {
    (dramEnd - DRAM_BASE) % WORD / 0x10_0000
  }

  /** The page `p` pages above the DRAM base lies in the region of the last `drm` megabytes. */
  predicate InRegion(dram: nat, drm: nat, p: nat) {
    dram - drm <= p / 256 < dram
  }

  /** The page is protected: its bank is selected and its bit is set. */
  predicate Protected(bank: nat, bitmap: Bitmap, p: nat) {
    p / BITMAP_BITS == bank && bitmap[p % BITMAP_BITS]
  }

  /** Whole megabytes in a number of bytes. */
  function Megabytes(bytes: nat): (m: nat)
    ensures m * 0x10_0000 <= bytes < (m + 1) * 0x10_0000
  {
    bytes / 0x10_0000
  }

  /** The bus address lies in a protected page. */
  predicate AddressProtected(bank: nat, bitmap: Bitmap, x: nat) {
    x >= DRAM_BASE && Protected(bank, bitmap, (x - DRAM_BASE) / 0x1000)
  }

  /** The bus address is one of the last `drmSize` bytes below `dramEnd`, both in whole megabytes. */
  predicate InTop(dramEnd: nat, drmSize: nat, x: nat) {
    Megabytes(dramEnd) * 0x10_0000 - Megabytes(drmSize) * 0x10_0000 <= x < Megabytes(dramEnd) * 0x10_0000
  }

  /** Of the bus addresses from the DRAM base on, exactly those of the region are protected. */
  predicate GuardsTop(bank: nat, bitmap: Bitmap, dramEnd: nat, drmSize: nat) {
    forall x: nat | DRAM_BASE <= x < WORD :: AddressProtected(bank, bitmap, x) <==> InTop(dramEnd, drmSize, x)
  }

  /** First bit written for the region. */
  function FirstBit(dram: nat, drm: nat): nat {
    (dram - drm) % 1024 * 256
  }

  /** Is bit `i` written by a run of `n` bits from `first`?  Addresses beyond their 20 bits start
      over, with a length of nine. */
  predicate Reached(first: nat, n: nat, i: nat) {
    first <= i < first + n || (first + n > ADDRESSES && i + ADDRESSES <= first + n)
  }

  /** Exactly the bits of a run are set, as far as the bitmap reaches. */
  predicate OnlySet(b: Bitmap, first: nat, n: nat) {
    forall i :: 0 <= i < BITMAP_BITS ==> (b[i] <==> Reached(first, n, i))
  }

  /** The driver's 32-bit arithmetic for the first bit. */
  lemma FirstBitInWords(dram: nat, drm: nat)
    requires dram < 4096 && drm < 4096
    ensures (dram - drm) % WORD % 1024 * 256 == FirstBit(dram, drm)
    ensures FirstBit(dram, drm) < BITMAP_BITS && FirstBit(dram, drm) % 8 == 0
  {
    var m: int := dram - drm;
    WrappedDifference(m);
    Aligned(m % 1024);
  }

  lemma WrappedDifference(m: int)
    requires -4096 < m < 4096
    ensures m % WORD % 1024 == m % 1024
  {
    assert m % WORD == if m < 0 then m + WORD else m;
    var q, r := m / 1024, m % 1024;
    assert m + WORD == (q + 0x40_0000) * 1024 + r;
  }

  lemma Aligned(r: nat)
    requires r < 1024
    ensures r * 256 < BITMAP_BITS && r * 256 % 8 == 0
  {
    assert r * 256 == (r * 32) * 8;
  }

  class DrmDevice {
    var bitmap: Bitmap
    var bank: nat

    /** sunxi_drm_config.  A region below one megabyte rounds to nothing; size 0 leaves the
        bank selection alone. */
    method Config(dramEnd: nat, drmSize: nat) returns (ret: int)
      requires dramEnd < WORD && drmSize < WORD
      modifies this
      ensures ret == 0
      ensures drmSize == 0 ==> bank == old(bank)
      ensures drmSize > 0 ==> bank == SelectedBank(DramMB(dramEnd))
      ensures var dram, drm := DramMB(dramEnd), drmSize / 0x10_0000;
        OnlySet(bitmap, FirstBit(dram, drm), drm * 256)
      ensures dramEnd >= DRAM_BASE ==>
                (GuardsTop(bank, bitmap, dramEnd, drmSize) <==>
                 Protectable(Megabytes(dramEnd - DRAM_BASE), Megabytes(drmSize)))
    {
      var dram := (dramEnd - DRAM_BASE) % WORD / 0x10_0000;
      var drm := drmSize / 0x10_0000;
      assert dram == DramMB(dramEnd);
      FirstBitInWords(dram, drm);
      hide FirstBit, Poke, Fill, DramMB, OnlySet;
      ClearAll();
      if drmSize == 0 {
        if dramEnd >= DRAM_BASE {
          AddressesExactly(dramEnd, drmSize, bank, bitmap);
        }
        return 0;
      }
      SetRun((dram - drm) % WORD % 1024 * 256, drm * 256);
      if dram > 2048 {
        bank := 2;
      } else if dram > 1024 {
        bank := 1;
      } else {
        bank := 0;
      }
      if dramEnd >= DRAM_BASE {
        AddressesExactly(dramEnd, drmSize, bank, bitmap);
      }
      ret := 0;
    }

    /** The first loop: eight bits at a time, all cleared. */
    method ClearAll()
      modifies `bitmap
      ensures forall first: nat | first < BITMAP_BITS :: OnlySet(bitmap, first, 0)
    {
      var i := 0;
      while i < BITMAP_BITS
        invariant 0 <= i <= BITMAP_BITS && i % 8 == 0
        invariant forall k :: 0 <= k < i ==> !bitmap[k]
      {
        PokeFills(bitmap, false, i);
        bitmap := Poke(bitmap, Ctrl(0, i));
        i := i + 8;
      }
    }

    /** The second loop: `length` bits set from `first` on. */
    method SetRun(first: nat, length: nat)
      requires first < BITMAP_BITS && length < ADDRESSES && first % 8 == length % 8 == 0 && OnlySet(bitmap, first, 0)
      modifies `bitmap
      ensures OnlySet(bitmap, first, length)
    {
      hide Poke, Fill, OnlySet;
      var i := 0;
      while i < length
        invariant 0 <= i <= length && i % 8 == 0 && OnlySet(bitmap, first, i)
      {
        PokeFills(bitmap, true, first + i);
        RunGrows(bitmap, first, i);
        bitmap := Poke(bitmap, Ctrl(0xff, first + i));
        i := i + 8;
      }
    }
  }

  /** The next control word of a run adds eight bits to it. */
  lemma RunGrows(b: Bitmap, first: nat, i: nat)
    requires first < BITMAP_BITS && i < ADDRESSES && first % 8 == i % 8 == 0 && OnlySet(b, first, i)
    ensures OnlySet(Fill(b, (first + i) % ADDRESSES, 8 + (first + i) / ADDRESSES, true), first, i + 8)
  {
    var a := first + i;
    var after := Fill(b, a % ADDRESSES, 8 + a / ADDRESSES, true);
    forall k | 0 <= k < BITMAP_BITS ensures after[k] <==> Reached(first, i + 8, k) {
      assert after[k] <==> b[k] || a % ADDRESSES <= k < a % ADDRESSES + 8 + a / ADDRESSES;
      if a < ADDRESSES {
        assert a % ADDRESSES == a && a / ADDRESSES == 0;
      } else {
        assert a % ADDRESSES == a - ADDRESSES && a / ADDRESSES == 1;
      }
    }
  }

  function SelectedBank(dram: nat): nat {
    if dram > 2048 then 2 else if dram > 1024 then 1 else 0
  }

  /** The bitmap and bank the driver leaves for a region. */
  predicate Configured(dram: nat, drm: nat, bank: nat, bitmap: Bitmap) {
    bank == SelectedBank(dram) && OnlySet(bitmap, FirstBit(dram, drm), drm * 256)
  }

  lemma PageOfMegabyte(p: nat)
    ensures p / BITMAP_BITS == p / 256 / 1024
    ensures p % BITMAP_BITS == p / 256 % 1024 * 256 + p % 256
  {
    var m := p / 256;
    assert p == m * 256 + p % 256 && m == m / 1024 * 1024 + m % 1024;
    assert p == m / 1024 * BITMAP_BITS + (m % 1024 * 256 + p % 256);
  }

  /** For a region inside one bank, a page is protected if and only if it lies in the region. */
  lemma OneBankProtects(dram: nat, drm: nat, bank: nat, bitmap: Bitmap, p: nat)
    requires 0 < drm <= dram <= 3072 && Configured(dram, drm, bank, bitmap)
    requires (dram - drm) / 1024 == (dram - 1) / 1024
    ensures Protected(bank, bitmap, p) <==> InRegion(dram, drm, p)
  {
    var m, start := p / 256, dram - drm;
    PageOfMegabyte(p);
    assert bank == (dram - 1) / 1024;
    assert start == bank * 1024 + start % 1024;
    assert FirstBit(dram, drm) == start % 1024 * 256;
    if m / 1024 == bank {
      assert m == bank * 1024 + m % 1024;
    }
  }

  /** Does the driver's arithmetic put the whole region, and nothing else, behind the bitmap? */
  predicate Protectable(dram: nat, drm: nat) {
    || drm == 0
    || (drm <= dram <= 3072 && (dram - drm) / 1024 == (dram - 1) / 1024)
    || (dram == 1024 && drm % 1024 == 0)
  }

  /** For every DRAM and region size: the protected pages are exactly the region if and only if
      the region is empty, or lies inside one of the first three 1 GiB banks, or a DRAM of
      exactly one bank is asked for in whole banks. */
  lemma ProtectsExactly(dram: nat, drm: nat, bank: nat, bitmap: Bitmap)
    requires dram < 4096 && drm < 4096 && Configured(dram, drm, bank, bitmap)
    ensures (forall p: nat :: Protected(bank, bitmap, p) <==> InRegion(dram, drm, p)) <==> Protectable(dram, drm)
  {
    assert OnlySet(bitmap, FirstBit(dram, drm), drm * 256);
    hide Protected, InRegion, Configured, OnlySet;
    if drm == 0 {
      NothingProtected(dram, bank, bitmap);
    } else if Protectable(dram, drm) {
      forall p: nat ensures Protected(bank, bitmap, p) <==> InRegion(dram, drm, p) {
        if drm <= dram {
          OneBankProtects(dram, drm, bank, bitmap, p);
        } else {
          WholeBank(drm, bank, bitmap, p);
        }
      }
    } else {
      var p := WrongPage(dram, drm, bank, bitmap);
    }
  }

  /** The same for bus addresses. */
  lemma AddressesExactly(dramEnd: nat, drmSize: nat, bank: nat, bitmap: Bitmap)
    requires DRAM_BASE <= dramEnd < WORD && drmSize < WORD
    requires drmSize > 0 ==> bank == SelectedBank(DramMB(dramEnd))
    requires OnlySet(bitmap, FirstBit(DramMB(dramEnd), Megabytes(drmSize)), Megabytes(drmSize) * 256)
    ensures GuardsTop(bank, bitmap, dramEnd, drmSize) <==>
            Protectable(Megabytes(dramEnd - DRAM_BASE), Megabytes(drmSize))
  {
    var dram, drm := DramMB(dramEnd), Megabytes(drmSize);
    assert dram == Megabytes(dramEnd - DRAM_BASE) <= 3072 && drm < 4096 && (drm > 0 ==> drmSize > 0);
    hide Protected, OnlySet, InRegion, Megabytes, DramMB, FirstBit;
    if drm == 0 {
      NothingProtected(dram, bank, bitmap);
      assert GuardsTop(bank, bitmap, dramEnd, drmSize);
    } else {
      assert Configured(dram, drm, bank, bitmap);
      ProtectsExactly(dram, drm, bank, bitmap);
      hide Configured, Protectable;
      if Protectable(dram, drm) {
        forall x: nat | DRAM_BASE <= x < WORD
          ensures AddressProtected(bank, bitmap, x) <==> InTop(dramEnd, drmSize, x)
        {
          AddressInRegion(dramEnd, drmSize, x);
        }
      } else {
        var p := WrongPage(dram, drm, bank, bitmap);
        var x := DRAM_BASE + p * 0x1000;
        AddressInRegion(dramEnd, drmSize, x);
        assert (x - DRAM_BASE) / 0x1000 == p;
        assert AddressProtected(bank, bitmap, x) != InTop(dramEnd, drmSize, x);
      }
    }
  }

  /** A region in pages is one in addresses. */
  lemma AddressInRegion(dramEnd: nat, drmSize: nat, x: nat)
    requires DRAM_BASE <= dramEnd < WORD && DRAM_BASE <= x
    ensures InRegion(DramMB(dramEnd), Megabytes(drmSize), (x - DRAM_BASE) / 0x1000) <==> InTop(dramEnd, drmSize, x)
  {
    var above := x - DRAM_BASE;
    assert above / 0x1000 / 256 == Megabytes(above);
    assert Megabytes(dramEnd) == DramMB(dramEnd) + 1024;
  }

  lemma NothingProtected(dram: nat, bank: nat, bitmap: Bitmap)
    requires OnlySet(bitmap, FirstBit(dram, 0), 0)
    ensures forall p: nat :: !Protected(bank, bitmap, p) && !InRegion(dram, 0, p)
  {}

  lemma WholeBank(drm: nat, bank: nat, bitmap: Bitmap, p: nat)
    requires 0 < drm < 4096 && drm % 1024 == 0 && Configured(1024, drm, bank, bitmap)
    ensures Protected(bank, bitmap, p) <==> InRegion(1024, drm, p)
  {
    PageOfMegabyte(p);
    assert FirstBit(1024, drm) == 0 && drm >= 1024;
  }

  /** Otherwise some page of the region is open, or some other page is protected. */
  lemma WrongPage(dram: nat, drm: nat, bank: nat, bitmap: Bitmap) returns (p: nat)
    requires dram < 4096 && 0 < drm < 4096 && Configured(dram, drm, bank, bitmap) && !Protectable(dram, drm)
    ensures !(Protected(bank, bitmap, p) <==> InRegion(dram, drm, p))
    ensures dram <= 3072 ==> p < 3 * BITMAP_BITS
  {
    if dram > 1024 || drm <= dram {
      p := if dram > 3072 then (dram - 1) * 256 else if drm <= dram then (dram - drm) * 256 else 0;
    } else {
      p := WrongPageBelow(dram, drm, bank, bitmap);
    }
    PageOfMegabyte(p);
  }

  /** The same for a region larger than a DRAM of at most one bank. */
  lemma WrongPageBelow(dram: nat, drm: nat, bank: nat, bitmap: Bitmap) returns (p: nat)
    requires dram <= 1024 && dram < drm < 4096 && Configured(dram, drm, bank, bitmap) && !Protectable(dram, drm)
    ensures !(Protected(bank, bitmap, p) <==> InRegion(dram, drm, p))
    ensures dram <= 3072 ==> p < 3 * BITMAP_BITS
  {
    var first := FirstBit(dram, drm);
    if dram == 0 {
      p := first;
      assert Reached(first, drm * 256, first);
    } else if dram < 1024 {
      p := BITMAP_BITS - 1;
      EndReached(dram, drm);
    } else {
      p := first - 1;
      assert !Reached(first, drm * 256, p);
    }
    PageOfMegabyte(p);
  }

  /** A region larger than the DRAM reaches the end of the bitmap. */
  lemma EndReached(dram: nat, drm: nat)
    requires dram < drm < 4096
    ensures Reached(FirstBit(dram, drm), drm * 256, BITMAP_BITS - 1)
  {
    var m := (dram - drm) % 1024;
    assert (m + drm) % 1024 == dram % 1024;
  }

  // ---------------------------------------------------------------- size field of a secure region

  function Log2(data: nat): nat {
    if data < 2 then 0 else 1 + Log2(data / 2)
  }

  lemma {:induction false} Log2Bounds(data: nat)
    requires data > 0
    ensures Pow2(Log2(data)) <= data < Pow2(Log2(data) + 1)
  {
    if data >= 2 {
      Log2Bounds(data / 2);
    } else {
      assert Pow2(0) == 1 && Pow2(1) == 2 * Pow2(0);
    }
  }

  /** __tzasc_calc_2_power: the position of the highest bit set, 0 for 0. */
  method CalcTwoPower(data: nat) returns (r: nat)
    ensures data == 0 ==> r == 0
    ensures data > 0 ==> Pow2(r) <= data < Pow2(r + 1)
  {
    var d, ret := data / 2, 1;
    while d > 0
      invariant ret >= 1 && Log2(data) == if d > 0 then ret + Log2(d) else ret - 1
    {
      d := d / 2;
      ret := ret + 1;
    }
    r := ret - 1;
    if data > 0 {
      Log2Bounds(data);
    }
  }

  /** The size encoded in a region attribute: `2^(field + 1)` bytes. */
  function EncodedSize(field: nat): nat {
    Pow2(field + 1)
  }

  /** The field whose encoded size is the power of two at or just below the size, 32 KiB at least. */
  predicate FieldFor(size: nat, field: nat) {
    if size < 0x8000 then EncodedSize(field) == 0x8000
    else EncodedSize(field) <= size < 2 * EncodedSize(field)
  }

  /** The size field written by sunxi_smc_config. */
  method SizeField(size: nat) returns (field: nat)
    ensures FieldFor(size, field)
  {
    var units := size / (32 * 1024);
    var r := CalcTwoPower(units);
    field := r + 0xE;
    Pow2Sum(r, 15);
    Pow15();
    ScaleUnits(size, units, Pow2(r));
    assert Pow2(r + 1) == 2 * Pow2(r);
    assert Pow2(0) == 1;
  }

  lemma ScaleUnits(size: nat, units: nat, p: nat)
    requires units == size / 0x8000
    ensures p <= units < 2 * p ==> p * 0x8000 <= size < 2 * (p * 0x8000)
  {}

  lemma Pow15()
    ensures Pow2(15) == 0x8000
  {
    assert Pow2(5) == 32 by {
      assert Pow2(5) == 2 * Pow2(4) && Pow2(4) == 2 * Pow2(3) && Pow2(3) == 2 * Pow2(2)
          && Pow2(2) == 2 * Pow2(1) && Pow2(1) == 2;
    }
    Pow2Sum(5, 5);
    Pow2Sum(10, 5);
  }

  /** The region's attribute covers its whole size exactly when the size is a power of two
      of at least 32 KiB; any other size is protected only up to the power of two below, or
      rounded up to 32 KiB. */
  lemma SizeFieldExact(size: nat, field: nat)
    requires FieldFor(size, field)
    ensures EncodedSize(field) == size <==> size >= 0x8000 && exists k: nat :: size == Pow2(k)
  {
    if size >= 0x8000 {
      if exists k: nat :: size == Pow2(k) {
        var k: nat :| size == Pow2(k);
        Pow2Bracket(field + 1, k);
      }
    }
  }

  lemma Pow2Bracket(a: nat, b: nat)
    requires Pow2(a) <= Pow2(b) < 2 * Pow2(a)
    ensures a == b
  {
    Pow2Grows(a, b);
    Pow2Grows(b, a);
  }

  lemma {:induction false} Pow2Grows(a: nat, b: nat)
    ensures a < b ==> 2 * Pow2(a) <= Pow2(b)
    decreases b
  {
    if a + 1 < b {
      Pow2Grows(a, b - 1);
    }
  }
}
