// Bit fields of a 32-bit register word, as the drivers read and write them
// with shift-and-mask expressions.
module WordFields {

  type Shift = s: bv6 | s < 32 witness 0

  /** Replace the field `mask << shift` of `w` by the low bits of `v`; every other bit is kept. */
  function SetField(w: bv32, mask: bv32, shift: Shift, v: bv32): bv32 {
    (w & !Placed(mask, shift)) | Placed(v & mask, shift)
  }

  function Placed(bits: bv32, shift: Shift): bv32 {
    bits << shift
  }

  function Shifted(w: bv32, shift: Shift): bv32 {
    w >> shift
  }

  function GetField(w: bv32, mask: bv32, shift: Shift): bv32 {
    Shifted(w, shift) & mask
  }

  /** The low four bits of a C `int` in two's complement.  No field mask used here
      reaches further. */
  function Low(x: int): bv32 {
    (if x % 2 == 1 then 0x1 else 0) | (if x / 2 % 2 == 1 then 0x2 else 0)
    | (if x / 4 % 2 == 1 then 0x4 else 0) | (if x / 8 % 2 == 1 then 0x8 else 0)
  }

  /** The field widths used for pins: function select (3 or 4 bits in a 4-bit
      slot), pull and drive (2 bits in a 2-bit slot), data (1 bit). */
  predicate FieldOk(mask: bv32, shift: Shift) {
    || ((mask == 0xF || mask == 0x7) && shift <= 28 && shift & 3 == 0)
    || (mask == 0x3 && shift <= 30 && shift & 1 == 0)
    || mask == 0x1
  }

  lemma ReadBack(w: bv32, mask: bv32, shift: Shift, v: bv32)
    requires FieldOk(mask, shift)
    ensures GetField(SetField(w, mask, shift, v), mask, shift) == v & mask
  {}

  lemma OtherFieldKept(w: bv32, mask: bv32, s1: Shift, s2: Shift, v: bv32)
    requires FieldOk(mask, s1) && FieldOk(mask, s2) && s1 != s2
    ensures GetField(SetField(w, mask, s1, v), mask, s2) == GetField(w, mask, s2)
  {
    if mask == 0xF {
    } else if mask == 0x7 {
    } else if mask == 0x3 {
    } else {
      assert mask == 0x1;
    }
  }

  /** Setting a field keeps every bit outside it. */
  lemma OtherBitKept(w: bv32, mask: bv32, shift: Shift, v: bv32, bit: bv32)
    requires Placed(mask, shift) & bit == 0
    ensures SetField(w, mask, shift, v) & bit == w & bit
  {
    PlacedInside(mask, shift, v);
    hide Placed;
    BitThrough(w, Placed(mask, shift), Placed(v & mask, shift), bit);
  }

  lemma BitThrough(w: bv32, field: bv32, put: bv32, bit: bv32)
    requires field & bit == 0 && put & !field == 0
    ensures ((w & !field) | put) & bit == w & bit
  {}

  /** Two words that may differ only in one field. */
  predicate SameOutside(w1: bv32, w2: bv32, mask: bv32, shift: Shift) {
    w1 & !Placed(mask, shift) == w2 & !Placed(mask, shift)
  }

  lemma OverwriteForgets(w1: bv32, w2: bv32, mask: bv32, shift: Shift, v: bv32)
    requires SameOutside(w1, w2, mask, shift)
    ensures SetField(w1, mask, shift, v) == SetField(w2, mask, shift, v)
  {
    hide Placed;
  }

  lemma SetKeepsSameOutside(w1: bv32, w2: bv32, mask: bv32, shift: Shift, m': bv32, s': Shift, v: bv32)
    requires SameOutside(w1, w2, mask, shift)
    ensures SameOutside(SetField(w1, m', s', v), SetField(w2, m', s', v), mask, shift)
  {
    hide Placed;
    MaskedMerge(w1, !Placed(m', s'), Placed(v & m', s'), !Placed(mask, shift));
    MaskedMerge(w2, !Placed(m', s'), Placed(v & m', s'), !Placed(mask, shift));
  }

  lemma MaskedMerge(w: bv32, keep: bv32, put: bv32, out: bv32)
    ensures ((w & keep) | put) & out == ((w & out) & keep) | (put & out)
  {
    AndOverOr(w & keep, put, out);
    AndSwap(w, keep, out);
  }

  lemma AndOverOr(x: bv32, y: bv32, z: bv32)
    ensures (x | y) & z == (x & z) | (y & z)
  {}

  lemma AndSwap(x: bv32, y: bv32, z: bv32)
    ensures (x & y) & z == (x & z) & y
  {}

  lemma SelfSame(w: bv32, mask: bv32, shift: Shift)
    ensures SameOutside(w, w, mask, shift)
  {}

  lemma SetConfined(w: bv32, mask: bv32, shift: Shift, v: bv32)
    ensures SameOutside(SetField(w, mask, shift, v), w, mask, shift)
  {
    PlacedInside(mask, shift, v);
    ConfinedBits(w, Placed(mask, shift), Placed(v & mask, shift));
  }

  lemma PlacedInside(mask: bv32, shift: Shift, v: bv32)
    ensures Placed(v & mask, shift) & !Placed(mask, shift) == 0
  {}

  lemma ConfinedBits(w: bv32, field: bv32, put: bv32)
    requires put & !field == 0
    ensures ((w & !field) | put) & !field == w & !field
  {}
}
