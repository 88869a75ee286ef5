/** The mask register of a vector instruction: bit `i` decides about element `i`. */
module Masks {
  import opened Words
  import opened Digits
  import opened Wrappers

  predicate MaskCovers(mask: Option<seq<Byte>>, count: int) {
    mask.Some? ==> count <= 8 * |mask.value|
  }

  /** Mask bit `i`; no mask means all elements are active. */
  predicate Active(mask: Option<seq<Byte>>, i: nat)
    requires MaskCovers(mask, i + 1)
  {
    mask.None? || (mask.value[i / 8] as nat) / Pow2(i % 8) % 2 == 1
  }

  /** Bit `i` of the mask register, read as one little-endian number, decides. */
  lemma ActiveIsMaskBit(mask: seq<Byte>, i: nat)
    requires i < 8 * |mask|
    ensures Active(Some(mask), i) <==> LittleEndian(mask, 0, |mask|) / Pow2(i) % 2 == 1
    ensures Active(None, i)
  {
    LittleEndianBit(mask, |mask|, i);
  }
}
