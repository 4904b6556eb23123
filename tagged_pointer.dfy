/** `tagged_ptr`: a 64-bit word holding a 26-bit tag in its low bits and the
    pointer's bits above them. The pointer is modelled by its 64-bit integer
    value. */
module TaggedPointer {
  /** `TagBitsCount` */
  const TagBitsCount: bv64 := 26

  /** `TagMask`, `(1 << TagBitsCount) - 1` */
  const TagMask: bv64 := 0x3ff_ffff

  /** The mask is `TagBitsCount` one bits. */
  lemma TagMaskWidth()
    ensures TagMask == (1 << TagBitsCount) - 1
  {
  }

  /** Packing a tag below 2^26 with a pointer below 2^38 loses neither. */
  lemma PackRoundTrip(p: bv64, t: bv64)
    requires p < 0x40_0000_0000 && t <= 0x3ff_ffff
    ensures (t | (p << 26)) & 0x3ff_ffff == t
    ensures (t | (p << 26)) >> 26 == p
  {
  }

  /** Every word is the packing of its own tag and pointer. */
  lemma Unpack(w: bv64)
    ensures (w & 0x3ff_ffff) | ((w >> 26) << 26) == w
  {
  }

  class TaggedPtr {
    var ptr: bv64

    /** `ptr{ 0u }`: tag and pointer both read as 0. */
    constructor ()
      ensures ptr == 0 && GetPtr() == 0 && GetTag() == 0
    {
      ptr := 0;
    }

    /** `get_ptr()`: the bits above the tag, below 2^38. */
    function GetPtr(): (p: bv64)
      reads this
      ensures p < 0x40_0000_0000
      ensures (p << 26) | (ptr & 0x3ff_ffff) == ptr
    {
      ptr >> TagBitsCount
    }

    /** `get_tag()`: the low 26 bits. */
    function GetTag(): (t: bv64)
      reads this
      ensures t <= 0x3ff_ffff
      ensures t | ((ptr >> 26) << 26) == ptr
    {
      ptr & TagMask
    }

    /** `set_ptr(p)`: the tag is kept and the pointer becomes p, truncated to
        its low 38 bits by the shift. */
    method SetPtr(p: bv64)
      modifies this
      ensures ptr == old(GetTag()) | (p << 26)
      ensures GetTag() == old(GetTag())
      ensures GetPtr() == p & 0x3f_ffff_ffff
    {
      ptr := GetTag() | (p << TagBitsCount);
    }

    /** `set_tag(t)`: the pointer is kept and the tag becomes t; a tag of 2^26
        or more also sets pointer bits. */
    method SetTag(t: bv64)
      modifies this
      ensures ptr == t | (old(GetPtr()) << 26)
      ensures t <= 0x3ff_ffff ==> GetTag() == t && GetPtr() == old(GetPtr())
    {
      ptr := t | (GetPtr() << TagBitsCount);
    }

    /** `set_all(p, t)`: within range, both read back as set. */
    method SetAll(p: bv64, t: bv64)
      modifies this
      ensures ptr == t | (p << 26)
      ensures t <= 0x3ff_ffff && p < 0x40_0000_0000 ==> GetTag() == t && GetPtr() == p
    {
      ptr := t | (p << TagBitsCount);
    }
  }
}
