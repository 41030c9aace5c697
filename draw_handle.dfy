/**
 * Draw resource handles: a 31-bit resource index and a handedness bit packed
 * into one unsigned 32-bit word (bit 31 set means the object's matrix
 * inverts the front-face winding), plus a range of consecutive handles.
 */
module DrawHandle {
  import OI = OffsetIndices

  /** Bit 31: the object needs its front-face winding inverted. */
  const INVERTED_HANDEDNESS: bv32 := 0x8000_0000
  /** Bits 0..30: the index into the resource arrays. */
  const INDEX_MASK: bv32 := 0x7FFF_FFFF

  /** A nullable reference to an object the draw manager does not own. */
  datatype Ref = Null | Ptr(address: nat)

  /** `ResourceHandle`; `ResourceHandle(uint raw_)` is the datatype constructor. */
  datatype ResourceHandle = ResourceHandle(raw: bv32) {

    /** `has_inverted_handedness`: the top bit of the raw word is set. */
    function HasInvertedHandedness(): (r: bool)
      ensures r <==> raw >= 0x8000_0000
    {
      raw & INVERTED_HANDEDNESS != 0
    }

    /** The resource index: the raw word without its handedness bit. */
    function ResourceIndex(): (r: bv32)
      ensures r < 0x8000_0000
      ensures r & INVERTED_HANDEDNESS == 0
    {
      raw & INDEX_MASK
    }
  }

  /**
   * `ResourceHandle(uint index, bool inverted_handedness)`: stores `index`
   * and then sets or clears bit 31 from the handedness.
   */
  function MakeHandle(index: bv32, invertedHandedness: bool): (h: ResourceHandle)
    ensures h.HasInvertedHandedness() == invertedHandedness
    ensures h.ResourceIndex() == index & INDEX_MASK
  {
    if invertedHandedness then ResourceHandle(index | INVERTED_HANDEDNESS)
    else ResourceHandle(index & !INVERTED_HANDEDNESS)
  }

  /** An index below 2^31 survives packing unchanged. */
  lemma {:induction false} MakeHandleKeepsIndex(index: bv32, invertedHandedness: bool)
    requires index < 0x8000_0000
    ensures MakeHandle(index, invertedHandedness).ResourceIndex() == index
  {
  }

  lemma {:induction false} SetBitRestoresRaw(raw: bv32)
    requires raw & INVERTED_HANDEDNESS != 0
    ensures (raw & INDEX_MASK) | INVERTED_HANDEDNESS == raw
  {
  }

  lemma {:induction false} ClearBitRestoresRaw(raw: bv32)
    requires raw & INVERTED_HANDEDNESS == 0
    ensures (raw & INDEX_MASK) & !INVERTED_HANDEDNESS == raw
  {
  }

  /** Splitting a handle into its two parts and packing them again is the identity. */
  lemma {:induction false} RebuildFromParts(h: ResourceHandle)
    ensures MakeHandle(h.ResourceIndex(), h.HasInvertedHandedness()) == h
  {
    if h.HasInvertedHandedness() {
      SetBitRestoresRaw(h.raw);
    } else {
      ClearBitRestoresRaw(h.raw);
    }
  }

  /** Handles are equal exactly when their indices and handedness agree. */
  lemma {:induction false} HandleDeterminedByParts(a: ResourceHandle, b: ResourceHandle)
    ensures a == b <==>
      a.ResourceIndex() == b.ResourceIndex() && a.HasInvertedHandedness() == b.HasInvertedHandedness()
  {
    RebuildFromParts(a);
    RebuildFromParts(b);
  }

  /** Every inverted handle sorts after every non-inverted one. */
  lemma {:induction false} InvertedSortLast(a: ResourceHandle, b: ResourceHandle)
    requires a.HasInvertedHandedness() && !b.HasInvertedHandedness()
    ensures a.raw > b.raw
  {
  }

  /** An inverted handle's raw word is its resource index plus 2^31. */
  lemma {:induction false} InvertedRawIsIndexPlusBit(h: ResourceHandle)
    requires h.HasInvertedHandedness()
    ensures h.raw == h.ResourceIndex() + INVERTED_HANDEDNESS
  {
  }

  /** A non-inverted handle's raw word is its resource index. */
  lemma {:induction false} PlainRawIsIndex(h: ResourceHandle)
    requires !h.HasInvertedHandedness()
    ensures h.raw == h.ResourceIndex()
  {
  }

  /**
   * `ResourceHandleRange`: `count` consecutive handles starting at
   * `handleFirst`, sharing handedness and state.
   */
  datatype ResourceHandleRange = ResourceHandleRange(handleFirst: ResourceHandle, count: bv32) {

    /**
     * `index_range`: starts at the first handle's raw word, so for an inverted
     * handle it starts 2^31 above the resource index (InvertedRawIsIndexPlusBit).
     */
    function IndexRange(): (r: OI.IndexRange)
      ensures r.size == count as int
      ensures r.start == handleFirst.raw as int
    {
      OI.IndexRange(handleFirst.raw as int, count as int)
    }

    /** `operator ResourceHandle`: the first handle of the range. */
    function AsHandle(): (h: ResourceHandle)
      ensures h == handleFirst
    {
      handleFirst
    }
  }

  /** `ResourceHandleRange(ResourceHandle handle)`: a range of one handle. */
  function SingleRange(handle: ResourceHandle): (r: ResourceHandleRange)
    ensures r.AsHandle() == handle
    ensures r.IndexRange() == OI.IndexRange(handle.raw as int, 1)
  {
    ResourceHandleRange(handle, 1)
  }

  /** `ResourceHandleRange(ResourceHandle handle, uint len)`. */
  function MakeRange(handle: ResourceHandle, len: bv32): (r: ResourceHandleRange)
    ensures r.AsHandle() == handle
    ensures r.IndexRange() == OI.IndexRange(handle.raw as int, len as int)
  {
    ResourceHandleRange(handle, len)
  }

  /** `ObjectRef`: the object, its dupli origin if any, and its handle range. */
  datatype ObjectRef = ObjectRef(object: Ref, dupliObject: Ref, dupliParent: Ref, handle: ResourceHandleRange) {

    /** `is_dupli`: the object comes from a dupli system. */
    function IsDupli(): (r: bool)
      ensures r <==> dupliObject != Null
    {
      dupliObject.Ptr?
    }
  }
}
