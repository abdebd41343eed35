/**
 * The type descriptor's layout helper and the size oracle
 * `oopDesc::size_given_klass`.
 *
 * The layout helper is one `jint`: positive for an instance (its size in
 * bytes, with bit 0 set when the size must come from the virtual
 * `oop_size`), negative for an array (a two-bit tag on top, then the header
 * size in bytes, the element type and log2 of the element size, one byte
 * each from the top down), and zero for every other shape. klass.hpp is not
 * part of this model; the field positions below are the ones its packing
 * functions use, and the lemmas at the end show the extractors read back
 * what the packing put in.
 */
module Klasses {
  import opened HeapWords

  const LhNeutralValue: int := 0
  const LhInstanceSlowPathBit: nat := 1
  const LhLog2ElementSizeMask: nat := 63
  /** `1 << _lh_element_type_shift`, `1 << _lh_header_size_shift`, `1 << _lh_array_tag_shift`. */
  const LhElementTypeUnit: nat := 0x100
  const LhHeaderSizeUnit: nat := 0x1_0000
  const LhArrayTagUnit: nat := 0x4000_0000
  /** `_lh_array_tag_type_value` (`~0x00`) and `_lh_array_tag_obj_value` (`~0x01`). */
  const LhArrayTagTypeValue: int := -1
  const LhArrayTagObjValue: int := -2
  const LogBytesPerLong: nat := 3

  /** `layout_helper_needs_slow_path`: bit 0 of an instance's helper. */
  predicate LayoutHelperNeedsSlowPath(lh: Jint)
    requires lh > LhNeutralValue
  {
    lh % 2 == LhInstanceSlowPathBit
  }

  /** `layout_helper_log2_element_size`: `lh & 63`. */
  function LayoutHelperLog2ElementSize(lh: Jint): (l2: nat)
    requires lh < LhNeutralValue
    ensures l2 <= LhLog2ElementSizeMask
  {
    lh % (LhLog2ElementSizeMask + 1)
  }

  /** `layout_helper_header_size`: `(lh >> 16) & 0xFF` (an arithmetic shift). */
  function LayoutHelperHeaderSize(lh: Jint): (h: nat)
    requires lh < LhNeutralValue
    ensures h < 0x100
  {
    (lh / LhHeaderSizeUnit) % 0x100
  }

  /**
   * What klass.hpp asserts of a helper it reads: an instance's size is a
   * positive, object-aligned number of words (unless the slow path decides),
   * and an array has a header and elements of at most eight bytes.
   */
  predicate WellFormedLayoutHelper(lh: Jint, minObjAlignmentInBytes: nat)
    requires ValidObjectAlignment(minObjAlignmentInBytes)
  {
    && (lh > LhNeutralValue && !LayoutHelperNeedsSlowPath(lh) ==>
          var words := lh / Pow2(LogHeapWordSize);
          words > 0 && words % (minObjAlignmentInBytes / HeapWordSize) == 0)
    && (lh < LhNeutralValue ==>
          LayoutHelperHeaderSize(lh) > 0 && LayoutHelperLog2ElementSize(lh) <= LogBytesPerLong)
  }

  /** The shapes whose size only the type's own virtual `oop_size` knows. */
  predicate UsesVirtualSize(lh: Jint)
  {
    lh == LhNeutralValue || (lh > LhNeutralValue && LayoutHelperNeedsSlowPath(lh))
  }

  /** An array's unrounded extent: `(length << log2esize) + header`. */
  function ArraySizeInBytes(lh: Jint, arrayLength: nat): nat
    requires lh < LhNeutralValue
  {
    arrayLength * Pow2(LayoutHelperLog2ElementSize(lh)) + LayoutHelperHeaderSize(lh)
  }

  /**
   * `size_given_klass`: the object's size in heap words. `arrayLength` is
   * the array's length field and `oopSize` what the type's virtual
   * `oop_size(this)` would answer; each is consulted only on its path.
   */
  function SizeGivenKlass(lh: Jint, arrayLength: nat, oopSize: int, minObjAlignmentInBytes: nat): (s: int)
    requires minObjAlignmentInBytes > 0
    ensures lh > LhNeutralValue && !LayoutHelperNeedsSlowPath(lh) ==>
      0 <= s * HeapWordSize <= lh < s * HeapWordSize + HeapWordSize
    ensures lh < LhNeutralValue ==>
      s >= 0 && s * HeapWordSize + HeapWordSize > ArraySizeInBytes(lh, arrayLength)
    ensures lh < LhNeutralValue && minObjAlignmentInBytes % HeapWordSize == 0 ==>
      s * HeapWordSize >= ArraySizeInBytes(lh, arrayLength)
  {
    if lh > LhNeutralValue then
      if !LayoutHelperNeedsSlowPath(lh) then lh / Pow2(LogHeapWordSize)
      else oopSize
    else if lh < LhNeutralValue then
      var aligned := AlignUp(ArraySizeInBytes(lh, arrayLength), minObjAlignmentInBytes);
      WordsCoverBytes(aligned, minObjAlignmentInBytes);
      aligned / HeapWordSize
    else
      oopSize
  }

  /**
   * A byte count turned into words by truncation covers all but less than a
   * word, and all of it when it is a multiple of an alignment that is
   * itself a whole number of words.
   */
  lemma WordsCoverBytes(bytes: nat, alignment: nat)
    requires alignment > 0 && bytes % alignment == 0
    ensures (bytes / HeapWordSize) * HeapWordSize <= bytes < (bytes / HeapWordSize) * HeapWordSize + HeapWordSize
    ensures alignment % HeapWordSize == 0 ==> (bytes / HeapWordSize) * HeapWordSize == bytes
  {
    if alignment % HeapWordSize == 0 {
      var q := bytes / alignment;
      var k := alignment / HeapWordSize;
      assert bytes == q * alignment;
      assert alignment == k * HeapWordSize;
      MulAssoc(q, k, HeapWordSize);
      assert bytes == (q * k) * HeapWordSize;
      MulDiv(q * k, HeapWordSize);
    }
  }

  /**
   * An instance helper without the slow-path bit is the whole answer: the
   * size is the helper scaled down to words, whatever the array length or
   * the virtual size would have been.
   */
  lemma InstanceSizeFromHelperAlone(lh: Jint, arrayLength: nat, oopSize: int, otherLength: nat, otherOopSize: int, alignment: nat)
    requires alignment > 0
    requires lh > LhNeutralValue && !LayoutHelperNeedsSlowPath(lh)
    ensures SizeGivenKlass(lh, arrayLength, oopSize, alignment) == lh / Pow2(LogHeapWordSize)
    ensures SizeGivenKlass(lh, arrayLength, oopSize, alignment) == SizeGivenKlass(lh, otherLength, otherOopSize, alignment)
  {
  }

  /** The neutral helper, or an instance helper with the slow-path bit, defers to the virtual size. */
  lemma VirtualSizeIsTaken(lh: Jint, arrayLength: nat, oopSize: int, alignment: nat)
    requires alignment > 0
    requires UsesVirtualSize(lh)
    ensures SizeGivenKlass(lh, arrayLength, oopSize, alignment) == oopSize
  {
  }

  /** An array's size is its byte extent rounded up once to the object alignment, in words. */
  lemma ArraySizeIsAlignedBytesInWords(lh: Jint, arrayLength: nat, oopSize: int, alignment: nat)
    requires alignment > 0
    requires lh < LhNeutralValue
    ensures SizeGivenKlass(lh, arrayLength, oopSize, alignment)
         == AlignUp(arrayLength * Pow2(LayoutHelperLog2ElementSize(lh)) + LayoutHelperHeaderSize(lh), alignment) / HeapWordSize
  {
  }

  /**
   * The size an array type's own `oop_size` computes: the byte extent
   * rounded up to whole words, and the word count then rounded up to the
   * object alignment in words.
   */
  function ArrayObjectSizeInWords(lh: Jint, arrayLength: nat, minObjAlignmentInBytes: nat): nat
    requires lh < LhNeutralValue
    requires ValidObjectAlignment(minObjAlignmentInBytes)
  {
    AlignUp(CeilDiv(ArraySizeInBytes(lh, arrayLength), HeapWordSize), minObjAlignmentInBytes / HeapWordSize)
  }

  /**
   * Rounding once, in bytes, to the object alignment gives the same word
   * count as the type's own two-step computation: the fast array path agrees
   * with the virtual call it avoids.
   */
  lemma {:induction false} ArraySizeMatchesVirtualSize(lh: Jint, arrayLength: nat, oopSize: int, alignment: nat)
    requires ValidObjectAlignment(alignment)
    requires lh < LhNeutralValue
    ensures SizeGivenKlass(lh, arrayLength, oopSize, alignment) == ArrayObjectSizeInWords(lh, arrayLength, alignment)
  {
    var x := ArraySizeInBytes(lh, arrayLength);
    var m := alignment / HeapWordSize;
    assert alignment == HeapWordSize * m;
    AlignUpInUnits(x, HeapWordSize, m);
  }

  /**
   * The assertions that close `size_given_klass`: for a well-formed helper
   * (and a virtual size that meets the same bar where it is used) the size
   * is positive and a whole number of object-alignment units.
   */
  lemma {:induction false} SizeIsPositiveAndAligned(lh: Jint, arrayLength: nat, oopSize: int, alignment: nat)
    requires ValidObjectAlignment(alignment)
    requires WellFormedLayoutHelper(lh, alignment)
    requires UsesVirtualSize(lh) ==> oopSize > 0 && oopSize % (alignment / HeapWordSize) == 0
    ensures var s := SizeGivenKlass(lh, arrayLength, oopSize, alignment);
      s > 0 && s % (alignment / HeapWordSize) == 0
  {
    if lh < LhNeutralValue {
      // The array path is the two-step size, a word count aligned up to
      // whole alignment units, and a non-empty header needs at least one word.
      ArraySizeMatchesVirtualSize(lh, arrayLength, oopSize, alignment);
      assert ArraySizeInBytes(lh, arrayLength) >= 1;
      assert CeilDiv(ArraySizeInBytes(lh, arrayLength), HeapWordSize) >= 1;
    }
  }

  /**
   * `instance_layout_helper(size, slow_path_flag)`: the size in words
   * shifted up to bytes, with the slow-path bit or-ed in.
   */
  function InstanceLayoutHelper(sizeInWords: nat, slowPath: bool): Jint
    requires sizeInWords < 0x1000_0000
  {
    sizeInWords * Pow2(LogHeapWordSize) + if slowPath then LhInstanceSlowPathBit else 0
  }

  /** An instance helper reads back as its size in words and its slow-path flag. */
  lemma {:induction false} InstanceLayoutHelperRoundTrip(sizeInWords: nat, slowPath: bool, arrayLength: nat, oopSize: int, alignment: nat)
    requires 0 < sizeInWords < 0x1000_0000
    requires alignment > 0
    ensures InstanceLayoutHelper(sizeInWords, slowPath) > LhNeutralValue
    ensures LayoutHelperNeedsSlowPath(InstanceLayoutHelper(sizeInWords, slowPath)) == slowPath
    ensures !slowPath ==> SizeGivenKlass(InstanceLayoutHelper(sizeInWords, slowPath), arrayLength, oopSize, alignment) == sizeInWords
  {
    var bit := if slowPath then LhInstanceSlowPathBit else 0;
    assert Pow2(LogHeapWordSize) == 8;
    InstanceFieldsReadBack(sizeInWords, bit);
  }

  /** The arithmetic behind `InstanceLayoutHelperRoundTrip`, on plain integers. */
  lemma InstanceFieldsReadBack(sizeInWords: nat, bit: nat)
    requires bit <= 1
    ensures (sizeInWords * 8 + bit) % 2 == bit
    ensures (sizeInWords * 8 + bit) / 8 == sizeInWords
  {
    var lh := sizeInWords * 8 + bit;
    assert lh == 2 * (sizeInWords * 4) + bit;
  }

  /**
   * `array_layout_helper(tag, hsize, etype, log2_esize)`: the four fields
   * or-ed together at their shifts; the tag makes the value negative.
   */
  function ArrayLayoutHelper(isObjArray: bool, headerSize: nat, elementType: nat, log2ElementSize: nat): (lh: Jint)
    requires headerSize < 0x100 && elementType < 0x100 && log2ElementSize <= LogBytesPerLong
  {
    var tag := if isObjArray then LhArrayTagObjValue else LhArrayTagTypeValue;
    tag * LhArrayTagUnit + headerSize * LhHeaderSizeUnit + elementType * LhElementTypeUnit + log2ElementSize
  }

  /** An array helper is negative and its header size and element size read back. */
  lemma {:induction false} ArrayLayoutHelperRoundTrip(isObjArray: bool, headerSize: nat, elementType: nat, log2ElementSize: nat)
    requires headerSize < 0x100 && elementType < 0x100 && log2ElementSize <= LogBytesPerLong
    ensures var lh := ArrayLayoutHelper(isObjArray, headerSize, elementType, log2ElementSize);
      && lh < LhNeutralValue
      && LayoutHelperHeaderSize(lh) == headerSize
      && LayoutHelperLog2ElementSize(lh) == log2ElementSize
  {
    var tag := if isObjArray then LhArrayTagObjValue else LhArrayTagTypeValue;
    var lh := ArrayLayoutHelper(isObjArray, headerSize, elementType, log2ElementSize);
    PackedFieldsReadBack(tag, headerSize, elementType, log2ElementSize);
  }

  /** The arithmetic behind `ArrayLayoutHelperRoundTrip`, on plain integers. */
  lemma PackedFieldsReadBack(tag: int, headerSize: nat, elementType: nat, log2ElementSize: nat)
    requires tag == -1 || tag == -2
    requires headerSize < 0x100 && elementType < 0x100 && log2ElementSize <= 3
    ensures var lh := tag * 0x4000_0000 + headerSize * 0x1_0000 + elementType * 0x100 + log2ElementSize;
      && (lh / 0x1_0000) % 0x100 == headerSize
      && lh % 64 == log2ElementSize
  {
    var lh := tag * 0x4000_0000 + headerSize * 0x1_0000 + elementType * 0x100 + log2ElementSize;
    var high := tag * 0x4000 + headerSize;
    var low := elementType * 0x100 + log2ElementSize;
    assert lh == high * 0x1_0000 + low && 0 <= low < 0x1_0000;
    assert lh / 0x1_0000 == high;
    assert high == (tag * 0x40) * 0x100 + headerSize;
    assert lh == (tag * 0x100_0000 + headerSize * 0x400 + elementType * 4) * 64 + log2ElementSize;
  }
}
