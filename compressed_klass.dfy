/**
 * The narrow (compressed) type-pointer encoding: a 32-bit offset from a
 * base address, scaled down by a shift. Base and shift are chosen once at
 * startup (compressedOops.inline.hpp is not part of this model; this module
 * states the contract the header relies on: NULL encodes as zero, and
 * encode and decode are inverse on every pointer the scheme can reach).
 */
module CompressedKlassPointers {
  import opened HeapWords

  /** `narrowKlass`: a 32-bit unsigned value. */
  const NarrowKlassLimit: nat := 0x1_0000_0000
  type NarrowKlass = n: nat | n < NarrowKlassLimit

  /** `LogKlassAlignmentInBytes`: type descriptors are 8-byte aligned. */
  const LogKlassAlignmentInBytes: nat := 3

  datatype Encoding = Encoding(base: Ptr, shift: nat)

  predicate ValidEncoding(e: Encoding)
  {
    e.shift <= LogKlassAlignmentInBytes
  }

  /**
   * A type-descriptor address the scheme can represent: strictly above the
   * base (so that no descriptor encodes as zero), at a whole number of
   * alignment units from it, and within 32 bits of units.
   */
  predicate Encodable(e: Encoding, k: Ptr)
  {
    k > e.base && (k - e.base) % Pow2(e.shift) == 0 && (k - e.base) / Pow2(e.shift) < NarrowKlassLimit
  }

  /** `encode_not_null(k)`: `(k - base) >> shift`. */
  function EncodeNotNull(e: Encoding, k: Ptr): (nk: NarrowKlass)
    requires Encodable(e, k)
    ensures nk != 0
  {
    DivPositive(k - e.base, Pow2(e.shift));
    (k - e.base) / Pow2(e.shift)
  }

  /** `decode_not_null(nk)`: `base + (nk << shift)`. */
  function DecodeNotNull(e: Encoding, nk: NarrowKlass): (k: Ptr)
    requires nk != 0
    ensures k > e.base && k != Null
  {
    e.base + nk * Pow2(e.shift)
  }

  /** `decode(nk)`: zero stands for NULL. */
  function Decode(e: Encoding, nk: NarrowKlass): (k: Ptr)
    ensures k == Null <==> nk == 0
  {
    if nk == 0 then Null else DecodeNotNull(e, nk)
  }

  /** Decoding an encoded descriptor address gives it back. */
  lemma {:induction false} DecodeEncode(e: Encoding, k: Ptr)
    requires Encodable(e, k)
    ensures DecodeNotNull(e, EncodeNotNull(e, k)) == k
    ensures Decode(e, EncodeNotNull(e, k)) == k
  {
    var d := Pow2(e.shift);
    var x := k - e.base;
    assert x == (x / d) * d + x % d;
  }

  /** Every non-zero narrow value decodes to an encodable address that encodes back to it. */
  lemma {:induction false} EncodeDecode(e: Encoding, nk: NarrowKlass)
    requires nk != 0
    ensures Encodable(e, DecodeNotNull(e, nk))
    ensures EncodeNotNull(e, DecodeNotNull(e, nk)) == nk
  {
    var d := Pow2(e.shift);
    MulMod(nk, d);
    MulDiv(nk, d);
  }
}
