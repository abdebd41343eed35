/**
 * Machine-level vocabulary shared by the header model: addresses, the
 * 32-bit `jint`, heap-word constants, shifts as powers of two, and the
 * `align_up` rounding the size oracle relies on.
 */
module HeapWords {

  /** An address in the heap or in metaspace; `Null` is the NULL pointer. */
  type Ptr = nat

  const Null: Ptr := 0

  /** `HeapWordSize` and `LogHeapWordSize` of a 64-bit VM. */
  const HeapWordSize: nat := 8
  const LogHeapWordSize: nat := 3

  /** The Java `int`, as the layout helper is stored. */
  type Jint = x: int | -0x8000_0000 <= x < 0x8000_0000

  datatype Option<T> = None | Some(value: T)

  /** `1 << n`: HotSpot's shifts are written as multiplication or division by this. */
  function Pow2(n: nat): (r: nat)
    ensures r >= 1
  {
    if n == 0 then 1 else 2 * Pow2(n - 1)
  }

  predicate IsPowerOfTwo(n: nat)
  {
    n == 1 || (n >= 2 && n % 2 == 0 && IsPowerOfTwo(n / 2))
  }

  /**
   * A legal `MinObjAlignmentInBytes`: a power of two and a whole number of
   * heap words (the VM derives it from the ObjectAlignmentInBytes flag).
   */
  predicate ValidObjectAlignment(alignmentInBytes: nat)
  {
    IsPowerOfTwo(alignmentInBytes) && alignmentInBytes >= HeapWordSize && alignmentInBytes % HeapWordSize == 0
  }

  /** `(x + d - 1) / d`, division rounding up. */
  function CeilDiv(x: nat, d: nat): nat
    requires d > 0
  {
    (x + d - 1) / d
  }

  /**
   * `align_up(size, alignment)`: the smallest multiple of `alignment` that is
   * at least `size` (`align_up`'s mask form, `(size + a - 1) & ~(a - 1)`, agrees with this for powers of two).
   */
  function AlignUp(size: nat, alignment: nat): (r: nat)
    requires alignment > 0
    ensures r % alignment == 0
    ensures size <= r < size + alignment
  {
    CeilDivBounds(size, alignment);
    CeilDiv(size, alignment) * alignment
  }

  /** The quotient rounded up is the least `q` with `q * d >= x`. */
  lemma CeilDivBounds(x: nat, d: nat)
    requires d > 0
    ensures CeilDiv(x, d) * d >= x
    ensures CeilDiv(x, d) * d < x + d
    ensures (CeilDiv(x, d) * d) % d == 0
  {
    var q := (x + d - 1) / d;
    var r := (x + d - 1) % d;
    assert x + d - 1 == q * d + r;
    MulMod(q, d);
  }

  /** A multiple of `d` leaves no remainder. */
  lemma MulMod(q: nat, d: nat)
    requires d > 0
    ensures (q * d) % d == 0
  {
    var x := q * d;
    var q0, r0 := x / d, x % d;
    assert (q - q0) * d == r0;
    if q0 < q {
      MulMonotone(1, q - q0, d);
    } else if q < q0 {
      MulMonotone(1, q0 - q, d);
    }
  }

  /**
   * Rounding up can be done in one step or two: rounding `x` up to a multiple
   * of `w` units first and then the count of units up to a multiple of `m`
   * gives the same as rounding `x` up to a multiple of `w * m` directly.
   */
  lemma {:induction false} CeilDivNested(x: nat, w: nat, m: nat)
    requires w > 0 && m > 0
    ensures CeilDiv(CeilDiv(x, w), m) == CeilDiv(x, w * m)
  {
    NestedAtMostDirect(x, w, m);
    DirectAtMostNested(x, w, m);
  }

  /** `CeilDiv(x, w * m)` groups of `m` units of `w` cover `x`, hence cover the units `x` needs. */
  lemma NestedAtMostDirect(x: nat, w: nat, m: nat)
    requires w > 0 && m > 0
    ensures CeilDiv(CeilDiv(x, w), m) <= CeilDiv(x, w * m)
  {
    var k' := CeilDiv(x, w * m);
    CeilDivBounds(x, w * m);
    MulAssoc(k', m, w);
    CeilDivLeast(x, w, k' * m);
    CeilDivLeast(CeilDiv(x, w), m, k');
  }

  /** `CeilDiv(CeilDiv(x, w), m)` groups of `m` units cover the units, hence cover `x`. */
  lemma DirectAtMostNested(x: nat, w: nat, m: nat)
    requires w > 0 && m > 0
    ensures CeilDiv(x, w * m) <= CeilDiv(CeilDiv(x, w), m)
  {
    var c := CeilDiv(x, w);
    var k := CeilDiv(c, m);
    CeilDivBounds(x, w);
    CeilDivBounds(c, m);
    MulMonotone(c, k * m, w);
    MulAssoc(k, m, w);
    CeilDivLeast(x, w * m, k);
  }

  lemma MulAssoc(a: nat, b: nat, c: nat)
    ensures a * (c * b) == (a * b) * c
  {
  }

  /**
   * Aligning bytes to `w * m` and counting in units of `w` equals counting
   * in units of `w` first and aligning that count to `m`.
   */
  lemma {:induction false} AlignUpInUnits(x: nat, w: nat, m: nat)
    requires w > 0 && m > 0
    ensures AlignUp(x, w * m) / w == AlignUp(CeilDiv(x, w), m)
  {
    var c := CeilDiv(x, w * m);
    CeilDivNested(x, w, m);
    assert AlignUp(x, w * m) == c * (w * m);
    assert c * (w * m) == (c * m) * w;
    MulDiv(c * m, w);
  }

  /** `CeilDiv(x, d)` is no larger than any `q` with `q * d >= x`. */
  lemma CeilDivLeast(x: nat, d: nat, q: nat)
    requires d > 0
    requires q * d >= x
    ensures CeilDiv(x, d) <= q
  {
    CeilDivBounds(x, d);
    assert (q + 1) * d == q * d + d;
    LessFromMul(CeilDiv(x, d), q + 1, d);
  }

  lemma LessFromMul(a: nat, b: nat, d: nat)
    requires a * d < b * d
    ensures a < b
  {
  }

  lemma MulMonotone(a: nat, b: nat, d: nat)
    requires a <= b
    ensures a * d <= b * d
  {
  }

  lemma MulDiv(q: nat, d: nat)
    requires d > 0
    ensures (q * d) / d == q
  {
    MulMod(q, d);
    var x := q * d;
    assert x == (x / d) * d + x % d;
    if x / d < q {
      MulMonotone(x / d + 1, q, d);
    }
  }

  lemma DivPositive(x: nat, d: nat)
    requires d > 0 && x > 0 && x % d == 0
    ensures x / d > 0
  {
    assert x == (x / d) * d + x % d;
  }
}
