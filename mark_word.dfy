/**
 * The mark word as an abstract tagged value (markWord.hpp is not part of
 * this model: no bit layout is fixed here). A mark is in exactly one of
 * three tag states:
 *   - unlocked, carrying an identity hash (`NoHash` until one is installed)
 *   and a generational age;
 *   - locked, pointing at an off-object record that holds the displaced mark;
 *   - marked, which is how a forwarding pointer is stored during a collection.
 * The word's bits above the tag are one payload that `Hash` and
 * `DecodePointer` read in two ways; in the model both readings of a state
 * return the payload that state carries.
 */
module MarkWords {
  import opened HeapWords

  /** `markWord::no_hash`: an unlocked mark with this hash has none yet. */
  const NoHash: nat := 0

  /** `markWord::max_age`: the age field is four bits wide. */
  const MaxAge: nat := 15

  type MarkAge = a: nat | a <= MaxAge

  /**
   * An off-object cell holding a locked object's original (displaced) mark,
   * at a fixed address (a lock record on the owner's stack, or a monitor).
   */
  class DisplacedMarkRecord {
    const address: Ptr
    var displacedHeader: Mark

    constructor (address: Ptr, displacedHeader: Mark)
      ensures this.address == address && this.displacedHeader == displacedHeader
    {
      this.address := address;
      this.displacedHeader := displacedHeader;
    }
  }

  datatype Mark =
    | Unlocked(hash: nat, age: MarkAge)
    | Locked(record: DisplacedMarkRecord)
    | Marked(pointer: Ptr)

  /** `markWord::prototype()`: unlocked, no hash, age zero. */
  function Prototype(): (m: Mark)
    ensures IsUnlocked(m) && HasNoHash(m) && Age(m) == 0
  {
    Unlocked(NoHash, 0)
  }

  predicate IsUnlocked(m: Mark) { m.Unlocked? }

  /** `has_displaced_mark_helper`: the mark points at a displaced record. */
  predicate HasDisplacedMark(m: Mark) { m.Locked? }

  /** `is_marked`: the tag of a forwarded (or GC-marked) mark. */
  predicate IsMarked(m: Mark) { m.Marked? }

  /** `hash()`: the hash field, read from the payload whatever the state. */
  function Hash(m: Mark): nat
  {
    match m
    case Unlocked(h, _) => h
    case Locked(r) => r.address
    case Marked(p) => p
  }

  predicate HasNoHash(m: Mark) { Hash(m) == NoHash }

  function Age(m: Mark): MarkAge
    requires IsUnlocked(m)
  {
    m.age
  }

  /** `incr_age()`: one year older, saturating at `MaxAge`. */
  function IncrAge(m: Mark): (r: Mark)
    requires IsUnlocked(m)
    ensures IsUnlocked(r) && Hash(r) == Hash(m)
    ensures Age(r) == if Age(m) < MaxAge then Age(m) + 1 else MaxAge
    ensures Age(m) < MaxAge ==> r != m
  {
    if m.age == MaxAge then m else Unlocked(m.hash, m.age + 1)
  }

  /** `decode_pointer()`: the payload with the tag cleared, read as a pointer. */
  function DecodePointer(m: Mark): Ptr
  {
    match m
    case Unlocked(h, _) => h
    case Locked(r) => r.address
    case Marked(p) => p
  }

  /**
   * `encode_pointer_as_mark(p)`: a forwarding mark. The encoding is
   * reversible and is recognisable as forwarded.
   */
  function EncodePointerAsMark(p: Ptr): (m: Mark)
    ensures IsMarked(m) && !IsUnlocked(m) && !HasDisplacedMark(m)
    ensures DecodePointer(m) == p
  {
    Marked(p)
  }

  /** Distinct pointers give distinct forwarding marks. */
  lemma EncodePointerInjective(p: Ptr, q: Ptr)
    requires EncodePointerAsMark(p) == EncodePointerAsMark(q)
    ensures p == q
  {
    assert DecodePointer(EncodePointerAsMark(p)) == p;
  }

  /** Every forwarding mark is the encoding of the pointer it decodes to. */
  lemma MarkedIsEncodedPointer(m: Mark)
    requires IsMarked(m)
    ensures EncodePointerAsMark(DecodePointer(m)) == m
  {
  }

  /** The outcome of one compare-and-exchange on a mark cell. */
  datatype CasResult = CasResult(stored: Mark, found: Mark)

  /**
   * `Atomic::cmpxchg` on a mark cell holding `current`: the new value is
   * stored exactly when the cell holds `expected`, and the value found there is
   * returned either way.
   */
  function CompareAndExchange(current: Mark, newValue: Mark, expected: Mark): (r: CasResult)
    ensures r.found == current
    ensures r.found == expected ==> r.stored == newValue
    ensures r.found != expected ==> r.stored == current
  {
    if current == expected then CasResult(newValue, current) else CasResult(current, current)
  }
}
