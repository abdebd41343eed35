/**
 * The object header (`oopDesc`): a mutable mark word and a type pointer,
 * and the operations of oop.inline.hpp that decide things about them.
 *
 * Memory-ordering variants (volatile, acquire, release, raw) are the same
 * plain read or write here; a compare-and-swap is one sequential step.
 */
module Oops {
  import opened HeapWords
  import opened MarkWords
  import CompressedKlassPointers
  import opened Klasses

  /** Settings fixed at startup for the whole run. */
  datatype VmConfig = VmConfig(
    useCompressedClassPointers: bool,
    klassEncoding: CompressedKlassPointers.Encoding,
    minObjAlignmentInBytes: nat)

  predicate ValidConfig(c: VmConfig)
  {
    CompressedKlassPointers.ValidEncoding(c.klassEncoding) && ValidObjectAlignment(c.minObjAlignmentInBytes)
  }

  /**
   * `identity_hash`'s fast path on one snapshot of the mark: an unlocked
   * mark that already carries a hash, or a marked one, answers with its hash
   * field; anything else (no hash yet, or locked) needs the slow path.
   */
  function FastIdentityHash(m: Mark): (r: Option<nat>)
    ensures r.Some? <==> (IsUnlocked(m) && !HasNoHash(m)) || IsMarked(m)
    ensures r.Some? ==> r.value == Hash(m)
    ensures r.Some? && IsUnlocked(m) ==> r.value != NoHash
  {
    if IsUnlocked(m) && !HasNoHash(m) then Some(Hash(m))
    else if IsMarked(m) then Some(Hash(m))
    else None
  }

  /** The mark left behind and the pointer returned by one `forward_to_atomic`. */
  datatype ForwardOutcome = ForwardOutcome(mark: Mark, result: Ptr)

  /**
   * `forward_to_atomic(p, compare)` on a mark cell holding `current`: the
   * forwarding to `p` is installed and NULL returned exactly when the cell
   * held `compare`; otherwise the cell is left alone and the pointer it
   * holds is returned.
   */
  function ForwardToAtomicStep(current: Mark, p: Ptr, compare: Mark): (r: ForwardOutcome)
    ensures current == compare ==> r.result == Null && IsMarked(r.mark) && DecodePointer(r.mark) == p
    ensures current != compare ==> r.mark == current && r.result == DecodePointer(current)
  {
    var cas := CompareAndExchange(current, EncodePointerAsMark(p), compare);
    if cas.found == compare then ForwardOutcome(cas.stored, Null)
    else ForwardOutcome(cas.stored, DecodePointer(cas.found))
  }

  /**
   * When the losing caller finds the mark another collector thread has
   * forwarded (to a non-NULL copy), a NULL result means exactly that this
   * call installed its own forwarding.
   */
  lemma ForwardToAtomicNullIffInstalled(current: Mark, p: Ptr, compare: Mark)
    requires current != compare ==> IsMarked(current) && DecodePointer(current) != Null
    ensures ForwardToAtomicStep(current, p, compare).result == Null <==> current == compare
  {
  }

  /** The final mark and each thread's result when several threads forward in turn. */
  datatype RaceOutcome = RaceOutcome(mark: Mark, results: seq<Ptr>)

  /**
   * Threads that all read the same `compare` call `forward_to_atomic` on one
   * object, one after another in the order of `targets`.
   */
  function ForwardRace(current: Mark, targets: seq<Ptr>, compare: Mark): (r: RaceOutcome)
    ensures |r.results| == |targets|
    decreases |targets|
  {
    if targets == [] then RaceOutcome(current, [])
    else
      var step := ForwardToAtomicStep(current, targets[0], compare);
      var rest := ForwardRace(step.mark, targets[1..], compare);
      RaceOutcome(rest.mark, [step.result] + rest.results)
  }

  /** Once the object is forwarded to `w`, every later thread loses and is handed `w`. */
  lemma {:induction false} LateRacersAdoptWinner(w: Ptr, targets: seq<Ptr>, compare: Mark)
    requires compare != EncodePointerAsMark(w)
    ensures var r := ForwardRace(EncodePointerAsMark(w), targets, compare);
      r.mark == EncodePointerAsMark(w) && forall i :: 0 <= i < |r.results| ==> r.results[i] == w
  {
    if targets != [] {
      LateRacersAdoptWinner(w, targets[1..], compare);
    }
  }

  /**
   * Racing to forward an unforwarded object: the first thread wins (NULL),
   * every other thread is handed the winner's copy, and the object ends up
   * forwarded to it. With a non-NULL copy, exactly one thread sees NULL.
   */
  lemma {:induction false} RaceHasOneWinner(current: Mark, targets: seq<Ptr>, compare: Mark)
    requires current == compare && !IsMarked(compare)
    requires |targets| > 0 && targets[0] != Null
    ensures var r := ForwardRace(current, targets, compare);
      && r.mark == EncodePointerAsMark(targets[0])
      && r.results[0] == Null
      && forall i :: 0 < i < |targets| ==> r.results[i] == targets[0] && r.results[i] != Null
  {
    var w := targets[0];
    LateRacersAdoptWinner(w, targets[1..], compare);
  }

  class OopDesc {
    const config: VmConfig
    var mark: Mark
    /** `_metadata`: the full `Klass*`, or in compressed mode the `narrowKlass`. */
    var metadata: nat
    /** The 32-bit word beside a narrow type pointer. */
    var klassGap: Jint

    /** A freshly allocated object after the mark is stamped with the prototype, before `set_klass`. */
    constructor (config: VmConfig)
      requires ValidConfig(config)
      ensures this.config == config && Valid()
      ensures mark == Prototype() && metadata == 0 && klassGap == 0
    {
      this.config := config;
      mark := Prototype();
      metadata := 0;
      klassGap := 0;
    }

    /** The displaced-mark record a locked mark points at, if any. */
    function LockRecords(): set<object>
      reads this
    {
      if HasDisplacedMark(mark) then {mark.record} else {}
    }

    ghost predicate Valid()
      reads this, LockRecords()
    {
      && ValidConfig(config)
      && (config.useCompressedClassPointers ==> metadata < CompressedKlassPointers.NarrowKlassLimit)
      && (HasDisplacedMark(mark) ==> IsUnlocked(mark.record.displacedHeader))
    }

    // ---- type pointer ----

    predicate KlassDecodable()
      reads this
    {
      config.useCompressedClassPointers ==> 0 < metadata < CompressedKlassPointers.NarrowKlassLimit
    }

    /** `klass_or_null()`: NULL exactly when the type word is zero, in either mode. */
    function KlassOrNull(): (k: Ptr)
      reads this
      requires config.useCompressedClassPointers ==> metadata < CompressedKlassPointers.NarrowKlassLimit
      ensures k == Null <==> metadata == 0
    {
      if config.useCompressedClassPointers then CompressedKlassPointers.Decode(config.klassEncoding, metadata)
      else metadata
    }

    /**
     * `klass()`: in compressed mode a zero narrow value is refused; where it
     * is defined it agrees with `klass_or_null()`.
     */
    function Klass(): (k: Ptr)
      reads this
      requires KlassDecodable()
      ensures k == KlassOrNull()
      ensures config.useCompressedClassPointers ==> k != Null
    {
      if config.useCompressedClassPointers then CompressedKlassPointers.DecodeNotNull(config.klassEncoding, metadata)
      else metadata
    }

    /** `set_klass(k)`: reading the type pointer back gives `k`. */
    method SetKlass(k: Ptr)
      requires config.useCompressedClassPointers ==> CompressedKlassPointers.Encodable(config.klassEncoding, k)
      modifies this`metadata
      ensures config.useCompressedClassPointers ==> metadata < CompressedKlassPointers.NarrowKlassLimit
      ensures KlassOrNull() == k
      ensures k != Null ==> KlassDecodable() && Klass() == k
    {
      if config.useCompressedClassPointers {
        metadata := CompressedKlassPointers.EncodeNotNull(config.klassEncoding, k);
        CompressedKlassPointers.DecodeEncode(config.klassEncoding, k);
      } else {
        metadata := k;
      }
    }

    /** `set_klass_gap(v)`: only compressed mode has a gap word to write. */
    method SetKlassGap(v: Jint)
      modifies this`klassGap
      ensures klassGap == if config.useCompressedClassPointers then v else old(klassGap)
    {
      if config.useCompressedClassPointers {
        klassGap := v;
      }
    }

    // ---- size ----

    /**
     * `size()`: `size_given_klass(klass())`, with the type's layout helper
     * looked up in `layoutHelpers`. The size is positive and object-aligned,
     * and for an array it is what the array type's own `oop_size` computes.
     */
    function Size(layoutHelpers: map<Ptr, Jint>, arrayLength: nat, oopSize: int): (s: int)
      reads this
      requires KlassDecodable() && Klass() in layoutHelpers
      requires ValidObjectAlignment(config.minObjAlignmentInBytes)
      requires WellFormedLayoutHelper(layoutHelpers[Klass()], config.minObjAlignmentInBytes)
      requires UsesVirtualSize(layoutHelpers[Klass()]) ==>
        oopSize > 0 && oopSize % (config.minObjAlignmentInBytes / HeapWordSize) == 0
      ensures s > 0 && s % (config.minObjAlignmentInBytes / HeapWordSize) == 0
      ensures layoutHelpers[Klass()] < LhNeutralValue ==>
        s == ArrayObjectSizeInWords(layoutHelpers[Klass()], arrayLength, config.minObjAlignmentInBytes)
    {
      var lh := layoutHelpers[Klass()];
      SizeIsPositiveAndAligned(lh, arrayLength, oopSize, config.minObjAlignmentInBytes);
      if lh < LhNeutralValue then
        ArraySizeMatchesVirtualSize(lh, arrayLength, oopSize, config.minObjAlignmentInBytes);
        SizeGivenKlass(lh, arrayLength, oopSize, config.minObjAlignmentInBytes)
      else
        SizeGivenKlass(lh, arrayLength, oopSize, config.minObjAlignmentInBytes)
    }

    // ---- mark word ----

    /** `set_mark(m)` and its raw and release variants. */
    method SetMark(m: Mark)
      modifies this`mark
      ensures mark == m
    {
      mark := m;
    }

    /** `cas_set_mark(new_mark, old_mark)`: one compare-and-exchange on the mark. */
    method CasSetMark(newMark: Mark, oldMark: Mark) returns (found: Mark)
      modifies this`mark
      ensures CasResult(mark, found) == CompareAndExchange(old(mark), newMark, oldMark)
    {
      found := mark;
      if mark == oldMark {
        mark := newMark;
      }
    }

    /** `init_mark()`: the type's prototype header (the neutral unlocked mark). */
    method InitMark()
      requires KlassDecodable()
      modifies this`mark
      ensures mark == Prototype()
      ensures IsUnlocked(mark) && HasNoHash(mark) && MarkWords.Age(mark) == 0
    {
      // prototype_for_klass(klass()): with biased locking left out, every
      // type's prototype header is the neutral unlocked mark.
      mark := Prototype();
    }

    // ---- forwarding ----

    /** `is_forwarded()`. */
    predicate IsForwarded()
      reads this
      ensures IsForwarded() <==> mark == EncodePointerAsMark(DecodePointer(mark))
    {
      IsMarked(mark)
    }

    /** `forwardee()`. */
    function Forwardee(): (p: Ptr)
      reads this
      ensures IsForwarded() ==> mark == EncodePointerAsMark(p)
    {
      DecodePointer(mark)
    }

    /** `forward_to(p)`: afterwards the object is forwarded, to `p`. */
    method ForwardTo(p: Ptr)
      modifies this`mark
      ensures mark == EncodePointerAsMark(p)
      ensures IsForwarded() && Forwardee() == p
    {
      var m := EncodePointerAsMark(p);
      mark := m;
    }

    /**
     * `cas_forward_to(p, compare)`: succeeds exactly when the mark was
     * `compare`; on success the object forwards to `p`, otherwise the mark
     * is untouched.
     */
    method CasForwardTo(p: Ptr, compare: Mark) returns (ok: bool)
      modifies this`mark
      ensures ok <==> old(mark) == compare
      ensures ok ==> IsForwarded() && Forwardee() == p
      ensures !ok ==> mark == old(mark)
    {
      var m := EncodePointerAsMark(p);
      var found := CasSetMark(m, compare);
      ok := found == compare;
    }

    /**
     * `forward_to_atomic(p, compare)`: NULL when this call installed the
     * forwarding, otherwise the pointer found in the mark, left untouched.
     */
    method ForwardToAtomic(p: Ptr, compare: Mark) returns (r: Ptr)
      modifies this`mark
      ensures ForwardOutcome(mark, r) == ForwardToAtomicStep(old(mark), p, compare)
    {
      var m := EncodePointerAsMark(p);
      var oldMark := CasSetMark(m, compare);
      if oldMark == compare {
        r := Null;
      } else {
        r := DecodePointer(oldMark);
      }
    }

    // ---- age ----

    /**
     * The object's own unlocked header: the displaced record's copy while
     * the object is locked, otherwise the mark itself.
     */
    function UnlockedHeader(): (h: Mark)
      reads this, LockRecords()
      requires Valid() && !IsForwarded()
      ensures IsUnlocked(h)
    {
      if HasDisplacedMark(mark) then mark.record.displacedHeader else mark
    }

    /** `age()`: read from the displaced record while locked, from the mark otherwise. */
    function Age(): (a: MarkAge)
      reads this, LockRecords()
      requires Valid() && !IsForwarded()
      ensures HasDisplacedMark(mark) ==> a == MarkWords.Age(mark.record.displacedHeader)
      ensures !HasDisplacedMark(mark) ==> a == MarkWords.Age(mark)
    {
      MarkWords.Age(UnlockedHeader())
    }

    /** `set_displaced_mark_raw(m)`: writes the record, not the mark. */
    method SetDisplacedMarkRaw(m: Mark)
      requires Valid() && HasDisplacedMark(mark) && IsUnlocked(m)
      modifies LockRecords()
      ensures Valid()
      ensures mark.record.displacedHeader == m
    {
      mark.record.displacedHeader := m;
    }

    /**
     * `incr_age()`: the age goes up by one (saturating) in whichever cell
     * holds the header; the other cell, and the hash, are left alone.
     */
    method IncrAge()
      requires Valid() && !IsForwarded()
      modifies this`mark, LockRecords()
      ensures Valid() && !IsForwarded()
      ensures HasDisplacedMark(old(mark)) ==>
        mark == old(mark) && mark.record.displacedHeader == MarkWords.IncrAge(old(mark.record.displacedHeader))
      ensures !HasDisplacedMark(old(mark)) ==> mark == MarkWords.IncrAge(old(mark))
      ensures Hash(UnlockedHeader()) == old(Hash(UnlockedHeader()))
      ensures Age() == if old(Age()) < MaxAge then old(Age()) + 1 else MaxAge
    {
      if HasDisplacedMark(mark) {
        SetDisplacedMarkRaw(MarkWords.IncrAge(mark.record.displacedHeader));
      } else {
        SetMark(MarkWords.IncrAge(mark));
      }
    }

    // ---- identity hash ----

    /**
     * The identity hash the object carries: the hash field of a marked
     * mark, otherwise that of the object's own unlocked header.
     */
    function StoredHash(): nat
      reads this, LockRecords()
      requires Valid()
    {
      if IsForwarded() then Hash(mark) else Hash(UnlockedHeader())
    }

    /**
     * `slow_identity_hash()` (ObjectSynchronizer, not part of this model):
     * installs `generated` where the header lives if no hash is there yet,
     * keeping the lock state and the age, and returns the hash now stored.
     */
    method SlowIdentityHash(generated: nat) returns (h: nat)
      requires Valid() && !IsForwarded()
      requires generated != NoHash
      modifies this`mark, LockRecords()
      ensures Valid() && !IsForwarded()
      ensures h == StoredHash() && h != NoHash
      ensures old(StoredHash()) != NoHash ==> h == old(StoredHash())
      ensures old(StoredHash()) == NoHash ==> h == generated
      ensures HasDisplacedMark(old(mark)) ==>
        mark == old(mark) && mark.record.displacedHeader == Unlocked(h, old(mark.record.displacedHeader).age)
      ensures !HasDisplacedMark(old(mark)) ==> mark == Unlocked(h, old(mark).age)
      ensures Age() == old(Age())
    {
      if HasDisplacedMark(mark) {
        var displaced := mark.record.displacedHeader;
        if HasNoHash(displaced) {
          SetDisplacedMarkRaw(Unlocked(generated, displaced.age));
        }
        h := Hash(mark.record.displacedHeader);
      } else {
        if HasNoHash(mark) {
          SetMark(Unlocked(generated, mark.age));
        }
        h := Hash(mark);
      }
    }

    /**
     * `identity_hash()`: one snapshot of the mark decides. An unlocked mark
     * with a hash, or a marked one, answers at once and nothing changes;
     * otherwise the slow path installs (or finds) the hash. Either way the
     * answer is the hash the object now carries, and a hash already carried
     * is never replaced.
     */
    method IdentityHash(generated: nat) returns (h: nat)
      requires Valid()
      requires generated != NoHash
      modifies this`mark, LockRecords()
      ensures Valid()
      ensures FastIdentityHash(old(mark)).Some? ==>
        h == FastIdentityHash(old(mark)).value && mark == old(mark) && unchanged(old(LockRecords()))
      ensures h == StoredHash()
      ensures old(StoredHash()) != NoHash ==> h == old(StoredHash())
      ensures !IsForwarded() ==> h != NoHash
      ensures !old(IsForwarded()) && old(StoredHash()) == NoHash ==> h == generated
      ensures IsForwarded() == old(IsForwarded())
      ensures HasDisplacedMark(old(mark)) ==>
        mark == old(mark) && mark.record.displacedHeader == Unlocked(h, old(mark.record.displacedHeader).age)
      ensures IsUnlocked(old(mark)) ==> mark == Unlocked(h, old(mark).age)
      ensures !old(IsForwarded()) ==> !IsForwarded() && Age() == old(Age())
    {
      var mrk := mark;
      if IsUnlocked(mrk) && !HasNoHash(mrk) {
        h := Hash(mrk);
      } else if IsMarked(mrk) {
        h := Hash(mrk);
      } else {
        h := SlowIdentityHash(generated);
      }
    }
  }

  /**
   * Hash stability: once `identity_hash()` has answered for an unforwarded
   * object, a later call answers the same, even after the collector has
   * aged the object in between, whatever hash the later call would generate.
   */
  method IdentityHashIsStable(o: OopDesc, generated: nat, regenerated: nat) returns (first: nat, second: nat)
    requires o.Valid() && !o.IsForwarded()
    requires generated != NoHash && regenerated != NoHash
    modifies o, o.LockRecords()
    ensures first == second && first != NoHash
  {
    first := o.IdentityHash(generated);
    o.IncrAge();
    second := o.IdentityHash(regenerated);
  }
}
