# Object header of a managed runtime, modelled in Dafny

This project models the decision-making part of HotSpot's object header,
`oopDesc` in `src/hotspot/share/oops/oop.inline.hpp`. Every heap object starts
with two header words:

- The **mark word** holds the lock state, the identity hash and the GC age.
  During a relocating collection it is overwritten by a forwarding pointer to
  the object's new copy.
- The **type pointer** (`_metadata`) points at the object's type descriptor
  (`Klass`). With compressed class pointers it is a 32-bit narrow value, and a
  spare 32-bit gap word sits beside it.

The model has five modules:

- `HeapWords` (`heap_words.dfy`): addresses, `jint`, `HeapWordSize` /
  `LogHeapWordSize`, shifts as powers of two, and `align_up` with the rounding
  lemmas the size oracle needs.
- `MarkWords` (`mark_word.dfy`): the mark word as an abstract tagged value.
  The three states are `Unlocked(hash, age)`, `Locked(record)` and
  `Marked(pointer)`. The off-object displaced-mark record is a class with one
  mutable cell. The predicates and accessors the header calls are modelled:
  `is_unlocked`, `has_displaced_mark`, `is_marked`, `hash`, `has_no_hash`,
  `age`, `incr_age`, `decode_pointer`, `encode_pointer_as_mark` and the
  prototype mark. Compare-and-exchange on a mark cell is a pure function here.
- `CompressedKlassPointers` (`compressed_klass.dfy`): the narrow type-pointer
  encoding, a base address plus a shift. Both round trips are proved.
- `Klasses` (`layout_helper.dfy`): the layout helper, its field extractors and
  `size_given_klass`. The instance and array packings are included so that
  the extractors can be shown to read back what was packed.
- `Oops` (`oop.dfy`): the header class `OopDesc`. It has a mutable `mark`, a
  mutable `metadata` word and `klassGap`, and a `const` run configuration: the
  compression flag, the narrow-pointer base and shift, and
  `MinObjAlignmentInBytes`. Its methods update these fields in place, and its
  functions read them. The module also holds the pure specifications of
  `identity_hash`'s fast path and of `forward_to_atomic`, plus a model of
  several collector threads racing to forward one object.

Outside inputs are parameters:

- the virtual `klass->oop_size(this)` is `oopSize`;
- the array length field is `arrayLength`;
- the type-descriptor table is a `map` from type pointer to layout helper;
- the freshly generated identity hash is `generated`.

Memory-ordering variants collapse to plain reads and writes. A
compare-and-swap is one sequential step.

## Model

| member | source | states |
|---|---|---|
| `HeapWords.AlignUp` | src/hotspot/share/oops/oop.inline.hpp:225 | `align_up(size, a)` is a multiple of `a`, at least `size`, and less than `size + a` |
| `HeapWords.AlignUpInUnits` | src/hotspot/share/oops/oop.inline.hpp:222-225 | aligning bytes to `w*m` and counting words equals counting words first and aligning that count to `m` (one rounding instead of two) |
| `Klasses.InstanceSizeFromHelperAlone` | src/hotspot/share/oops/oop.inline.hpp:205-207 | a positive helper without the slow-path bit gives size `lh >> LogHeapWordSize`, the same for every array length and virtual size |
| `Klasses.VirtualSizeIsTaken` | src/hotspot/share/oops/oop.inline.hpp:205-238 | a zero helper, or a positive one with the slow-path bit, yields exactly the type's own `oop_size` |
| `Klasses.SizeGivenKlass` | src/hotspot/share/oops/oop.inline.hpp:190-244 | an instance helper's size in words covers its byte count to within one word; an array's size covers its header and elements to within one word, and completely when the object alignment is a whole number of words |
| `Klasses.ArraySizeIsAlignedBytesInWords` | src/hotspot/share/oops/oop.inline.hpp:213-225 | a negative helper gives `align_up((length << log2esize) + header, MinObjAlignmentInBytes) / HeapWordSize` |
| `Klasses.ArraySizeMatchesVirtualSize` | src/hotspot/share/oops/oop.inline.hpp:222-234 | the array fast path equals the two-step size the array type's own `oop_size` computes (round to words, then to object alignment), which is the first disjunct of the array assertion |
| `Klasses.SizeIsPositiveAndAligned` | src/hotspot/share/oops/oop.inline.hpp:241-242 | for a well-formed helper (and a valid virtual size where one is used) the size is positive and a multiple of the object alignment in words |
| `Klasses.LayoutHelperLog2ElementSize` | src/hotspot/share/oops/oop.inline.hpp:219 | the element-size field read from an array helper is at most 63 (its 6-bit mask) |
| `Klasses.LayoutHelperHeaderSize` | src/hotspot/share/oops/oop.inline.hpp:220 | the header-size field read from an array helper is one byte |
| `Klasses.InstanceLayoutHelperRoundTrip` | src/hotspot/share/oops/oop.inline.hpp:205-207 | an instance helper packed from `n` words and a slow-path flag is positive, reads the flag back, and without the flag sizes to exactly `n` words |
| `Klasses.ArrayLayoutHelperRoundTrip` | src/hotspot/share/oops/oop.inline.hpp:213-220 | an array helper packed from tag, header size, element type and log2 element size is negative, and the extractors read the header size and log2 element size back |
| `Oops.OopDesc.Size` | src/hotspot/share/oops/oop.inline.hpp:186-244 | `size()` of a well-formed object is positive and object-aligned, and for an array it equals the array type's own size |
| `CompressedKlassPointers.DecodeNotNull` | src/hotspot/share/oops/oop.inline.hpp:92-98 | a non-zero narrow value decodes to an address above the base, never NULL |
| `CompressedKlassPointers.Decode` | src/hotspot/share/oops/oop.inline.hpp:100-106 | the nullable narrow decode yields NULL exactly for the zero encoding |
| `CompressedKlassPointers.EncodeNotNull` | src/hotspot/share/oops/oop.inline.hpp:147-154 | an encodable type pointer never encodes as the NULL narrow value |
| `CompressedKlassPointers.DecodeEncode` | src/hotspot/share/oops/oop.inline.hpp:147-154 | decoding the narrow value `set_klass` stores gives the type pointer back |
| `CompressedKlassPointers.EncodeDecode` | src/hotspot/share/oops/oop.inline.hpp:92-98 | every non-zero narrow value decodes to an encodable pointer that encodes back to the same value |
| `Oops.OopDesc.KlassOrNull` | src/hotspot/share/oops/oop.inline.hpp:100-106 | `klass_or_null()` is NULL exactly when the type word is zero, in both modes |
| `Oops.OopDesc.Klass` | src/hotspot/share/oops/oop.inline.hpp:92-98 | `klass()` agrees with `klass_or_null()` and is never NULL in compressed mode, where a zero word is refused |
| `Oops.OopDesc.SetKlass` | src/hotspot/share/oops/oop.inline.hpp:147-154 | after `set_klass(k)` both `klass_or_null()` and, for non-NULL `k`, `klass()` return `k`; only the type word changes |
| `Oops.OopDesc.SetKlassGap` | src/hotspot/share/oops/oop.inline.hpp:172-180 | the gap word becomes `v` in compressed mode and is left unchanged otherwise; nothing else changes |
| `MarkWords.Prototype` | src/hotspot/share/oops/oop.inline.hpp:84-90 | the prototype mark is unlocked, has no hash and has age zero |
| `Oops.OopDesc.InitMark` | src/hotspot/share/oops/oop.inline.hpp:84-90 | `init_mark()` (its type pointer must decode) sets the mark to the prototype; nothing else changes |
| `Oops.OopDesc.SetMark` | src/hotspot/share/oops/oop.inline.hpp:59-73 | `set_mark` and its raw/release forms store the given mark and change nothing else |
| `MarkWords.CompareAndExchange` | src/hotspot/share/oops/oop.inline.hpp:75-82 | a compare-and-exchange returns the value found and stores the new value exactly when the found value equals the expected one |
| `Oops.OopDesc.CasSetMark` | src/hotspot/share/oops/oop.inline.hpp:75-82 | `cas_set_mark` is one `CompareAndExchange` on the mark: it returns the old mark and replaces it only if it equalled `old_mark` |
| `MarkWords.EncodePointerAsMark` | src/hotspot/share/oops/oop.inline.hpp:321-326 | a forwarding mark is marked (neither unlocked nor locked) and decodes to the pointer it encodes |
| `MarkWords.EncodePointerInjective` | src/hotspot/share/oops/oop.inline.hpp:323-324 | distinct pointers encode to distinct forwarding marks |
| `Oops.OopDesc.IsForwarded` | src/hotspot/share/oops/oop.inline.hpp:314-318 | an object is forwarded exactly when its mark is the forwarding encoding of the pointer it decodes to |
| `Oops.OopDesc.Forwardee` | src/hotspot/share/oops/oop.inline.hpp:351-353 | the forwardee of a forwarded object is the pointer its mark encodes |
| `MarkWords.MarkedIsEncodedPointer` | src/hotspot/share/oops/oop.inline.hpp:351-353 | every marked mark is the encoding of its own `forwardee` |
| `Oops.OopDesc.ForwardTo` | src/hotspot/share/oops/oop.inline.hpp:314-326 | after `forward_to(p)`, `is_forwarded()` holds and `forwardee() == p` |
| `Oops.OopDesc.CasForwardTo` | src/hotspot/share/oops/oop.inline.hpp:329-334 | returns true iff the prior mark equalled `compare`; on true the object forwards to `p`, on false the mark is unchanged |
| `Oops.ForwardToAtomicStep` | src/hotspot/share/oops/oop.inline.hpp:336-346 | when the mark equals `compare`, the forwarding to `p` is installed and NULL is returned; otherwise the mark is unchanged and its decoded pointer is returned |
| `Oops.OopDesc.ForwardToAtomic` | src/hotspot/share/oops/oop.inline.hpp:336-346 | `forward_to_atomic` leaves the mark and returns the pointer that `ForwardToAtomicStep` gives for the old mark |
| `Oops.ForwardToAtomicNullIffInstalled` | src/hotspot/share/oops/oop.inline.hpp:336-346 | when the mark it finds is some other thread's non-NULL forwarding, NULL is returned iff this call installed its forwarding |
| `Oops.ForwardRace` | src/hotspot/share/oops/oop.inline.hpp:336-346 | threads calling `forward_to_atomic` in turn each get exactly one result |
| `Oops.LateRacersAdoptWinner` | src/hotspot/share/oops/oop.inline.hpp:341-345 | once the object forwards to `w`, every later caller loses, is handed `w`, and the mark stays forwarded to `w` |
| `Oops.RaceHasOneWinner` | src/hotspot/share/oops/oop.inline.hpp:336-346 | among threads racing to forward an unforwarded object, the first wins (NULL), all others get the winner's non-NULL copy, and the object ends up forwarded to it |
| `MarkWords.IncrAge` | src/hotspot/share/oops/oop.inline.hpp:375-377 | `incr_age()` on an unlocked mark keeps the hash and raises the age by one, saturating at the 4-bit maximum |
| `Oops.OopDesc.UnlockedHeader` | src/hotspot/share/oops/oop.inline.hpp:429-435 | the header of a valid, unforwarded object is always an unlocked mark: the displaced record's copy while locked, the mark itself otherwise |
| `Oops.OopDesc.Age` | src/hotspot/share/oops/oop.inline.hpp:363-370 | `age()` of an unforwarded object reads the displaced record when locked and the mark otherwise |
| `Oops.OopDesc.SetDisplacedMarkRaw` | src/hotspot/share/oops/oop.inline.hpp:437-439 | writes the displaced record of a locked object and keeps the header valid |
| `Oops.OopDesc.IncrAge` | src/hotspot/share/oops/oop.inline.hpp:372-379 | for an unforwarded object, when locked the record's age goes up and the mark is unchanged; otherwise the mark's age goes up. The hash is kept, and `age()` rises by one up to the maximum |
| `Oops.FastIdentityHash` | src/hotspot/share/oops/oop.inline.hpp:416-424 | one mark snapshot answers iff it is unlocked with a hash or it is marked, and then the answer is its hash field |
| `Oops.OopDesc.SlowIdentityHash` | src/hotspot/share/oops/oop.inline.hpp:425 | installs `generated` where the header lives, only if no hash is there, and returns the hash now stored (`generated` when there was none). A locked object keeps its mark and its record becomes unlocked with that hash and the old age; an unlocked object's mark becomes unlocked with that hash and the old age |
| `Oops.OopDesc.IdentityHash` | src/hotspot/share/oops/oop.inline.hpp:416-427 | on the fast path nothing changes and the snapshot's hash is returned. In every case the result is the object's stored hash, an existing hash is never replaced, and the forwarding state is kept. A locked object keeps its mark, and its record keeps its age and carries the hash; an unlocked mark stays unlocked with the hash and its age. An unforwarded object gets a non-zero hash, `generated` when it had none, and keeps `age()` |
| `Oops.IdentityHashIsStable` | src/hotspot/share/oops/oop.inline.hpp:416-427 | two `identity_hash()` calls on an unforwarded object, with `incr_age()` between them, return the same non-zero hash |

## Left out

- Memory-ordering variants are modelled as the same plain read or write. These are `mark()`/`mark_raw()`, `set_mark_raw`, `release_set_mark`, `klass_or_null_acquire`, `release_set_klass`, `forwardee_acquire` and `Atomic::load`/`store`. Their only effect is cross-thread publication.
- Concurrency is not modelled. A compare-and-swap is one atomic step, and a race is a sequence of whole calls in some order.
- The primitive field access facade (lines 251-290) is not modelled. It wraps `HeapAccess`/`RawAccess`, which are not part of this model, and it includes floating-point fields.
- These calls into `Klass` virtual predicates are not modelled: `oop_iterate*` (381-410), `is_a`, `is_instanceof_or_null`, and `is_instance`/`is_array`/`is_objArray`/`is_typeArray`.
- Thin mark predicates on the object are not modelled: `is_locked`, `is_unlocked`, `is_gc_marked` and `has_bias_pattern*` (292-311). Biased locking is left out entirely, so every type's prototype header is the neutral unlocked mark.
- `DeferredObjectToKlass` (441-452) and `mark_must_be_preserved*` (454-469) are not modelled. The wrappers are defined in this file, but all they do is hand the mark to `markWord::must_be_preserved*`, with `klass()` deferred. That decision lives in markWord.inline.hpp, which is not part of this model.
- `slow_identity_hash` is implemented in the synchronizer, which is not part of this model. `Oops.OopDesc.SlowIdentityHash` stands in for it. It takes the freshly generated hash as a parameter. It states the resulting header exactly: the hash is installed in the cell that holds the header, and the lock state and the age are kept. It does not model inflation or CAS retry.
- The array-size assertion tolerates a race while a collector is active (232-234). That tolerance depends on collector flags and heap state, so it is not modelled. The array size is the computed formula, shown equal to the type's own size.
- `verify_forwardee` (oop.cpp) is not modelled. It is a debug check that is not part of this model.
- The bootstrapping asserts of `CHECK_SET_KLASS` (141-145) are not modelled. `set_klass` requires only that compressed mode can encode `k`.
- Raw address arithmetic is not modelled: `klass_addr`, `compressed_klass_addr`, `mark_addr_raw`, `field_addr*` and `set_mark_raw(HeapWord*, …)`. Neither is the raw gap reader `klass_gap()` (168-170). In uncompressed mode that reader would see half of the type pointer, and the model does not lay out bytes.
- No bit layout is fixed for the mark word. `Hash` and `DecodePointer` of a state that carries no such field read that state's single payload: the hash for an unlocked mark, the record address for a locked one and the pointer for a marked one. In the real word these are other bit readings of the same word.
- `Oops.ForwardToAtomicNullIffInstalled` needs the found mark to be a non-NULL forwarding whenever it differs from `compare`. Otherwise `forward_to_atomic` may return a decoded NULL on failure, for example when it finds an unhashed unlocked mark. Callers pass the mark they have just read, so a failed CAS only ever finds another thread's forwarding.
- `Klasses.SizeGivenKlass`: sizes are unbounded integers. The `size_t` arithmetic and the `(int)` cast are assumed not to wrap, and nothing in this file bounds the array length to guarantee that.
- The compressed type-pointer scheme (compressedOops.inline.hpp) and the layout-helper packing (klass.hpp) are not part of this model. They are modelled as a base/shift encoding and as the packing functions' field positions, and proved consistent rather than assumed.
