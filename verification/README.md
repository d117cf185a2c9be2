# Teds containers, verified

Teds is a PHP extension of container types written in C. Each container is a compact mutable representation
that has to behave like a simple list, set or map. This Dafny project models the representations and proves that
they do, over every input and every run of operations.

- **StrictHashMap** (`StrictHashMap.dfy`, `HashSlots.dfy`, `AssocList.dfy`): an insertion-ordered hash table with
  index-linked chains, gaps, a tight used window, in-place compaction and doubling, refined to an association list
  that is in turn determined by the history of operations; the slots walked by compactions and doublings are paid
  for by the operations (`CompactionCost.dfy`). Key identity and the strict hash are in `Zvals.dfy`,
  `StrictHash.dfy` and `StrictHashMixing.dfy`, and `StrictHashMapRuns.dfy` runs any operations on a map of PHP values.
- **StrictTreeMap** (`StrictTreeMap.dfy`, `RedBlack.dfy`, `RedBlackRebalance.dfy`, `RedBlackBuild.dfy`,
  `SortedEntries.dfy`, `StrictTreeMapRuns.dfy`): a red-black tree in the stable order, proved to hold, after the same
  operations, the entries of a StrictHashMap in ascending order, with the exact conditions for staying balanced.
- **Deque** (`Deque.dfy`, `CircularBuffer.dfy`): a power-of-two circular buffer refined to a list; amortised resize
  cost is in `DequeCost.dfy`, iterator safety under arbitrary edits in `DequeIteration.dfy`, each with a method that
  runs the steps on a real Deque; iterator positions and limits in plain numbers are in `DequeLimits.dfy`.
- **BitVector** (`BitVector.dfy`, `PackedBits.dfy`, `BitCodec.dfy`, `BitVectorRuns.dfy`): packed bits with carries
  across bytes, 64-bit fast paths, and the serialized form.
- **Comparison and search** (`StableCompare.dfy`, `Float64.dfy`, `BinarySearch.dfy`): a total order over
  mixed values, nested arrays included, with exact integer against double comparison, and binary search over arrays
  with holes.
- **ImmutableSortedStringSet** (`StringSet.dfy`, `SerializeUtil.dfy`, `ByteStrings.dfy`): a length-prefixed format,
  its validating parser, its builder and binary search in the packed bytes.
- **IntVector and SortedIntVectorSet** (`IntVector.dfy`, `IntVectorRuns.dfy`, `SortedIntVectorSet.dfy`): width
  promotion and a sorted array as a set.
- **LowMemoryVector codecs** (`LowMemoryCodec.dfy`, `DigitCodec.dfy`): one-bit and two-bit packing.

Doubles are 64-bit patterns whose finite values are integers in units of 2^-1074; integer to double conversion is
round to nearest, ties to even, as in section 4.3.1 of IEEE 754-2019, defined on 53-bit significands and proved to
be the nearest value. The size of an integer type is written out wherever it matters. The limit on the size of
collections (`HT_MAX_SIZE`), the hash of a string, the classes of objects, the engine's order of array keys and the
value of a cast that C leaves undefined are parameters. The C library's sort is modelled by its outcome, which is
unique (`Sorting.dfy`).

What is written, hashed or compared is stated twice: by laws such as round trips, and in bytes, bits and numbers
(`StringSets.OneStringWritten`, `BitCodec.EncodedBytes`, `LowMemoryCodec.EncodedBits`, `StrictHashMixing.ConstantsHash`,
`StableCompares.KindsInOrder`), so that a writer and a reader cannot agree on a wrong format.

Run `dafny verify dfyconfig.toml` to check everything.

Some properties hold only under a condition, which is proved to be exact:

- `IntVector` promotes its type with a free that is right only when there is storage: with capacity 0 it frees the
  static empty list. A run of push, set, pushFront and insert is safe if and only if no value offered up to the
  first allocation is wider than the very first value (`IntVectorRuns.SafeIffNothingWidens`); pushFront of 1 and
  1000 on an empty vector is not (`IntVectorRuns.UnsafeRuns`). What the contracts say after such a free is what the
  code goes on to write; C promises nothing then. `SortedIntVectorSet` is always safe.
- `BitVector::unserialize` gives the encoded bits if and only if no 64-bit size wraps, that is for every string
  that fits in memory but the seven one-byte strings of value 1 to 7 (`BitVectors.BitVector.Unserialize`,
  `BitCodec.WrappingInputs`). Those pass the source's assertion that there is a bit, because the size is unsigned.
  A single zero byte gives an empty vector and fails that assertion where assertions are on.
- A packed LowMemoryVector is read back if and only if its length in bytes is below the decoder's overflow limit
  (`LowMemoryCodec.RoundTrip`). A list of the largest permitted size is written but refused (`LargestIsRefused`).
- Serialized BitVector bytes are reproduced by unserialize and serialize if and only if the padding bits are zero
  (`BitCodec.ReserializedIffPaddingIsZero`); the bytes 0xff and 1 are not (`BitCodec.PaddingIsCleared`).
- `SortedIntVectorSet::indexOf` is documented to return an offset or null, but answers false if and only if the set
  is nonempty and the narrowest type for the values offered to it cannot hold the value
  (`SortedIntVectorSets.IndexOf`), as for 1000 in the set of 1 (`IndexOfTooWide`); the model follows the code.
- Removing a key with two children from a red-black StrictTreeMap keeps the source's assertions true if and only if
  the next node in order has no child. That node's right child is cut off before the code asks whether it had one
  (`teds_stricttreemap.c:1193` and `1326`), so a black next node with a red child is taken for a childless one. Where
  assertions are off, the tree is still red-black if and only if that next node is not the right child itself
  (`StrictTreeMaps.StrictTreeMap.OffsetUnset`); removing the second of four keys set in ascending order leaves it
  unbalanced (`StrictTreeMapRuns.RemovalUnbalances`). The entries and their order are right all the same. What the
  contracts say after a false assertion is what the code goes on to do; a compiler may take it for unreachable.

## Model

| member | source | states |
|---|---|---|
| StrictHashMaps.StrictHashMap.OffsetSet | teds_stricthashmap.c:95-142 | Setting a key makes the map the association list with that key put in: an identical key keeps its place and old key, a new one goes to the end; the run of all operations still spells the contents; refused, with nothing changed, exactly for an absent key when no slot is free, gaps are too few to compact and doubling would pass the limit. |
| StrictHashMaps.StrictHashMap.OffsetUnset | teds_stricthashmap.c:1277-1286 | Unsetting deletes exactly that key from the association list and never reorders; an absent key changes nothing. |
| StrictHashMaps.StrictHashMap.ClearAll | teds_stricthashmap.c:1389-1396 | Clearing leaves the empty list and a sound table. |
| StrictHashMaps.StrictHashMap.ToPairs | teds_stricthashmap.h:43-50 | Walking the buckets from the first used slot, skipping gaps, lists exactly the association list in insertion order. |
| StrictHashMaps.StrictHashMap.Get | teds_stricthashmap.c:1223-1261 | Lookup returns the value that a linear scan of the association list finds, and nothing when there is none. |
| StrictHashMaps.StrictHashMap.FindBucket | teds_stricthashmap.c:72-88 | The chain walk ends (links strictly decrease) and agrees with a linear scan: the position of the bucket found is the first index of the key, and not found means absent. |
| StrictHashMaps.StrictHashMap.Insert | teds_stricthashmap.c:95-142 | Updated exactly when the key is present; over the limit exactly when it is absent from a full table that may neither be compacted nor doubled; otherwise added; and the contents become the list with the pair put in. |
| StrictHashMaps.StrictHashMap.UpdateExisting | teds_stricthashmap.c:106-118 | If the key is there the list becomes that with the key put in; else nothing changes. |
| StrictHashMaps.StrictHashMap.InsertNew | teds_stricthashmap.c:103-142 | An absent key goes to the end after room was made; refused exactly when no room can be made; the insertion pays for the walks. |
| StrictHashMaps.StrictHashMap.Overwrite | teds_stricthashmap.c:106-118 | Overwriting replaces one value and keeps the key and its position. |
| StrictHashMaps.StrictHashMap.SetCapacity | teds_stricthashmap.c:476-485 | The first allocation gives an empty, sound table. |
| StrictHashMaps.StrictHashMap.Grow | teds_stricthashmap.c:416-474 | Either branch keeps the contents, leaves every used slot live and a slot free; a compaction of n live entries leaves more than n/32 free; otherwise the size exactly doubles; refused exactly when neither is possible. |
| StrictHashMaps.StrictHashMap.WalkedIsLinear | teds_stricthashmap.c:416-474 | In every reachable state the slots walked by all compactions and doublings so far are at most 2 for each insertion and 31 for each removal in the history. |
| CompactionCost.CompactionPays | teds_stricthashmap.c:433-437 | A full table with more gaps than one in 33 slots has saved enough to pay for walking all of it. |
| CompactionCost.DoublingPays | teds_stricthashmap.c:439-473 | A full table has saved enough to pay for walking all of it when it doubles. |
| StrictHashMaps.StrictHashMap.RehashInplace | teds_stricthashmap.c:302-353 | In-place rehash is a stable compaction, whether the gap is leading or interior: contents in order, every used slot live, chains rebuilt. |
| StrictHashMaps.StrictHashMap.PackRest | teds_stricthashmap.c:313-343 | From the first gap on, the remaining live slots are packed down in order and relinked, the whole leading gap being skipped at once. |
| StrictHashMaps.StrictHashMap.RelinkAll | teds_stricthashmap.c:310-349 | Slots before the first gap are relinked where they are; together with the packing this processes every slot. |
| StrictHashMaps.StrictHashMap.Double | teds_stricthashmap.c:445-473 | Doubling copies the live entries in order to storage of twice the size and keeps the contents. |
| StrictHashMaps.StrictHashMap.Append | teds_stricthashmap.c:126-141 | The new pair goes after all others and in front of its chain. |
| StrictHashMaps.StrictHashMap.RemoveKey | teds_stricthashmap.c:1129-1196 | Removal reports whether the key was present and deletes it from the list; both ends of the used window stay on live slots. |
| StrictHashMaps.StrictHashMap.RemoveAt | teds_stricthashmap.c:1142-1190 | Unlinking, tightening the window and marking the slot removes exactly one list position. |
| StrictHashMaps.StrictHashMap.Unlink | teds_stricthashmap.c:1142-1158 | The one head or link that points at the slot is redirected past it, and nothing else. |
| StrictHashMaps.StrictHashMap.Tighten | teds_stricthashmap.c:1162-1182 | The used window is pulled in at whichever end the removed slot was, to the next live slot. |
| StrictHashMaps.StrictHashMap.PullEnd | teds_stricthashmap.c:1162-1165 | The end of the window moves down to just after the last live slot below it. |
| StrictHashMaps.StrictHashMap.PushStart | teds_stricthashmap.c:1171-1182 | The start of the window moves up to the next live slot, or back to 0 when the map became empty. |
| HashSlots.Head | teds_stricthashmap.h:24-29 | Or-ing a hash with the negated double size picks one of twice as many chain heads as slots. |
| HashSlots.HeadIsResidue | teds_stricthashmap.h:24-25 | That chain number is the hash modulo twice the table size. |
| HashSlots.ChainIsExact | teds_stricthashmap.c:72-88 | Following a chain from its head lists exactly the live slots of that hash class, in strictly decreasing index order. |
| HashSlots.EachLiveSlotOnOneChain | teds_stricthashmap.c:72-88 | Every live slot is on exactly one chain, the one of its hash, and no removed slot is on any. |
| HashSlots.LinkNext | teds_stricthashmap.c:126-141 | Head insertion of the next slot keeps every chain exact. |
| HashSlots.UnlinkKeepsChains | teds_stricthashmap.c:1142-1190 | Redirecting the one holder of a removed slot, with dead slots dropping off the end, keeps every chain exact. |
| HashSlots.OneHolder | teds_stricthashmap.c:1142-1158 | Exactly one head or link points at a live slot, so removal has one pointer to fix. |
| HashSlots.RemoveOk | teds_stricthashmap.c:1129-1196 | After removal the table is sound, the window is tight (both ends live, or both bounds 0) and the list lost exactly that entry. |
| HashSlots.AppendOk | teds_stricthashmap.c:126-141 | Appending an absent key keeps the table sound and puts the pair last. |
| HashSlots.PackedOk | teds_stricthashmap.c:302-353 | A fully packed table is sound and spells the same list as before. |
| HashSlots.PackLive | teds_stricthashmap.c:329-348 | Moving one live slot down keeps the packed part in order with exact chains and overwrites no slot still to be read. |
| AssocList.RunIsChronicled | teds_stricthashmap.c:95-142 | After any run of insert, overwrite, remove and clear the list holds exactly the keys whose last touching operation was an insertion, with that value, in the order in which their current stays began. |
| AssocList.ChronicleIsUnique | teds_stricthashmap.c:95-142 | That description from the history alone determines the list completely. |
| AssocList.HistoryRespectsIdentity | teds_util.h:103-130 | Identical keys have the same history, so which of them is named does not matter. |
| Bitwise.IsPow2ByMask | teds_util.h:169-171 | The mask test for powers of two holds exactly on powers of two. |
| Bitwise.NextPow2 | teds_util.h:199-234 | The next power of two fits both the size and the minimum. |
| Bitwise.NextPow2IsLeast | teds_util.h:199-234 | No smaller admissible power of two fits. |
| Bitwise.NextPow2In32Bits | teds_util.h:199-234 | The capacity as the source computes it, by a 32-bit shift, is that power of two up to 2^31 and 0 above. |
| Bitwise.Wrap | teds_deque.c:88-92 | Masking an index at most one lap off the buffer, with unsigned wrap-around below zero, lands on the same position modulo the capacity. |
| Deques.Deque.constructor | teds_deque.c:519-542 | A Deque made without an iterable is empty, without storage and without iterators. |
| Deques.Deque.GetEntryAt | teds_deque.c:88-92 | The masked slot holds the element at that logical index. |
| Deques.Deque.MoveToNewBuffer | teds_deque.c:987-1007 | Copying one or two segments preserves the logical sequence across the wrap point. |
| Deques.Deque.RaiseCapacity | teds_deque.c:1009-1029 | Raising the capacity keeps the sequence, costs one copy of each element, and is refused only beyond the limit. |
| Deques.Deque.ShrinkCapacity | teds_deque.c:1031-1048 | Shrinking keeps the sequence. |
| Deques.Deque.TryShrinkCapacity | teds_deque.c:1348-1354 | Storage is halved exactly when a quarter or less is in use (with the unsigned wrap of size 0), keeping the sequence. |
| Deques.Deque.Push | teds_deque.c:1050-1088 | The arguments are appended in order, and no iterator moves; refused as a whole exactly when the capacity needed is beyond the limit or 32 bits. |
| Deques.Deque.PushFront | teds_deque.c:1137-1182 | The arguments end up in front, the last one first, and iterators move along; without arguments nothing changes. |
| Deques.Deque.Pop | teds_deque.c:1356-1378 | Returns and drops the last element, or reports an empty Deque. |
| Deques.Deque.PopFront | teds_deque.c:1395-1415 | Returns and drops the first element, or reports an empty Deque. |
| Deques.Deque.Insert | teds_deque.c:1251-1275 | Insertion at any offset is list splice, moving at most half of the old elements (rounded up); a bad offset changes nothing; refused exactly when the capacity needed is beyond the limit or 32 bits. |
| Deques.Deque.OpenGap | teds_deque.c:1196-1245 | Either direction of the shift opens the gap without overwriting an unread element; at most half of the old elements move. |
| Deques.Deque.ShiftTailBack | teds_deque.c:1201-1213 | Moving the tail back across the wrap point keeps head and tail in order around the gap. |
| Deques.Deque.ShiftHeadForward | teds_deque.c:1214-1231 | Moving the head forward by retreating the start keeps head and tail in order around the gap. |
| Deques.Deque.OffsetUnset | teds_deque.c:1329-1346 | Removal at any offset is list delete, moving at most half of the old elements; a bad offset changes nothing. |
| Deques.Deque.CloseGap | teds_deque.c:1277-1327 | The shorter side slides over the removed element, and the sequence loses exactly that element. |
| Deques.Deque.OffsetSet | teds_deque.c:871-882 | Writing replaces one element or reports a bad offset. |
| Deques.Deque.AdjustIteratorsBeforeRemove | teds_deque.c:1090-1111 | Every live iterator at or after the removed index moves back by one, wrapping below 0. |
| Deques.Deque.AdjustIteratorsBeforeInsert | teds_deque.c:1113-1135 | Every live iterator at or after the insertion moves on by the number of new elements. |
| Deques.Deque.IteratorCurrent | teds_deque.c:575-594 | An iterator reads the element at its index, or nothing past the end. |
| Deques.Deque.GetIterator | teds_deque.c:625-645 | A new iterator joins the live ones without disturbing them; its position is open until it is rewound. |
| Deques.Deque.IteratorRewind | teds_deque.c:563-566 | Rewinding puts one iterator at index 0 and leaves the others where they are. |
| DequeCost.RunCost | teds_deque.c:987-1048 | Any m single-element operations from an empty Deque copy at most 2m elements in all resizes together; after each the storage is a power of two that holds the elements and is at most four times as large (beyond the minimum). |
| DequeCost.RunSteps | teds_deque.c:987-1415 | Running any such operations on a real empty Deque follows the cost model step by step, so it copies at most 2m elements. |
| DequeCost.StepCost | teds_deque.c:1348-1354 | One operation copies at most two elements more than the potential it releases. |
| DequeIteration.IterateInv | teds_deque.c:1090-1135 | Over any run of edits and advances, the visited survivors are exactly the survivors at or before the iterator, in order, including after the element at index 0 is removed and the index wraps. |
| DequeIteration.IterationIsSafe | teds_deque.c:563-613 | An iteration run to its end visits every element present throughout exactly once and in list order, and no element twice. |
| DequeIteration.RunIteration | teds_deque.c:563-613 | Running any edits and advances on a real Deque, with any number of other iterators live, follows the state machine step by step, up to a fatal edit, so an iteration run to its end reads every element present throughout exactly once and in order. |
| DequeIteration.PerformEdit | teds_deque.c:1050-1415 | Each edit of a Deque takes its contents and the iterator followed to the next state, whatever other iterators are live, and stops only where the capacity needed exceeds the limit. |
| DequeIteration.RemoveInv | teds_deque.c:1090-1104 | Removing any element between a read and the next advance keeps the iteration invariant. |
| DequeIteration.InsertInv | teds_deque.c:1113-1127 | Inserting anywhere keeps the iteration invariant. |
| DequeLimits.RemovalReindexes | teds_deque.c:1090-1104 | Positions after the removed element move back by one, position 0 of a removed first element becomes the largest word, positions past the end stay. |
| DequeLimits.InsertionReindexes | teds_deque.c:1113-1127 | Positions from the insertion on move by the number of elements; positions past the end stay. |
| DequeLimits.StaysOnElement | teds_deque.c:1090-1135 | An iterator on an element stays on it when another is removed or others are inserted. |
| DequeLimits.RoomBelowHalf | teds_deque.c:1009-1088 | Adding succeeds whenever at most half of the limit is needed, and never beyond the limit. |
| DequeLimits.FatalNeedsHalf | teds_deque.c:1009-1029 | An iteration is cut short only by an edit that needs more than half of the limit. |
| DequeLimits.FirstSlots | teds_deque.c:1009-1048 | One element takes four slots, the fifth eight; storage halves when a quarter is left. |
| PackedBits.UnshiftBits | teds_bitvector.c:1281-1302 | Shifting all bytes up by one bit prepends one bit to the list. |
| PackedBits.ShiftBits | teds_bitvector.c:1487-1507 | Shifting all bytes down drops the first bit. |
| PackedBits.InsertBits | teds_bitvector.c:1319-1331 | Inserting in one byte with carries through all later bytes gives the list with the bit spliced in, at every offset and size. |
| PackedBits.UnsetBits | teds_bitvector.c:1509-1541 | Deleting in one byte with carries gives the list without that bit, at every offset and size. |
| PackedBits.UnsetUndoesInsert | teds_bitvector.c:1305-1541 | Deleting at an offset what was just inserted there gives the list back. |
| PackedBits.InsertBitSpec | teds_bitvector.c:1326-1331 | The byte formula keeps the bits below the place, writes the bit and moves the others up. |
| PackedBits.RemoveBitSpec | teds_bitvector.c:1509-1513 | The byte formula drops one bit and moves the ones above it down. |
| PackedBits.WordShiftUp | teds_bitvector.c:1293-1297 | Shifting a little-endian 64-bit word up is shifting its eight bytes up one after the other. |
| PackedBits.WordShiftDown | teds_bitvector.c:1498-1500 | Shifting a word down with the next byte entering on top is shifting its eight bytes down. |
| BitVectors.BitVector.UnshiftBytewise | teds_bitvector.c:1283-1286 | The byte loop leaves the bytes shifted up with the new bit at the bottom. |
| BitVectors.BitVector.UnshiftWords | teds_bitvector.c:1287-1302 | The 64-bit path leaves the same bytes as the byte loop, for every size. |
| BitVectors.BitVector.ShiftBytewise | teds_bitvector.c:1502-1506 | The byte loop leaves the bytes shifted down. |
| BitVectors.BitVector.ShiftWords | teds_bitvector.c:1487-1507 | The 64-bit path leaves the same bytes as the byte loop, for every size. |
| BitVectors.BitVector.UnshiftSingle | teds_bitvector.c:1265-1303 | Prepends one bit, growing when full. |
| BitVectors.BitVector.PushFront | teds_bitvector.c:1334-1363 | The arguments end up in front, the last one first. |
| BitVectors.BitVector.PopFront | teds_bitvector.c:1543-1562 | Returns and drops the first bit, or reports an empty vector. |
| BitVectors.BitVector.InsertCarrying | teds_bitvector.c:1319-1331 | The loop shifts the later bytes up and splices the bit into its byte. |
| BitVectors.BitVector.InsertSingle | teds_bitvector.c:1305-1332 | The list becomes the bits before the offset, the new bit, and the rest. |
| BitVectors.BitVector.Insert | teds_bitvector.c:1365-1401 | Several bits are spliced in, in order; a bad offset changes nothing. |
| BitVectors.BitVector.UnsetCarrying | teds_bitvector.c:1515-1541 | The loop closes the gap in its byte and shifts the later bytes down. |
| BitVectors.BitVector.UnsetOffset | teds_bitvector.c:1515-1541 | The list loses exactly the bit at the offset. |
| BitVectors.BitVector.OffsetUnset | teds_bitvector.c:1564-1587 | Public removal deletes one bit or reports a bad offset, shrinking storage when far too large. |
| BitVectors.BitVector.OffsetSet | teds_bitvector.c:1042-1055 | Writing replaces one bit and no other, or reports a bad offset. |
| BitVectors.BitVector.Push | teds_bitvector.c:1236-1263 | The arguments are appended in order. |
| BitVectors.BitVector.PushSingle | teds_bitvector.c:1207-1233 | Appends one bit, overwriting whatever the unused bit held. |
| BitVectors.BitVector.Pop | teds_bitvector.c:1439-1459 | Returns and drops the last bit, or reports an empty vector. |
| BitVectors.BitVector.SetRange | teds_bitvector.c:367-391 | The bytes are those with every bit of the range set to the value. |
| BitCodec.FillBits | teds_bitvector.c:367-391 | Those bytes spell the old bits followed by copies of the value. |
| BitVectors.BitVector.SetSize | teds_bitvector.c:394-426 | The list is cut to a prefix or padded with the given value. |
| BitVectors.BitVector.Reallocate | teds_bitvector.c:163-193 | Growing or shrinking the storage keeps the bits. |
| BitVectors.BitVector.Serialize | teds_bitvector.c:733-746 | The output is the canonical encoding of the bit list, whatever the padding bits held. |
| BitVectors.BitVector.Unserialize | teds_bitvector.c:789-812 | Accepts exactly the empty string and those whose last byte is below 8; the vector then holds the encoded bits within its storage if and only if no 64-bit size wraps around; when one to seven unused bits are claimed of no bytes, the size is just below 2^64 over no storage. |
| BitVectors.BitVector.FromBytes | teds_bitvector.c:619-630 | Size and capacity are computed modulo 2^64 and the bytes that fit are copied. |
| BitCodec.WrappingInputs | teds_bitvector.c:619-630 | Among strings that fit in memory the size wraps exactly for one-byte strings of value 1 to 7. |
| BitCodec.ThreeUnusedBitsOfNone | teds_bitvector.c:619-630 | The string of the one byte 3 is accepted, encodes nothing and gets a size three below 2^64. |
| BitCodec.EncodedDoesNotWrap | teds_bitvector.c:619-630 | Nothing that was serialized wraps when it is read. |
| BitCodec.MaskedCopyIsCanonical | teds_bitvector.c:733-746 | The copied and masked bytes depend on the bit list alone. |
| BitCodec.SerializeRoundTrip | teds_bitvector.c:733-812 | Every bit list, the empty one included, survives serialization. |
| BitCodec.EncodedBytes | teds_bitvector.c:733-787 | Element i is bit i % 8 of byte i / 8, lowest first; unused bits are 0 and the last byte is their number. |
| BitCodec.DecodedBits | teds_bitvector.c:789-812 | Bits are read from the same places, and a last byte above 7 is what is refused. |
| BitCodec.ThreeBitsWritten | teds_bitvector.c:733-812 | True, false, true is written as 05 05 and read back. |
| BitCodec.ReserializedIffPaddingIsZero | teds_bitvector.c:789-812 | Accepted bytes are written back unchanged if and only if their padding bits are zero. |
| BitCodec.PaddingIsCleared | teds_bitvector.c:733-812 | The accepted bytes 0xff and 1 are not written back unchanged. |
| BitVectorRuns.RunOps | teds_bitvector.c:163-172 | Any sequence of operations gives the list of the same operations; it stops early only where the list would reach 2^61 bits, so smaller runs complete. |
| BitVectorRuns.RunAndCopy | teds_bitvector.c:733-812 | After any run the serialized bytes depend on the list alone, and reading them gives the list back. |
| ByteStrings.StrcmpIsDictionaryOrder | teds_immutablesortedstringset.c:631-643 | Binary comparison is the dictionary order in both directions, and zero for equal strings alone. |
| ByteStrings.StrcmpAntisymmetric | teds_immutablesortedstringset.c:631-643 | Swapping the arguments swaps the sign. |
| ByteStrings.StrcmpTransitive | teds_immutablesortedstringset.c:631-643 | The order is transitive, strictly so when one step is strict. |
| Float64s.ScaledMonotone | teds.c:991-1002 | The bit pattern of a magnitude orders doubles by exact value. |
| Float64s.RoundsToNearestEven | teds.c:944-947 | The conversion from integer to double returns the nearest double, a tie going to the even pattern, and no double lies strictly between the integer and it. |
| Float64s.FromIntRounds | teds.c:944-971 | The converted integer has the rounded value, and every double on one side of the integer is on the same side of the conversion or equal to it. |
| StableCompares.DoubleAgainstLong | teds.c:941-982 | Comparing an integer and a double decides by exact numeric value even where conversion rounds, the integer first on ties, NaN above. |
| StableCompares.RoundedTie | teds.c:951-981 | When integer and double are equal after rounding, the casts recover the exact order, whatever an out-of-range cast yields. |
| StableCompares.DoublesByNumber | teds.c:991-1002 | Two doubles compare by exact value, with NaN above infinity and both zeros equal. |
| StableCompares.ComparesRanks | teds.c:931-1037 | Unless both values are arrays the comparison is the lexicographic order of kind, exact number, integer before double, text and handle. |
| StableCompares.KindsInOrder | teds.c:931-940 | Values of different kinds stand in the order null, false, true, number, string, array, object, resource. |
| StableCompares.WithinAKind | teds.c:983-1036 | Integers compare by number, strings by the dictionary, objects by class name and then handle, resources by handle. |
| StableCompares.NumbersByValue | teds.c:941-1002 | Integers and doubles compare by exact value, an integer before an equal double, NaN after every other number. |
| StableCompares.ArraysByFirstDifference | teds.c:1008-1013 | The array with fewer entries comes first; at equal counts the first entry with another key or another value decides. |
| Float64s.FamiliarPatterns | teds.c:941-1002 | The patterns of zero, one, minus one, one and a half, two, the least number, infinity and NaN stand for these. |
| StableCompares.StableCompareAntisymmetric | teds.c:931-1037 | Swapping the arguments negates the result, for all values, nested arrays included, given a total order of array keys. |
| StableCompares.StableCompareTransitive | teds.c:931-1037 | The comparison is transitive across all values, strictly if either step is strict, given a total order of array keys. |
| StableCompares.TiesAreIdentical | teds.c:931-1037 | A tie means exactly: identical, or both NaN, at every level of nested arrays. |
| StableCompares.EntriesTransitive | teds.c:1008-1013 | Arrays of one size compared entry by entry, calling back for the values, are transitive from any entry on. |
| StableCompares.CastsDoNotMatter | teds.c:951-981 | The result does not depend on what C leaves open about casting 2^63, inside arrays either. |
| StableCompares.NanIsGreatestNumber | teds.c:991-1002 | Every number but another NaN is below NaN. |
| StableCompares.IntegerBeforeDouble | teds.c:963-982 | An integer comes before a double exactly when its exact value is not above the double's. |
| RedBlackTrees.RotatedInOrder | teds_stricttreemap.c:70-121 | A rotation on either side leaves the in-order list as it is. |
| RedBlackTrees.WholeIsRedBlack | teds_stricttreemap.c:123-174 | A tree is red-black exactly when the subtree at hand is and fits the rest: same black height, siblings in order, no red under red. |
| RedBlackTrees.BlackBelowGrandparentFits | teds_stricttreemap.c:149-155 | Recolouring below the grandparent keeps the order and moves a red node under red up by two levels. |
| RedBlackTrees.RotatedGrandparentFits | teds_stricttreemap.c:158-172 | With a black uncle the one or two rotations give a black root of unchanged black height. |
| RedBlackTrees.RedSiblingMovesShortage | teds_stricttreemap.c:1266-1273 | With parent, sibling and nephews black, the missing black moves up to the parent. |
| RedBlackTrees.SwapColorsEnds | teds_stricttreemap.c:1274-1280 | With a red parent, swapping its colour with the sibling's ends the repair. |
| RedBlackTrees.SiblingUpEnds | teds_stricttreemap.c:1254-1265 | With a red far nephew, one rotation ends the repair, whatever the parent's colour. |
| RedBlackTrees.NearNephewUpPrepares | teds_stricttreemap.c:1281-1293 | With only the near nephew red, a rotation of the sibling leads to the far nephew's case. |
| RedBlackTrees.RedSiblingUpPrepares | teds_stricttreemap.c:1294-1306 | With a red sibling, one rotation leads to a red parent with a black sibling and the same shortage. |
| RedBlackTrees.BalanceIsExact | teds_stricttreemap.c:1670-1690 | The debugging check returns the number of blacks that every way down has, if they agree. |
| RedBlackBuild.DepthIsLogarithmic | teds_stricttreemap.c:41-55 | With n blacks on every way down there are at least 2^n - 1 entries and at most 2n + 1 levels. |
| RedBlackRebalance.RepairedIsRedBlack | teds_stricttreemap.c:123-174 | Climbing from a red node hung under a red one ends in a red-black tree. |
| RedBlackRebalance.RepairedInOrder | teds_stricttreemap.c:123-174 | That climb never changes the in-order list, in any tree. |
| RedBlackRebalance.RebalanceAfterInsert | teds_stricttreemap.c:123-174 | The loop computes that climb. |
| RedBlackRebalance.RebalanceAfterRemoval | teds_stricttreemap.c:1205-1318 | The loop keeps the in-order list in any tree; it ends in a red-black tree when the short side is the one it looks at first, and in an unbalanced one, past a false assertion, when a red leaf hangs on the short right side. |
| RedBlackRebalance.RemoveNode | teds_stricttreemap.c:1391-1437 | Exactly the node's entry leaves the in-order list; from a red-black tree the assertions hold exactly when the node lacks a child or its next node has none, and the result is red-black, or else unbalanced exactly when that next node with a child is the right child itself. |
| RedBlackRebalance.ReplaceByNext | teds_stricttreemap.c:1320-1368 | The same for a node with two children, whose next node takes its place and colour. |
| RedBlackRebalance.RemoveWithOneChild | teds_stricttreemap.c:1391-1424 | With at most one child the removal keeps a red-black tree so and every assertion holds. |
| RedBlackRebalance.FindLeftmost | teds_stricttreemap.c:1177-1203 | The walk left ends at the leftmost node with nothing before it. |
| RedBlackBuild.BuiltIsRedBlack | teds_stricttreemap.c:295-326 | A tree built at once is red-black: all levels but the last are full and black. |
| RedBlackBuild.BuiltInOrder | teds_stricttreemap.c:295-326 | A tree built at once holds the entries in the order given. |
| RedBlackBuild.LeafDepth | teds_stricttreemap.c:328-341 | The loop counts the full levels. |
| StrictTreeMaps.DescentFinds | teds_stricttreemap.c:41-55 | The descent ends at the key or at the leaf where it belongs: everything before is below the key, everything after above. |
| StrictTreeMaps.InsertedKeeps | teds_stricttreemap.c:183-247 | Setting a key keeps the entries ascending, makes them those of the association list with the key put in, and keeps a red-black tree so. |
| StrictTreeMaps.StrictTreeMap.FindKey | teds_stricttreemap.c:41-55 | The loop is the descent and compares at most once per level. |
| StrictTreeMaps.StrictTreeMap.Get | teds_stricttreemap.c:1490-1511 | Lookup returns what a linear scan of the entries finds. |
| StrictTreeMaps.StrictTreeMap.Insert | teds_stricttreemap.c:183-247 | Updated exactly when the key is present; fatal exactly at a new key that makes the count reach the limit; the tree is else the one described. |
| StrictTreeMaps.StrictTreeMap.RemoveKey | teds_stricttreemap.c:1439-1449 | Removal reports presence and deletes exactly that key, with the exact conditions for the assertions and for balance. |
| StrictTreeMaps.StrictTreeMap.OffsetSet | teds_stricttreemap.c:1513-1525 | A set key is recorded, and the entries stay those of the whole history, ascending. |
| StrictTreeMaps.StrictTreeMap.OffsetUnset | teds_stricttreemap.c:1527-1537 | An unset key is recorded and deleted; balance is lost exactly when the removed node's right child is its next node and has a child. |
| StrictTreeMaps.StrictTreeMap.ClearAll | teds_stricttreemap.c:1699-1720 | Clearing leaves an empty tree. |
| StrictTreeMaps.StrictTreeMap.InitFromArray | teds_stricttreemap.c:343-390 | Building from an array, at once as far as it ascends and one by one after that, gives a red-black tree with exactly its entries. |
| StrictTreeMaps.StrictTreeMap.DebugIsBalanced | teds_stricttreemap.c:1670-1697 | The check answers true exactly when all ways down have equally many blacks. |
| StrictTreeMaps.StrictTreeMap.SoundIsShallow | teds_stricttreemap.c:41-55 | While every assertion has held, the tree is red-black and as deep as about twice the logarithm of the number of entries. |
| SortedEntries.SortedOnce | teds_stricttreemap.c:183-247 | The entries and the order determine the list completely. |
| StrictTreeMapRuns.StableOrderIsTotal | teds.c:931-1037 | The stable comparison is an order that the tree can keep. |
| StrictTreeMapRuns.SameKeyInBothMaps | teds.c:931-1037 | Keys tie in the tree's order exactly when StrictHashMap takes them for one key. |
| StrictTreeMapRuns.TreeSortsHashMap | teds_stricttreemap.c:183-1449 | After the same operations a StrictTreeMap holds exactly the entries of a StrictHashMap, in ascending order. |
| StrictTreeMapRuns.RunOps | teds_stricttreemap.c:183-1449 | Any sequence of operations ends with the entries of the history in ascending order, in a red-black tree if every assertion held; the process ends early only at a new key for a full map. |
| StrictTreeMapRuns.RemovalUnbalances | teds_stricttreemap.c:1320-1332 | Of any four keys set in ascending order the second is removed: an assertion is false and the tree is no longer balanced. |
| StrictTreeMapRuns.DeeperNextNode | teds_stricttreemap.c:1320-1332 | Where the next node with a child lies deeper, the assertion is false but the tree stays red-black. |
| Zvals.IdenticalReflexive | teds_util.h:103-130 | Key identity is reflexive, NaN included, through nested arrays. |
| Zvals.IdenticalSymmetric | teds_util.h:103-130 | Key identity is symmetric. |
| Zvals.IdenticalTransitive | teds_util.h:103-130 | Key identity is transitive. |
| StrictHashes.HashArray | teds.c:1092-1136 | The loop computes the fold over keys and hashes of values, and a constant for the empty array. |
| StrictHashes.HashValue | teds.h:193-225 | The switch computes the hash of every kind of value. |
| StrictHashes.IdenticalHashEqually | teds.h:193-225 | Identical values hash equally, through nested arrays, both zeros and every NaN. |
| StrictHashes.ZvalKeysAreLawful | teds.h:227-249 | Key identity and the 32-bit strict hash meet what StrictHashMap requires of its keys. |
| StrictHashMapRuns.RunOps | teds_stricthashmap.c:95-1396 | Any sequence of operations on a map of PHP values ends in the list that the history describes; it completes unless some list comes within a 33rd of half the limit, and stops only at a new key; it walks at most 31 slots per operation in all compactions and doublings. |
| StrictHashes.InlineHashInjective | teds.h:227-234 | Multiplying by the odd constant and swapping bytes loses nothing on 64 bits. |
| StrictHashes.ConvertDoubleExact | teds.h:150-191 | The converted number of a double is the same exactly for doubles that are the same key. |
| StrictHashes.NoCollisions | teds.h:193-249 | Two integers, or two doubles, have the same 64-bit hash exactly when they are the same key. |
| StrictHashMixing.LosesNoValue | teds.c:1119-1129 | Mixing in another value hash gives another fold. |
| StrictHashMixing.LosesNoKey | teds.c:1119-1129 | Mixing in another key hash gives another fold. |
| StrictHashMixing.LosesNoFold | teds.c:1119-1129 | Mixing the same entry into another fold gives another fold. |
| StrictHashMixing.ArraysHashApart | teds.c:1085-1135 | Equally long arrays that differ in one hash, of a key or of a value, have different strict hashes. |
| StrictHashMixing.OneElementShows | teds.c:1085-1135 | Arrays that differ in one integer element have different strict hashes. |
| StrictHashMixing.SwapsBytes | teds.h:230-235 | The byte swap puts the bytes in the opposite order. |
| StrictHashMixing.ConstantsHash | teds.h:197-216 | The strict hashes of null, false, true and the empty array, as numbers. |
| StrictHashMixing.IntegersHash | teds.h:197-216 | The strict hashes of 5 and -1, as numbers. |
| StrictHashMixing.DoublesHash | teds.h:155-206 | The strict hashes of zero and of NaN, as numbers. |
| StrictHashMixing.HandlesHash | teds.h:207-216 | The strict hashes of object 7 and resource 7, as numbers. |
| StrictHashMixing.TextHashes | teds.h:197-216 | A string is hashed by the engine, and that hash is multiplied and swapped. |
| StrictHashMixing.SingletonsHash | teds.c:1085-1135 | The strict hashes of the arrays `[1]` and `[2]`, as numbers. |
| StrictHashMixing.NamedEntryHashes | teds.c:1085-1135 | The strict hash of an array with one named entry, as a number. |
| StrictHashMixing.KeyHashIsLowHalf | teds.h:251-253 | Keys of StrictHashMap use the low 32 bits. |
| BinarySearch.Search | teds.c:554-620 | With holes anywhere the search ends; what it reports is right for any comparison; in order, everything up to the reported slot is below the target and everything after it above. |
| BinarySearch.SearchAscending | teds.c:622-708 | On an array that ascends by a total preorder it finds an equal entry exactly when there is one, else the last live entry below the target, else nothing. |
| BinarySearch.AscendingIsInOrder | teds.c:554-620 | An ascending array is in order for every target, wherever the holes are. |
| SerializeUtil.SizeRoundTrip | teds_serialize_util.h:50-100 | A size followed by that many bytes is read back through each of the three encodings; the reader's demand for one more byte never bites. |
| SerializeUtil.Uint16RoundTrip | teds_serialize_util.h:17-30 | The two bytes beyond a sixteen-bit number that the reader sums do not show. |
| SerializeUtil.Uint32RoundTrip | teds_serialize_util.h:32-48 | A 32-bit number is read back. |
| SerializeUtil.ReadSize | teds_serialize_util.h:71-100 | A successful read advances and stays within the input. |
| SerializeUtil.SizeIsWrittenAs | teds_serialize_util.h:52-67 | A size below 253 is its own byte; below 65535 it is 253 and two bytes; else 254 and four bytes, lowest first. |
| SerializeUtil.SizeIsReadAs | teds_serialize_util.h:69-101 | The reader takes exactly these forms, wants one more byte after the longer ones, and refuses the tag 255. |
| SerializeUtil.CountIsFourBytes | teds_serialize_util.h:28-44 | The four bytes of a count are its base-256 digits, lowest first. |
| StringSets.Unserialize | teds_immutablesortedstringset.c:487-552 | Accepts exactly the empty string and the inputs whose records tile them, gives the places of the strings, and reports the error at the place where the parse stops. |
| StringSets.OneStringWritten | teds_immutablesortedstringset.c:640-720 | The set of "v_a" is the bytes 01 00 00 00 03 76 5f 61. |
| StringSets.OneStringRead | teds_immutablesortedstringset.c:487-552 | Those bytes are read as one string of three bytes. |
| StringSets.WrongSizeRefused | teds_immutablesortedstringset.c:487-552 | With the size written as 03 03 00 there are bytes to spare and nothing is read. |
| StringSets.LongerStringWritten | teds_immutablesortedstringset.c:640-720 | A string of 253 bytes or more has 253 and its two bytes of length before it. |
| StringSets.UnserializeNonempty | teds_immutablesortedstringset.c:487-548 | On success the records tile the whole input into the header's number of strictly ascending strings; on any error no such reading exists. |
| StringSets.CountFits | teds_immutablesortedstringset.c:502-514 | The early test of the count refuses nothing that would be accepted. |
| StringSets.AcceptedIsAscending | teds_immutablesortedstringset.c:516-538 | Comparing neighbours makes the whole accepted list strictly ascending. |
| StringSets.ReadingIsUnique | teds_immutablesortedstringset.c:517-543 | Bytes can be read in at most one way. |
| StringSets.SortAndDeduplicate | teds_immutablesortedstringset.c:678-715 | From any strings the builder writes the count and one record per distinct string, ascending, with their places, or refuses over 4 GB. |
| StringSets.UniqueStringsAreTheSet | teds_immutablesortedstringset.c:679-701 | Sorting and dropping equal neighbours leaves the members of the given strings, each once, strictly ascending. |
| StringSets.InitFromArrayValues | teds_immutablesortedstringset.c:718-746 | No values give the empty set; others the set built from them, refused exactly over 4 GB. |
| StringSets.BuiltIsWellFormed | teds_immutablesortedstringset.c:678-715 | What the builder writes is a well-formed tiling that spells the same strings. |
| StringSets.ParseInvertsBuild | teds_immutablesortedstringset.c:487-715 | Parsing built bytes gives exactly the strings they were built from. |
| StringSets.BuildAndParse | teds_immutablesortedstringset.c:487-746 | Building from any strings, serializing and parsing succeeds exactly up to 4 GB, and gives every member once, in order. |
| StringSets.BinarySearch | teds_immutablesortedstringset.c:824-849 | Returns an index exactly when the string there equals the target, and nothing when it is no member. |
| Deduplication.DeduplicatedMembers | teds_immutablesortedstringset.c:686-701 | Deduplication keeps the members. |
| Sorting.SortedIsOrdered | teds_immutablesortedstringset.c:679 | The library sort's outcome ascends. |
| Sorting.AnySort | teds_immutablesortedstringset.c:679 | Every ascending rearrangement is that outcome, so the algorithm does not matter. |
| IntVectors.FitsIsRange | teds_intvector.c:1868-1870 | Surviving the cast to a width means lying in its range. |
| IntVectors.WidthRanges | teds_intvector.c:1796-1815 | The four widths hold the signed ranges of one, two, four and eight bytes. |
| IntVectors.TagForIsNarrowest | teds_intvector.c:1817-1897 | A width holds every value offered so far exactly when it is no narrower than the type tag. |
| IntVectors.IntVector.Promote | teds_intvector.c:1796-1815 | Copying into wider storage never changes the list; what is freed afterwards is the static empty list exactly when the old capacity was 0. |
| IntVectors.IntVector.UpdateTypeTag | teds_intvector.c:1834-1897 | The tag becomes the narrowest width for all values offered so far, this one included; the list is unchanged; the static empty list is freed exactly when there is no storage, a type is set and the value does not fit it. |
| IntVectors.IntVector.InitTypeTag | teds_intvector.c:1817-1832 | The first value chooses its narrowest width. |
| IntVectors.IntVector.Push | teds_intvector.c:1899-1925 | Appends the value, nothing truncated; frees the static empty list exactly when there is no storage and the type set cannot hold the value. |
| IntVectors.IntVector.SetValueAtOffset | teds_intvector.c:1690-1710 | Replaces one value or reports a bad offset; the value counts as offered either way, since the width check comes first; the same condition for a bad free as for a push. |
| IntVectors.IntVector.PushFront | teds_intvector.c:2090-2145 | The arguments end up in front, the last one first; the static empty list is freed exactly when there is no storage and an argument does not fit the type after the first one. |
| IntVectors.IntVector.Insert | teds_intvector.c:2147-2205 | The arguments are spliced in, in order; a bad offset changes nothing and offers nothing; the same condition for a bad free as for pushFront. |
| IntVectors.SafeIffTypeStays | teds_intvector.c:1834-1897 | The arguments all fit the type after the first one exactly when the type for all offers is that type. |
| IntVectorRuns.RunOps | teds_intvector.c:1690-2205 | Any run of push, set, pushFront and insert from an empty vector ends with the right list under the narrowest type for all values offered, and frees the static empty list exactly when the run is not safe. |
| IntVectorRuns.SafeIffNothingWidens | teds_intvector.c:1796-1815 | A run is safe exactly when no value offered up to the first allocation is wider than the very first value. |
| IntVectorRuns.UnsafeRuns | teds_intvector.c:1796-1815 | Four short runs that are not safe, such as pushFront of 1 and 1000 on an empty vector. |
| SortedIntVectorSets.Locate | teds_intvector.c:1927-1948 | The repeated binary search finds the value or the one place where it belongs. |
| SortedIntVectorSets.Contains | teds_intvector.c:1647-1688 | Agrees with membership, also for values too wide for the current type. |
| SortedIntVectorSets.IndexOf | teds_intvector.c:1606-1645 | Gives the offset of a member; answers false instead of null exactly when the set is nonempty and the narrowest type for the values offered so far cannot hold the value. |
| SortedIntVectorSets.IndexOfTooWide | teds_intvector.c:1606-1645 | In the set of 1 alone, looking for 1000 answers false. |
| SortedIntVectorSets.Add | teds_intvector.c:1927-1963 | The set gains the value, the result says whether it was new, the array stays strictly ascending, and the static empty list is never freed. |
| SortedIntVectorSets.Remove | teds_intvector.c:1965-2007 | The set loses the value, the result says whether it was there, and the array stays strictly ascending. |
| SortedIntVectorSets.SortAndDeduplicate | teds_intvector.c:635-673 | The array becomes strictly ascending with the same members, whether or not it was sorted. |
| SortedIntVectorSets.SortedIntsAscend | teds_intvector.c:651 | The library sort's outcome is an ascending rearrangement. |
| SortedIntVectorSets.IsSorted | teds_intvector.c:606-614 | Comparing neighbours tells exactly whether the array is strictly ascending. |
| SortedIntVectorSets.CloseUp | teds_intvector.c:652-664 | The in-place loop leaves one of each run of equal values. |
| SortedIntVectorSets.KeepDistinct | teds_intvector.c:654-661 | Keeping an element exactly when it differs from the last one kept, in place, spells the deduplicated list and reads no overwritten element. |
| SortedIntVectorSets.Construct | teds_intvector.c:675-707 | Construction gives exactly the set of the given values. |
| SortedIntVectorSets.RunOps | teds_intvector.c:1927-2007 | Any run of construction, additions and removals ends in the mathematical set, with the right answer at every step. |
| SortedIntVectorSets.AscendingIsCanonical | teds_intvector.c:1927-2007 | The array is determined by the set it stands for. |
| LowMemoryCodec.RoundTrip | teds_lowmemoryvector.c:701-994 | Unpacking what was packed gives the list back if and only if its length in bytes of the chosen width is below the decoder's overflow limit; otherwise it is refused, never misread. |
| LowMemoryCodec.LargestIsRefused | teds_lowmemoryvector.c:701-707 | A list of booleans of the largest size is written but refused when read. |
| LowMemoryCodec.Serialize | teds_lowmemoryvector.c:1008-1021 | Two bits each are used exactly when a null occurs, else one bit each. |
| LowMemoryCodec.EncodedBits | teds_lowmemoryvector.c:918-955 | Bit i % 8 of byte i / 8 is 1 exactly when element i is true; unused bits are 0 and the last byte counts them. |
| LowMemoryCodec.EncodedPairs | teds_lowmemoryvector.c:957-994 | The pair of element i is 1 for null, 2 for false, 3 for true; unused pairs are 0 and the last byte counts them. |
| LowMemoryCodec.DecodedBits | teds_lowmemoryvector.c:701-744 | A bit 1 is read as true and a bit 0 as false. |
| LowMemoryCodec.DecodedPairs | teds_lowmemoryvector.c:750-789 | The pairs 0 and 1 are read as null, 2 as false, 3 as true. |
| LowMemoryCodec.WriteTwoSmall | teds_lowmemoryvector.c:918-1021 | Eight trues are written as ff 00; four nulls, true, false, null, true as 55 db 00. |
| LowMemoryCodec.OneTrueRead | teds_lowmemoryvector.c:701-744 | The bytes 01 07 are read as one true. |
| LowMemoryCodec.ConvertBoolTypesToBitset | teds_lowmemoryvector.c:918-955 | Whole and partial bytes together encode the list one bit per element, then the number of unused bits. |
| LowMemoryCodec.ConvertBoolOrNullTypesToBitset | teds_lowmemoryvector.c:957-994 | Whole and partial bytes together encode the list two bits per element, then the number of unused pairs. |
| LowMemoryCodec.UnserializeFromBitset | teds_lowmemoryvector.c:701-744 | Accepts exactly the admissible inputs and unpacks every element, including those of a partial last byte. |
| LowMemoryCodec.UnserializeFromBoolOrNullSet | teds_lowmemoryvector.c:750-789 | The same for pairs. |
| LowMemoryCodec.EightBitsAreDigits | teds_lowmemoryvector.c:926-935 | The eight shifted and added bits are the byte with those binary digits. |
| LowMemoryCodec.FourPairsAreDigits | teds_lowmemoryvector.c:975-980 | The four shifted and or-ed pairs are the byte with those base-4 digits. |
| DigitCodec.DecodeEncoded | teds_lowmemoryvector.c:701-994 | Digits packed into bytes, lowest first, are unpacked to the same digits for every length. |

## Left out

- StrictHashMap iterators: on growth the adjustment loop at `teds_stricthashmap.c:385` does not advance, and advancing from a gap steps past an entry; iterator safety is proved for Deque instead.
- Deque clone and clear with live iterators: clone allocates fewer slots than its mask covers and clear empties the iterator registry; the registry is a list of positions here, not the intrusive linked list.
- BitVector indexOf, contains, iterators, words and ranges of integers read from the bits: the first two look for the opposite bit, the rest are plain reads.
- BitVectors.BitVector.SetRange: the source asserts that the end is below the capacity although setSize calls it with the end equal to the capacity; the model admits that call, as release builds do.
- IntVector popFront, pop and offsetUnset: the first moves a wrong number of bytes, the others add only easy members.
- IntVectors.IntVector.Promote: elements are integers cut to their width on every store, not raw bytes, so byte-level moves are element moves; of memory management only the free after a promotion is modelled.
- The public SortedIntVectorSet::remove, which discards the helper's result and always returns false.
- String-set clone, and non-canonical length encodings, some of which the parser accepts: encode after decode is not claimed.
- ByteStrings.BinaryStrcmp: the engine's string comparison, which stable_compare calls, is not part of this model and is assumed to be this binary order for strings of any length.
- StableCompares.StableCompare: the engine's ordered comparison of two arrays is not part of this model; it is assumed to compare the counts, then entry by entry the keys, by a total order that is a parameter (`Engine.OrdersKeys`), and then the values by calling back.
- Zvals.IdenticalOrBothNan: arrays are finite trees compared entry by entry in order; reference cycles are not modelled.
- StrictHashes.HashArray: the detection of cyclic references and the fallback hash for them are not modelled, since arrays are finite trees here.
- StringSets.InitFromArrayValues: values that are not strings, which the source converts or rejects, are not modelled.
- Deques.Deque.constructor: construction from an array or a traversable is not modelled, nor is the end of an iterator's life, which takes it off the registry.
- BinarySearch.Search: one search stands for the packed and the bucket version, which differ in how the key of a slot is stored; a comparison callback that throws ends the search without a result in the source and is not modelled.
- Bitwise.NextPow2: found by doubling; the source counts leading zeros or smears bits.
- Deques.Deque.Push, PushFront and Insert: lists of more than 2^31 elements are reported as not fitting 32 bits; what the source goes on to do with the capacity 0 it computes then is not modelled.
- Deques.Deque.RaiseCapacity: the cost counts every live element once for each reallocation.
- Running out of memory, reference counts, exception texts, frees other than IntVector's on promotion, and big-endian builds other than as the byte-at-a-time paths.
- LowMemoryVector, IntVector and BitVector operations that are plain reads, and the codecs for fixed-width integers and doubles, which copy memory.
- CachedIterable, ImmutableIterable, MutableIterable, ImmutableSequence, Vector and the sorted vector map: plain loops, or relying on engine code that is not part of this model.
- StrictTreeMaps.StrictTreeMap.Insert: nodes are tree values and parent pointers are the path from the node at hand to the root, so rotations make new values instead of redirecting pointers in place, and aliasing between nodes is not captured; nor are assertions that only compare such pointers.
- StrictTreeMap iterators, which step back when their node is removed, pop and popFront, which remove the last and the first node the same way, and StrictTreeSet, which repeats the map's code without values.
- The heaps: plain sift loops over the same order.
- PHP parameter parsing, property tables and class registration.
