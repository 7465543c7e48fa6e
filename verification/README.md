# Verified models of the PMIx containers, codec and client get

This project models the stateful core of PMIx in Dafny and proves what it is for.

- **Hash table.** Open addressing with linear probing, growth with rehashing, and deletion that
  re-inserts the rest of the cluster instead of leaving a tombstone. Three forms of key; byte keys
  live in buffers that the table allocates and frees. `HashKeys`, `Probing`, `HashStorage`,
  `HashSpec`, `HashTable`.
- **Pointer array.** Slots beside an index of free slots: one bit per slot, a count and the lowest
  free position. Words are numbers with bit operations defined on their binary digits. `Bits`,
  `PointerArray` (modules `PointerSpec`, `FreeBits`, `PointerArray`).
- **Bitmap.** The same words, as a set of bit numbers that grows. `Bitmap`, `BitmapRuns` (modules
  `BitmapSpec`, `BitmapRuns`).
- **List.** A ring of linked items with a sentinel and a cached length. The links are heap objects;
  a ghost sequence says which items the ring holds. Runs are over two lists. `List` (modules `Links`,
  `Splicing`, `Ends`, `List`), `ListRuns` (modules `ListSpec`, `ListRuns`), `Sequences`.
- **Ring buffer and hotel.** Two bounded containers, each proved against its runs. `RingBuffer`
  (modules `RingSpec`, `RingBuffer`), `Hotel` (modules `HotelSpec`, `Hotel`).
- **Client get.** The progress-thread side of `PMIx_Get_nb`: pending requests, messages to the
  server, coalescing, replies, timers and queries, as a state machine and as the class that
  implements it. `GetSpec` (modules `GetData`, `GetBatch`, `GetProtocol`), `GetProofs`, `GetRuns`,
  `GetAnswers`, `ClientGet`.
- **Process map and base64 codec** of the PMI-2 tools. `ProcessMap` (modules `Layout`,
  `ProcessMap`), `Base64` (modules `Base64Blocks`, `Base64Layout`, `Base64`), `Base64Text` (modules
  `Base64Alphabet`, `Base64Text`).

Each class is proved against a specification on plain values, and the specification has theorems of
its own: over every run the table is a finite map that returns the last value written; the pointer
array's index always agrees with its slots; what a ring hands back and what it holds are the items
pushed, in order; the guest who leaves a hotel room is the one who entered it; each get request is
in one place and is answered at most once. Pointers are numbers with 0 for NULL. Allocation
succeeds, and sizes overflow neither `size_t` nor `int`, except where base64 truncates to `int`.

`dafny verify dfyconfig.toml` checks the whole project.

## Where the code and its documentation differ

The model follows the code. Each difference is stated with an input and with the exact condition.

- Inserting at index 0 of a list counts the item twice (`ListSpec.InsertAtZeroOvercounts`). The lengths
  are right throughout a run exactly when no call inserts at index 0 of a list that has items
  (`ListSpec.LengthIsItemsIff`). A list whose length overcounts but that has no item left breaks the
  list it is joined into (`List.JoinBreaks`); a join breaks a list in no other case
  (`List.Head.Join`).
- `pmix_bitmap_set_max_size` stores words, while the limit is documented in bits. Initialising keeps
  to the documented limit exactly for limits of at most 1 (`Bitmap.InitLimitInBitsIff`), setting a bit
  exactly for a limit of 2 (`Bitmap.SetBitLimitInBitsIff`), so no limit is kept by both.
- Base64 passes the number of bytes left as an `int`. The round trip holds exactly for values
  shorter than 2^31 bytes (`Base64.RoundTripIff`).
- A hotel checkout after an eviction is documented to fail gracefully. It ends the stay of the
  next guest instead (`HotelSpec.LateCheckOutHitsNewGuest`); it fails exactly when the guests given
  the room since have left it (`HotelSpec.LateCheckOutFailsIff`).
- A get reply whose status cannot be read drops a request without a callback and strands those
  coalesced with it, and a timer that runs out on a request with a message in flight leaves the reply
  naming a released request. Messages and waiting requests match throughout a run exactly when no
  leader times out and no one is stranded (`GetRuns.KeptIffBenign`). Every request is answered once in
  the end exactly when every reply could be read (`GetRuns.AllAnsweredOnceIff`).
- A get callback with an error may come with the value of another request of the batch; exactly when
  is `GetBatch.ValueIsLatestFound`.

## Model

| member | source | states |
|---|---|---|
| `HashKeys.HashBytes` | src/class/pmix_hash_table.c:537-550 | The hash loop over a byte key, with 64-bit wrap-around at every step, computes the polynomial in 31 of the bytes, reduced once at the end |
| `HashKeys.HashIsPolynomial` | src/class/pmix_hash_table.c:537-550 | Reducing modulo 2^64 at each step is the same as reducing the exact polynomial once |
| `Probing.EmptySlotExists` | src/class/pmix_hash_table.c:111-129 | With fewer keys than slots some slot is empty, which is what ends every probe loop |
| `Probing.MissIsAbsent` | src/class/pmix_hash_table.c:303-314 | A probe from the home of a key that meets an empty slot proves the key is nowhere in the table |
| `Probing.InsertKeeps` | src/class/pmix_hash_table.c:340-362 | Filling the slot where the probe ended keeps every key reachable from its home without a gap, including around the end of the table |
| `Probing.HoleMoves` | src/class/pmix_hash_table.c:241-262 | Moving an entry into the hole behind it leaves exactly one hole in the scanned part of the cluster |
| `Probing.HoleStays` | src/class/pmix_hash_table.c:241-262 | An entry whose probe path does not cross the hole may stay, and the hole remains the only gap |
| `Probing.HoleIsHarmless` | src/class/pmix_hash_table.c:241-262 | Once the scan meets an empty slot, the hole lies on no key's path and the no-gap invariant holds again |
| `Probing.ListingIsMap` | src/class/pmix_hash_table.c:708-793 | The entries in slot order are the map: each key once, with its value |
| `HashStorage.BufferHasOneOwner` | src/class/pmix_hash_table.c:554-569 | Every key buffer allocated and not yet freed belongs to exactly one valid slot |
| `HashStorage.CopyAll` | src/class/pmix_hash_table.c:185-204 | Once all old slots are copied, the new table satisfies the full invariant and holds the same map, key for key |
| `HashStorage.DropStored` | src/class/pmix_hash_table.c:226-240 | After a slot is dropped and its buffer freed, every other slot's key is still in a live buffer of its own |
| `HashStorage.MoveLinked` | src/class/pmix_hash_table.c:241-262 | Moving a slot during cluster repair carries its buffer along without sharing it |
| `HashSpec.MapHoldsLastWrite` | src/class/pmix_hash_table.c:283-397 | After any operations the map holds for each key the last value set and not removed since, told from calls and return codes alone |
| `HashSpec.GetReturnsLastWrite` | src/class/pmix_hash_table.c:283-316 | A get returns that value, and NOT_FOUND exactly when there is none |
| `HashSpec.AnswersArePromised` | src/class/pmix_hash_table.c:283-397 | In every run of an initialised table each call is answered as the calls before it say: refused exactly when its key is of another type than the first since the table was emptied; otherwise a set succeeds, a get or remove finds exactly what was last written, and the size counts what was |
| `HashSpec.OneTypeIsNeverRefused` | src/class/pmix_hash_table.c:283-397 | As long as the keys are of one type no call is refused |
| `HashSpec.OtherTypeIsRefused` | src/class/pmix_hash_table.c:294-298 | A key of another type than the one in use is an error and changes nothing |
| `HashSpec.NotReadyRefuses` | src/class/pmix_hash_table.c:289-293 | Before initialisation every keyed call is refused, a set with its own status |
| `HashTable.RoundCapacityUp` | src/class/pmix_hash_table.c:101-106 | The result is 1 modulo 30, strictly above the argument and at most 30 above it |
| `HashTable.GrowthEnlarges` | src/class/pmix_hash_table.c:158-206 | Scaling by the growth ratio and rounding up strictly enlarges any capacity |
| `HashTable.DensityBelowOne` | src/class/pmix_hash_table.c:111-129 | The growth trigger never exceeds the capacity |
| `HashTable.Table.constructor` | src/class/pmix_hash_table.c:80-88 | A constructed table is valid, empty and not yet initialised |
| `HashTable.Table.Init2` | src/class/pmix_hash_table.c:111-129 | Initialising gives an empty table of the rounded capacity with its growth trigger |
| `HashTable.Table.Init` | src/class/pmix_hash_table.c:132-136 | The same with the default density and growth |
| `HashTable.Table.Probe` | src/class/pmix_hash_table.c:303-314 | The probe loop ends at the slot of the key if it is stored, else at the first empty slot on its path |
| `HashTable.Table.Get` | src/class/pmix_hash_table.c:283-316 | The answer and key-type commitment of the finite map, error cases included |
| `HashTable.Table.Set` | src/class/pmix_hash_table.c:319-363 | The table becomes the map with the key set, or is refused for a wrong key type or missing initialisation |
| `HashTable.Table.Store` | src/class/pmix_hash_table.c:340-362 | The table grows exactly when a new key brings the size to the trigger; the entries gain the key and nothing else |
| `HashTable.Table.Rehash` | src/class/pmix_hash_table.c:172-204 | Re-inserting every slot into a larger table ends, and keeps the map, the count and the buffers |
| `HashTable.Table.Grow` | src/class/pmix_hash_table.c:158-206 | The capacity becomes the rounded scaled one, strictly larger, and the entries stay |
| `HashTable.Table.FindPlace` | src/class/pmix_hash_table.c:241-262 | The inner probe of the repair returns the hole if it lies between the key's home and its slot, else the slot itself |
| `HashTable.Table.CloseGap` | src/class/pmix_hash_table.c:241-262 | The two nested repair loops end with the no-gap invariant restored and every entry and buffer kept |
| `HashTable.Table.Extract` | src/class/pmix_hash_table.c:213-265 | Removing a slot and repairing its cluster deletes exactly that key from the map |
| `HashTable.Table.RemoveEltAt` | src/class/pmix_hash_table.c:213-265 | An empty slot is an error and changes nothing; a full one loses exactly its entry |
| `HashTable.Table.Remove` | src/class/pmix_hash_table.c:366-397 | The map without the key, NOT_FOUND when it was absent, errors as specified |
| `HashTable.Table.RemoveAll` | src/class/pmix_hash_table.c:139-155 | The empty map, every buffer freed, and as many frees as allocations |
| `HashTable.Table.GetNextElt` | src/class/pmix_hash_table.c:708-723 | The next valid slot after the given one, or an error when there is none |
| `HashTable.Table.Traverse` | src/class/pmix_hash_table.c:726-793 | First-then-next visits every entry once and nothing else |
| `HashTable.Table.SizeIsCardinality` | src/class/pmix_hash_table.c:111-206 | The stored size is the number of keys of the map |
| `HashTable.Run` | src/class/pmix_hash_table.c:111-397 | A new table under any operations answers as the finite map does and each call as promised from the calls before it, growths included, and ends with one live buffer per byte key |
| `PointerSpec.NewSizeExceeds` | src/class/pmix_pointer_array.c:398-439 | A growth that is not refused leaves room beyond the index asked for |
| `PointerSpec.AddPlacesAtFirstFree` | src/class/pmix_pointer_array.c:219-253 | Add stores at the least free index, or at the old size after growing, changes no other slot, and fails exactly when nothing is free and size + 1 reaches the maximum |
| `PointerSpec.TestAndSetTakesOnlyFree` | src/class/pmix_pointer_array.c:332-386 | Test-and-set takes a slot exactly when it is free, or not there but below the maximum, and sets it alone; a slot in use keeps its pointer |
| `PointerSpec.SetItemSetsOne` | src/class/pmix_pointer_array.c:266-316 | Setting succeeds exactly for an index that is there or below the maximum, and sets that slot alone |
| `PointerSpec.SetSizeOnlyGrows` | src/class/pmix_pointer_array.c:388-396 | A size on request keeps the slots and adds free ones beyond it, refused at the maximum |
| `PointerSpec.NewSizeIsNextBlock` | src/class/pmix_pointer_array.c:403-409 | Growth goes to the next whole number of blocks above the index, or to the maximum |
| `PointerSpec.SlotsHoldLastPut` | src/class/pmix_pointer_array.c:219-386 | In every run each slot holds what was last put there and not cleared since, told from calls and answers |
| `PointerSpec.GetItemReturnsLastPut` | src/class/pmix_pointer_array.h:123-133 | Getting an item returns that, and NULL where nothing was put |
| `FreeBits.MarkUsed` | src/class/pmix_pointer_array.c:131-137 | Setting one bit keeps the bits equal to the slots in use |
| `FreeBits.MarkFree` | src/class/pmix_pointer_array.c:142-148 | Flipping one bit back keeps them equal when a slot is emptied |
| `FreeBits.GrownSynced` | src/class/pmix_pointer_array.c:398-439 | Growing by any amount, also not by whole words, keeps bits, count and lowest free in step |
| `FreeBits.FirstFreeIsLowestClear` | src/class/pmix_pointer_array.c:94-126 | The first free slot is the lowest clear bit of the first word that is not full |
| `Bits.NarrowDownFinds` | src/class/pmix_pointer_array.c:105-125 | Narrowing by 32, 16, 8, 4, 2 and 1 bits finds the lowest clear bit of a word |
| `PointerArray.LowestZero` | src/class/pmix_pointer_array.c:105-125 | The narrowing code returns the lowest clear bit of a word that has one |
| `PointerArray.Table.Init` | src/class/pmix_pointer_array.c:177-209 | A table of empty slots with its index in step, or an error for unusable limits |
| `PointerArray.Table.FindFirstZero` | src/class/pmix_pointer_array.c:94-126 | The scan stays within the words and returns what a linear search for a free slot would |
| `PointerArray.Table.GrowTable` | src/class/pmix_pointer_array.c:398-439 | Refusal at the maximum, otherwise growth to the rounded size with the old slots kept |
| `PointerArray.Table.Add` | src/class/pmix_pointer_array.c:219-253 | The slots and the index returned are those of the specification, and the free index stays in step |
| `PointerArray.Table.SetItem` | src/class/pmix_pointer_array.c:266-316 | All four cases of old and new value keep bits, count and lowest free in step; growth and refusal as specified |
| `PointerArray.Table.TestAndSet` | src/class/pmix_pointer_array.c:332-386 | A slot in use is left alone and reported; a free one is taken, growing if needed |
| `PointerArray.Table.SetSize` | src/class/pmix_pointer_array.c:388-396 | Growth on request, never shrinking |
| `PointerArray.Table.GetItem` | src/class/pmix_pointer_array.h:123-133 | The slot's content, NULL outside the table |
| `PointerArray.Table.RemoveAll` | src/class/pmix_pointer_array.h:187-201 | Every slot empty and the index in step |
| `PointerArray.Run` | src/class/pmix_pointer_array.c:177-439 | A new array under any operations answers as the specification does, and afterwards bits, free count and lowest free slot are in step with the slots |
| `Bits.CarrySetsLowestClear` | src/class/pmix_bitmap.c:228-231 | Or with the successor sets the lowest clear bit and no other |
| `Bits.ClearLowestCounts` | src/class/pmix_bitmap.c:385-396 | And with the predecessor removes one set bit, so the counting loop counts them all |
| `Bits.TotalIsSize` | src/class/pmix_bitmap.c:379-400 | The sum of the word counts is the size of the set |
| `Bitmap.StoredMaxIsWords` | src/class/pmix_bitmap.c:63-77 | What is stored as the maximum is a number of words |
| `Bitmap.InitLimitInBitsIff` | src/class/pmix_bitmap.c:63-91 | Initialising honours the maximum as a number of bits exactly when it is at most 1 |
| `Bitmap.SetBitLimitInBitsIff` | src/class/pmix_bitmap.c:63-115 | Setting a bit honours it, letting through exactly the bits below it, only when it is 2 |
| `Bitmap.NoLimitInBits` | src/class/pmix_bitmap.c:63-115 | So no maximum is a limit in bits for both |
| `Bitmap.OneBitLimitTakesTwo` | src/class/pmix_bitmap.c:63-148 | A map limited to one bit and initialised with one takes bit 1 |
| `Bitmap.ClampKeepsTarget` | src/class/pmix_bitmap.c:120-137 | For a bit within the maximum, growing to the clamped size loses the bit's word only for bit 0 of a map without words and with maximum 0 |
| `Bitmap.Map.SetMaxSize` | src/class/pmix_bitmap.c:63-77 | For a size that is not negative, the maximum becomes the number of words for that many bits |
| `Bitmap.Map.Init` | src/class/pmix_bitmap.c:80-105 | An empty set in enough words, or refusal |
| `Bitmap.Map.SetBit` | src/class/pmix_bitmap.c:108-148 | The set gains the bit, growing to just its word, or refuses one beyond the maximum |
| `Bitmap.Map.ClearBit` | src/class/pmix_bitmap.c:151-165 | The set loses the bit, or refuses one beyond the words |
| `Bitmap.Map.IsSetBit` | src/class/pmix_bitmap.c:168-185 | Membership, false outside the words |
| `Bitmap.Map.FindAndSetFirstUnset` | src/class/pmix_bitmap.c:213-247 | The position is the least number not in the set, and only it is added; when all words are full the map grows, or refuses at the maximum |
| `Bitmap.Map.ChangedBit` | src/class/pmix_bitmap.c:232-239 | Shifting the difference down finds the position of the bit that changed |
| `Bitmap.Map.ClearAll` | src/class/pmix_bitmap.c:188-197 | The empty set |
| `Bitmap.Map.SetAll` | src/class/pmix_bitmap.c:200-210 | Every number the words can hold |
| `Bitmap.Map.IsClear` | src/class/pmix_bitmap.c:402-412 | True exactly for the empty set |
| `Bitmap.Map.IsDifferent` | src/class/pmix_bitmap.c:321-346 | True exactly when the number of words or the sets differ |
| `Bitmap.Map.NumSetBits` | src/class/pmix_bitmap.c:379-400 | The number of members in the first `len` words |
| `Bitmap.Map.AndInPlace` | src/class/pmix_bitmap.c:249-271 | Intersection, refused for different numbers of words |
| `Bitmap.Map.OrInPlace` | src/class/pmix_bitmap.c:273-295 | Union, refused for different numbers of words |
| `Bitmap.Map.XorInPlace` | src/class/pmix_bitmap.c:297-319 | Symmetric difference, refused for different numbers of words |
| `BitmapSpec.RunFits` | src/class/pmix_bitmap.c:63-247 | In every run the members lie within the words |
| `BitmapSpec.TakesInOrder` | src/class/pmix_bitmap.c:213-247 | With exactly the first k numbers taken, the next one handed out is k, refused exactly when it is beyond both the words and the maximum |
| `BitmapRuns.RunAll` | src/class/pmix_bitmap.c:63-412 | A new bitmap under any settings, clearings, searches, tests and counts answers as a finite set with a number of words and a maximum |
| `Splicing.Transfer` | src/class/pmix_list.c:159-188 | The pointer surgery that takes a range out of one ring and links it in elsewhere |
| `Splicing.MoveAcross` | src/class/pmix_list.c:159-188 | Between two rings: both are linked both ways again, the range in order in its new place |
| `Splicing.MoveWithin` | src/class/pmix_list.c:159-188 | Within one ring: two adjacent stretches are exchanged and the ring is linked both ways |
| `List.Head.constructor` | src/class/pmix_list.c:82-97 | An empty ring of length 0 |
| `List.Head.InsertPos` | src/class/pmix_list.h:760-790 | The item comes just before the given position and the length grows by one |
| `List.Head.Append` | src/class/pmix_list.h:537-576 | The item comes last |
| `List.Head.Prepend` | src/class/pmix_list.h:592-626 | The item comes first |
| `List.Head.RemoveItem` | src/class/pmix_list.h:470-512 | Exactly that item leaves, and the node before it is returned |
| `List.Head.RemoveFirst` | src/class/pmix_list.h:645-688 | The first item, NULL for length 0, and the sentinel when the length overcounts an empty ring |
| `List.Head.RemoveLast` | src/class/pmix_list.h:707-749 | The same at the other end |
| `List.Head.WalkTo` | src/class/pmix_list.c:134-138 | The walk to an index ends at that node counted round the ring, also past the sentinel when the length overcounts |
| `List.Head.Insert` | src/class/pmix_list.c:113-156 | The item's place for every index below the length, refusal from the length on, and the double count at index 0 |
| `ListSpec.PlaceIsIndex` | src/class/pmix_list.c:134-138 | An index up to the number of items is the place of the item; a larger one counts on round the ring; a negative one counts as 1 |
| `List.Head.Splice` | src/class/pmix_list.c:206-229 | Exactly the range moves, in order, to before the position, between lists or within one; both stay rings and both lengths are right |
| `Sequences.MovedIsCutAndMerged` | src/class/pmix_list.c:206-229 | A splice within a list takes the range out and puts it back in one piece before the same item |
| `Splicing.MoveNothing` | src/class/pmix_list.c:159-188 | Moving the range of an empty ring hangs its sentinel into the other ring; following the links then ends there for ever, and no items whatever close the ring |
| `Splicing.TrappedIsNoRing` | src/class/pmix_list.c:159-188 | A sentinel whose links lead to a node that links to itself is on no ring, whatever its items |
| `List.Head.Join` | src/class/pmix_list.c:191-203 | All items move over in order, the other list is empty and the lengths add up; the ring survives exactly when the other list has an item or a length of 0, and otherwise no items close it |
| `List.Overcounted` | src/class/pmix_list.c:113-156 | An append, an insertion at index 0 and two removals leave a list with no item and a length of one |
| `List.JoinBreaks` | src/class/pmix_list.c:191-203 | Joining that list into a fresh one leaves the fresh list on no ring |
| `List.Head.WalkForward` | src/class/pmix_list.h:207-210 | Following next links visits exactly the items in order |
| `List.Head.WalkBackward` | src/class/pmix_list.h:229-232 | Following prev links visits them in the opposite order |
| `List.Head.RemoveWhere` | src/class/pmix_list.h:253-257 | A safe loop that removes matching items looks at every item once and leaves the others in order |
| `ListSpec.LengthIsItemsPlusSurplus` | src/class/pmix_list.c:113-229 | In every run on two lists, joins and splices both ways included, the lengths exceed the items by exactly the insertions counted twice, less the sentinels handed out for them |
| `ListSpec.LengthIsItemsIff` | src/class/pmix_list.c:113-229 | The lengths are the numbers of items at every point of a run exactly when no call inserts at index 0 of a list that has items |
| `ListSpec.InsertAtZeroOvercounts` | src/class/pmix_list.c:123-154 | Two items with a length of three |
| `ListSpec.EmptiedStillCounts` | src/class/pmix_list.c:123-154 | Both removed, no item with a length of one |
| `ListRuns.RunAll` | src/class/pmix_list.c:113-229 | In any run of insertions, removals, joins and splices on two lists every call returns what is specified; afterwards the forward walks meet the specified items, the backward walks meet them reversed, and the lengths are the specified ones |
| `RingSpec.NothingLostOrReordered` | src/class/pmix_ring_buffer.c:83-128 | In every run the items handed back, followed by those held, are the items pushed, in order |
| `RingSpec.KeepsTheLatest` | src/class/pmix_ring_buffer.c:83-105 | After pushes alone the ring holds the latest ones, as many as fit |
| `RingSpec.ResultsArePromised` | src/class/pmix_ring_buffer.c:83-154 | In every run a push returns the oldest item exactly when the ring holds as many as it has room for, a pop the oldest held, a poke the i-th oldest or the newest, told from the items pushed and handed back |
| `RingSpec.PokeForetellsPop` | src/class/pmix_ring_buffer.c:130-154 | Poking at i shows what the pop after i pops returns, and below 0 what was just pushed |
| `RingBuffer.Ring.Init` | src/class/pmix_ring_buffer.c:42-81 | An empty ring of the size asked for |
| `RingBuffer.Ring.Push` | src/class/pmix_ring_buffer.c:83-105 | The item is newest; a full ring returns and drops its oldest |
| `RingBuffer.Ring.Pop` | src/class/pmix_ring_buffer.c:107-128 | The oldest item leaves, NULL from an empty ring |
| `RingBuffer.Ring.Poke` | src/class/pmix_ring_buffer.c:130-154 | The i-th oldest item or NULL, and the newest for a negative index |
| `RingBuffer.RunAll` | src/class/pmix_ring_buffer.c:66-154 | A new ring under any operations answers as the bounded queue does |
| `HotelSpec.StepGood` | src/class/pmix_hotel.h:185-308 | Every operation keeps the free stack listing each empty room exactly once and no other |
| `HotelSpec.StaysAlternate` | src/class/pmix_hotel.h:185-308 | Over every run, stays in a room follow one another, each ends at most once, and the guest who leaves is the one who entered |
| `HotelSpec.AnswerTellsEvent` | src/class/pmix_hotel.h:185-308 | A check-in answers the room entered, a checkout or eviction the guest who leaves, and nothing when nothing happens |
| `HotelSpec.KnockTellsStay` | src/class/pmix_hotel.h:334-349 | In every run a knock answers the guest whose stay has not ended |
| `HotelSpec.EmptyTellsStays` | src/class/pmix_hotel.h:316-322 | In every run the hotel is empty exactly when every stay in every room has ended |
| `HotelSpec.FillsFromTop` | src/class/pmix_hotel.c:70-79 | Rooms of a new hotel are given out from the highest number down, until all are taken |
| `HotelSpec.FullIffAllOccupied` | src/class/pmix_hotel.h:189-192 | Check-in is refused exactly when every room has a guest |
| `HotelSpec.EmptyIffAllFree` | src/class/pmix_hotel.h:316-322 | The stack is full exactly when no room has a guest |
| `HotelSpec.ReusedIff` | src/class/pmix_hotel.h:185-269 | A vacated room gets a new guest exactly when at some later point fewer rooms are free than when it was vacated |
| `HotelSpec.LateCheckOutFailsIff` | src/class/pmix_hotel.h:38-39 | A checkout after an eviction returns nobody and changes nothing exactly when the guests given the room since have left |
| `HotelSpec.LateCheckOutHitsNewGuest` | src/class/pmix_hotel.h:38-39 | The check-in right after an eviction gets the same room, and the late checkout ends that stay |
| `Hotel.Hotel.constructor` | src/class/pmix_hotel.c:96-107 | A hotel without rooms |
| `Hotel.Hotel.Init` | src/class/pmix_hotel.c:47-94 | All rooms empty and on the stack, or refusal that changes nothing |
| `Hotel.Hotel.CheckIn` | src/class/pmix_hotel.h:185-208 | The guest gets the room on top of the stack and a pending timer, or is turned away |
| `Hotel.Hotel.CheckInWithRes` | src/class/pmix_hotel.h:214-231 | The same when a room is known to be free; the room had no guest, as the code asserts |
| `Hotel.Hotel.CheckOut` | src/class/pmix_hotel.h:244-269 | The room is emptied, its timer stopped and its number put on the stack within bounds; nothing happens for an empty room |
| `Hotel.Hotel.CheckOutAndReturn` | src/class/pmix_hotel.h:282-308 | The same, with the guest returned |
| `Hotel.Hotel.Evict` | src/class/pmix_hotel.c:22-44 | A timer that comes due ends the stay of a real guest, who is passed to the callback |
| `Hotel.Hotel.IsEmpty` | src/class/pmix_hotel.h:316-322 | True exactly when no room has a guest |
| `Hotel.Hotel.Knock` | src/class/pmix_hotel.h:334-349 | The guest of the room, who stays |
| `Hotel.RunAll` | src/class/pmix_hotel.h:185-349 | A new hotel under any check-ins, checkouts and evictions answers as specified; afterwards the stack lists each empty room once and a timer is pending exactly for each room with a guest |
| `GetData.LookupMerge` | src/client/pmix_client_get.c:334-337 | After a reply's data is accepted, a key is found with the latest value that came for it, else as before |
| `GetBatch.SplitExact` | src/client/pmix_client_get.c:344-347 | One part of the list holds exactly the requests about a process, the other the rest |
| `GetBatch.ValueIsLatestFound` | src/client/pmix_client_get.c:295-365 | The value a callback is given is that of the latest request of the batch so far that was found, and NULL exactly when there is none or it was not a single value |
| `GetBatch.ErrorWithStaleValue` | src/client/pmix_client_get.c:354-365 | A request that was not found gets an error together with another request's value |
| `GetAnswers.OwnValueAnswers` | src/client/pmix_client_get.c:587-596 | A key with one entry in the client's own store is answered at once with that value, and nothing else happens |
| `GetAnswers.ServerValueAnswers` | src/client/pmix_client_get.c:602-666 | The same from the server's store when the own one has nothing |
| `GetAnswers.NullKeyAnswersAll` | src/client/pmix_client_get.c:385-431 | A NULL key is answered with exactly the entries stored, in order |
| `GetAnswers.SeveralEntriesAnswerAll` | src/client/pmix_client_get.c:385-431 | A key stored more than once is answered with all its entries, in order |
| `GetAnswers.UnknownStartupData` | src/client/pmix_client_get.c:607-650 | Startup data that is not there is not found, unless a query is asked for and can be made |
| `GetAnswers.UnknownNotAsked` | src/client/pmix_client_get.c:682-704 | A server, a client without a connection and an optional request do not ask |
| `GetAnswers.UnknownIsAsked` | src/client/pmix_client_get.c:706-741 | Otherwise the request joins one about the same process, or sends a message, or fails without waiting |
| `GetAnswers.AskedAgainAgrees` | src/client/pmix_client_get.c:339-370 | A key brought by a reply and asked for again gets the value that the waiting request got |
| `GetAnswers.OtherDataStays` | src/client/pmix_client_get.c:321-337 | A reply changes what is stored about its own process alone, in the server's store, and only if it brought data |
| `GetAnswers.ReplyStatus` | src/client/pmix_client_get.c:353-365 | Each callback of a reply succeeds exactly when one entry is stored, is not found when none is, and is invalid when several are |
| `GetAnswers.QueryAnswers` | src/client/pmix_client_get.c:433-486 | A query that succeeds with one value answers with it; every other outcome answers without a value and with its own status |
| `GetAnswers.TimerAnswers` | src/client/pmix_client_get.c:372-383 | A timer answers its own request with TIMEOUT and takes no other off the list |
| `GetProofs.StepPlaced` | src/client/pmix_client_get.c:339-383 | No event loses a request, answers one twice, or answers one that was not made |
| `GetProofs.StepSafeIff` | src/client/pmix_client_get.c:372-383 | Every message keeps naming a waiting request, and no process has two, exactly when no leader's timer runs out |
| `GetProofs.StepCoveredIff` | src/client/pmix_client_get.c:321-329 | Whoever waits has a message coming, exactly when no reply is unreadable while others wait for it |
| `GetProofs.OutstandingIffWaiting` | src/client/pmix_client_get.c:700-737 | A process has a message under way if and only if a request about it waits, and then just one |
| `GetProofs.NothingInFlight` | src/client/pmix_client_get.c:339-370 | With nothing in flight nothing waits, and each request is answered, with a query or dropped, once |
| `GetRuns.SafeRunIff` | src/client/pmix_client_get.c:372-383 | Throughout a run every message names a waiting request, and no process has two, exactly when no leader's timer runs out |
| `GetRuns.CoveredRunIff` | src/client/pmix_client_get.c:321-329 | Throughout a safe run whoever waits has a message coming, exactly when no reply is unreadable while others wait for it |
| `GetRuns.KeptIffBenign` | src/client/pmix_client_get.c:288-383 | The two together, from any good state |
| `GetRuns.FinalSafe` | src/client/pmix_client_get.c:288-742 | Every safe run ends with each request in one place, and no callback is taken back |
| `GetRuns.EveryRequestAccounted` | src/client/pmix_client_get.c:288-742 | After any benign run each request is in one place, and if nothing is in flight none waits |
| `GetRuns.DroppedCount` | src/client/pmix_client_get.c:321-329 | Each unreadable reply drops one request, and nothing else drops any |
| `GetRuns.AllAnsweredOnceIff` | src/client/pmix_client_get.c:288-742 | A safe run from the start that ends with nothing under way has answered every request exactly once if and only if every reply could be read |
| `GetRuns.LoneUnreadableReplyDrops` | src/client/pmix_client_get.c:321-329 | One request, one unreadable reply: nothing is stranded, and the request is never answered |
| `GetRuns.FinalOrdered` | src/client/pmix_client_get.c:700-731 | Requests wait in the order they were made, throughout every safe run |
| `GetRuns.ReplyAnswersItsProc` | src/client/pmix_client_get.c:344-369 | A readable reply answers exactly the requests about its process, in the order made, and leaves the others in theirs |
| `GetRuns.ReplyBringsValue` | src/client/pmix_client_get.c:334-365 | A request whose key came with the reply is answered with success and the value that came |
| `GetRuns.StrandedStays` | src/client/pmix_client_get.c:700-710 | One event other than a timer leaves stranded requests stranded: later ones join them, and no reply is for them |
| `GetRuns.StrandedForever` | src/client/pmix_client_get.c:372-710 | In every safe run a stranded request waits to the end, or its own timer runs out and it is answered TIMEOUT; without timers it waits to the end |
| `GetRuns.UnreadableReplyStrands` | src/client/pmix_client_get.c:321-329 | Two requests coalesced, one unreadable reply: one dropped, the other waiting with nothing in flight |
| `GetRuns.LeaderTimeoutDangles` | src/client/pmix_client_get.c:372-383 | A timer runs out on the request that a message in flight names |
| `ClientGet.FetchFor` | src/client/pmix_client_get.c:353-364 | Status and value for one request, with the old value kept when nothing is found |
| `ClientGet.Client.AlreadyAsked` | src/client/pmix_client_get.c:700-710 | The search of the pending list tells exactly whether a request about the process waits |
| `ClientGet.Client.AskServer` | src/client/pmix_client_get.c:682-741 | Refusal, coalescing, sending and send failure, as the protocol says |
| `ClientGet.Client.Submit` | src/client/pmix_client_get.c:537-742 | A new request takes the protocol's step through every branch |
| `ClientGet.Client.ServePending` | src/client/pmix_client_get.c:339-370 | The loop that removes from the list it walks answers exactly the requests about the process, in order |
| `ClientGet.Client.HandleReply` | src/client/pmix_client_get.c:288-370 | Lost, unreadable, failed, rejected and good replies take the protocol's step |
| `ClientGet.Client.HandleTimeout` | src/client/pmix_client_get.c:372-383 | The request is answered with TIMEOUT and released |
| `ClientGet.Client.HandleQuery` | src/client/pmix_client_get.c:433-486 | The request handed to a query is answered with what the query found |
| `ClientGet.RunAll` | src/client/pmix_client_get.c:288-742 | A client that handles the events of any safe run makes exactly the callbacks of the protocol |
| `Layout.RanksOfAreExact` | contrib/perf_tools/pmi2_pmap_parser.c:77-122 | The ranks of a node are strictly increasing and are exactly the ranks placed on it |
| `Layout.RanksPartition` | contrib/perf_tools/pmi2_pmap_parser.c:56-122 | Every rank is in the list of one node, its own |
| `Layout.ColumnsAt` | contrib/perf_tools/pmi2_pmap_parser.c:30-51 | The node of the k-th rank of a rectangle is the base plus k divided by the ranks per host |
| `Layout.RanksOfColumns` | contrib/perf_tools/pmi2_pmap_parser.c:30-51 | The ranks of a rectangle on one node are one column of it, or none |
| `Layout.NodeOfPlace` | contrib/perf_tools/pmi2_pmap_parser.c:30-51 | Local rank l of host h of tuple (base,H,L) is rank R + hL + l, R being the ranks of the tuples before, and is on node base + h |
| `Layout.PlaceOfRank` | contrib/perf_tools/pmi2_pmap_parser.c:30-51 | Every rank of the map is of that form |
| `Layout.PictureIsTuples` | contrib/perf_tools/pmi2_pmap_parser.c:30-51 | The picture has as many ranks as the tuples together and shows each on the node the tuples say |
| `Layout.SmallMap` | contrib/perf_tools/pmi2_pmap_parser.c:46-50 | The map (0,2,3) has ranks 0 to 2 on node 0 and 3 to 5 on node 1 |
| `ProcessMap.FindMyNode` | contrib/perf_tools/pmi2_pmap_parser.c:56-75 | The one node on which the tuples place the rank, -1 when they do not |
| `ProcessMap.FindLocalRanks` | contrib/perf_tools/pmi2_pmap_parser.c:77-122 | Exactly the ranks that the tuples place on the node, strictly increasing, in growing storage, or failure on a malformed tuple |
| `ProcessMap.ParseMap` | contrib/perf_tools/pmi2_pmap_parser.c:134-150 | The list found for one's own node contains oneself and is the node's list |
| `Base64Blocks.BlockRoundTrip` | contrib/perf_tools/pmi2_utils.c:59-87 | A block decodes to the bytes it was for, whatever was read past them |
| `Base64Alphabet.CodedIsLetter` | contrib/perf_tools/pmi2_utils.c:27-57 | The symbols' codes are those of the 64 characters of the RFC 4648 alphabet, written out as one string |
| `Base64Alphabet.BlockSpells` | contrib/perf_tools/pmi2_utils.c:27-65 | A block is the letters of the RFC 4648 alphabet for its bits, six at a time, and spaces for what it is not for |
| `Base64Alphabet.LettersDecode` | contrib/perf_tools/pmi2_utils.c:41-87 | Four letters decode to the three bytes made of their bits |
| `Base64Text.TextSpellsValue` | contrib/perf_tools/pmi2_utils.c:91-108 | The text has four characters for every three bytes or part of them; character j is the letter for bits 6j to 6j+5, the bits past the value being those in memory, and a space where no bit is the value's |
| `Base64Text.OwnSextet` | contrib/perf_tools/pmi2_utils.c:59-65 | Where all six bits are the value's own nothing else shows |
| `Base64Text.LettersSpellValue` | contrib/perf_tools/pmi2_utils.c:110-132 | A text of letters decodes to three bytes for every four, whose bits are those of the letters' numbers in order |
| `Base64.RoundTripIff` | contrib/perf_tools/pmi2_utils.c:91-132 | Decoding an encoding gives the value back, whatever byte follows it in memory, exactly for values shorter than 2^31 bytes |
| `Base64.NoNul` | contrib/perf_tools/pmi2_utils.c:27-65 | The text holds no NUL |
| `Base64.TextRoom` | contrib/perf_tools/pmi2_utils.c:96 | The buffer allocated has room for every block and the final NUL |
| `Base64.Encode` | contrib/perf_tools/pmi2_utils.c:91-108 | The buffer holds the encoding as a NUL-terminated string |
| `Base64.Decode` | contrib/perf_tools/pmi2_utils.c:110-132 | The buffer holds the decoded bytes and a NUL after them, with their number returned |
| `Base64.RoundTrip` | contrib/perf_tools/pmi2_utils.c:91-132 | Encoding and decoding in memory returns the value exactly when it is shorter than 2^31 bytes |

## Left out

- HashTable.Table.Init2: requires a density of at most one and a growth of at least one, because with other limits the table can fill up and a probe for an absent key does not end.
- PointerArray.Table.Init: does not take a negative block size, for which growth need not enlarge the table.
- PointerArray.Table.Add: does not take NULL, which would be counted as a slot in use while it looks free.
- PointerArray.Table.TestAndSet: does not take NULL, for the same reason.
- Bitmap.Map.SetBit: leaves out bit 0 of a map without words and with maximum 0, where the code writes to a word it does not have (`Bitmap.ClampKeepsTarget` shows that this is the only such case).
- Bitmap.Map.FindAndSetFirstUnset: leaves out a map without words and with maximum 0, for the same reason.
- Bitmap.Map.NumSetBits: counts whole words, as the code does, although its documentation speaks of bits; a length beyond the words, which would read past them, is left out.
- BitmapRuns.RunAll: skips the three calls just named, and runs one map, without and, or and xor.
- ListRuns.RunAll: skips a call that breaks what the source asks of its caller, and a join from a list that has a length but no item, after which the lists are no lists any more (`List.JoinBreaks`).
- ListSpec.LengthIsItemsPlusSurplus: skips the same join.
- RingBuffer.Ring.Push: does not take NULL, which the ring uses to mark an empty slot, nor a ring of size 0.
- Hotel.Hotel.CheckIn: does not take a NULL occupant, which the hotel uses to mark an empty room.
- Hotel.Hotel.CheckInWithRes: does not take a NULL occupant, for the same reason.
- ClientGet.Client.HandleReply: leaves out a reply that names a released request, which would read freed memory; `GetRuns.SafeRunIff` says exactly which runs never get there.
- ClientGet.RunAll: leaves out the runs that get there.
- Base64.Decode: does not model the overflow of the `int` that sums the output length, which needs a text of more than 2^31 bytes.
- Failure of allocation, overflow of `size_t`, and calls in a build without debug checks that mix key types of one table.
- Overflow of `int` elsewhere: in the rounding when a pointer array grows, in the number of bits of a bitmap's words, in list indices and in the size of a process-map rectangle.
- Locks, threads and thread shifting: every operation and every event runs alone.
- Splicing a range to a place inside itself, which the documentation excludes; sorting of lists; reference counts of list items in debug builds.
- Text scanning of the process map: the model starts from its tuples, with values that are not negative.
- `pmix_bitmap_num_unset_bits` and printing of bitmaps: easy given the count of set bits.
- The data store behind a get: a map from processes to keys and values, in which arriving values replace those stored; scopes of data are ignored.
- Packing and sending of messages, and compression of strings: their success is a parameter of an event.
- The synchronous get and its fast path, which wait for the callback modelled here.
- Client groups, fences, publishing, value arrays, reference-counted objects and the PMI-1 and PMI-2 wrappers.
