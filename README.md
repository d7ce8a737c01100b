# MemoryManager in Dafny

This project models the core of a small memory-allocator simulator: the
`MemoryManager` class of `MemoryManager/MemoryManager.cpp` and
`MemoryManager/MemoryManager.h`, and proves properties of that model.

The manager owns an arena of fewer than 65536 words. It keeps a ledger, which
is a chain of `LL_Node {head, hole, size}` segments that tiles the arena into
allocated segments and holes.

- `allocate` converts a byte count to words and asks the active placement policy
  (`bestFit` or `worstFit`) for the offset of a hole, reading the hole list. It
  then claims that hole: the whole hole when the size matches, otherwise an
  allocated prefix followed by the remaining hole.
- `free` maps an address back to a word offset, marks that segment as a hole and
  calls `combine_holes`.
- `getList` and `getBitmap` build two views of the ledger. The hole list is a
  count followed by (offset, length) pairs. The bitmap is two header bytes
  followed by one bit per word, packed least significant bit first.

Modules (one file each):

- `Ledger` (`ledger.dfy`)
  - `Segment` is an `LL_Node` without its links (`MemoryManager.h:16-29`).
  - The ledger is a `seq<Segment>` in chain order.
  - `Chain`, `Tiled` and `WellFormed` state the tiling invariants.
  - `Claim` is the claiming step of `allocate`; `MarkHole` is the marking loop of `free`.
  - `Coalesce` is the merge that `combine_holes` stands for.
- `Views` (`views.dfy`)
  - `Holes`, `HoleList`, `Words` and `PackedByte` are the specification functions of
    the two views, with lemmas about their layout and meaning.
- `Placement` (`placement.dfy`)
  - The two selection loops, proved against their specifications: first of the
    smallest fit, first of the largest fit, and `-1` when nothing fits.
  - `Policy` stands for the `std::function` the manager holds. It has three values:
    `BestFitAsWrittenPolicy` runs `bestFit` as the program has it, which never picks
    a hole of 32767 words or more; `BestFitPolicy` runs the corrected `bestFit`
    (see Findings); `WorstFitPolicy` runs `worstFit`. Each policy has a ceiling:
    holes of that many words or more are never chosen (32767 for `bestFit` as
    written, 65536, above every hole, for the other two).
- `Allocator` (`allocator.dfy`)
  - The `MemoryManager` class, with the ledger as a `seq` field and the two views
    as `array` fields that `getList` and `getBitmap` refill.
  - The loops of `updateList` and `updateBitmap` are methods over arrays.
  - The address arithmetic is written out: the product in `allocate` wraps at 2^32,
    and `free` uses a truncating division stored in an `int`.

The class invariant `Valid()` holds four facts:

- the word size is positive and fits 32 bits;
- the arena is below 65536 words;
- the byte limit `mem` fits 32 bits;
- the ledger is `WellFormed`: empty, or a chain of non-empty segments from word 0
  in which no two holes are adjacent.

Every method keeps `Valid()`. The ledger can also be the single zero-word hole
that a first `allocate` on a zero-word arena creates.

Where the code and its description differ, the model follows the code:

- `initialize` does not reset the ledger itself. Only the `shutdown` it calls
  when an arena is already present clears it (`MemoryManager.cpp:16-27`). The
  ledger is otherwise created lazily by the first `allocate`
  (`MemoryManager.cpp:51-53`).
- The bitmap header is always the bytes 1, 0 (`MemoryManager.cpp:213-214`), not
  the bitmap size that the comment at `MemoryManager.cpp:136-137` describes.
- `free` has no alignment or bounds check and no double-free error
  (`MemoryManager.cpp:80-89`). The offset is the byte distance from the start
  divided by the word size, truncated toward zero. At or above the start, a
  misaligned address therefore maps to the word it lies in. An address less than
  one word below the start maps to word 0 as well. An offset where no segment
  starts changes nothing.
- `getList` always returns a list, with count 0 when there are no holes. The
  comment at `MemoryManager.cpp:129-130` says it returns NULL before any
  allocation.
- The policies accept any request. A request of 0 words fits every hole.
- `allocate` does not check that an arena is present (`MemoryManager.cpp:49-76`).
  After `shutdown`, `start` is NULL but `size_in_words` is kept, so the next
  `allocate` builds a ledger of the old size and claims from it. The address of
  word 0 is then NULL + 0, which is `nullptr`, the failure value, although the
  word stays claimed. The model returns the pointer the caller sees: null
  whenever `start + offset*word_size` is NULL.

## Model

| member | source | states |
|---|---|---|
| Ledger.InitialHoleWellFormed | MemoryManager/MemoryManager.cpp:51-53 | the ledger allocate creates lazily (one hole over the arena) is well-formed and covers exactly the arena |
| Ledger.ChainWithin | MemoryManager/MemoryManager.cpp:62-63 | every segment of a chain lies inside the covered range and no two segments share a head, so the walk in allocate finds at most one segment |
| Ledger.WithInitialHole | MemoryManager/MemoryManager.cpp:51-53 | the ledger allocate works on is the existing chain when there is one, otherwise a single hole at word 0 that covers the n words of the arena |
| Ledger.Claim | MemoryManager/MemoryManager.cpp:65-73 | claiming turns segment i into an allocated segment of l words at the same head, adds a hole of size-l words at head+l only when the sizes differ, and keeps every other segment in place and order |
| Ledger.ClaimKeepsPartition | MemoryManager/MemoryManager.cpp:65-73 | claiming 1 <= l <= size words of a hole keeps the segments contiguous, non-empty and over the same range, and leaves no two holes adjacent |
| Ledger.ClaimWellFormed | MemoryManager/MemoryManager.cpp:62-73 | claiming part of a hole of a well-formed ledger gives a well-formed ledger over the same number of words |
| Ledger.ZeroWordClaimBreaksLedger | MemoryManager/MemoryManager.cpp:55-72 | with l = 0 (a zero-byte request) the split adds an empty allocated segment that shares its head with the hole, and the ledger is no longer well-formed |
| Ledger.MarkHole | MemoryManager/MemoryManager.cpp:81-89 | free's marking walk keeps every segment's head and size, and a segment is a hole afterwards exactly when it was one or starts at the offset |
| Ledger.MarkHoleChangesOne | MemoryManager/MemoryManager.cpp:81-89 | free's loop turns exactly the segment starting at the offset into a hole and changes nothing when no segment starts there; the chain is kept |
| Ledger.MarkHoleKeepsTiled | MemoryManager/MemoryManager.cpp:81-89 | free's marking keeps a tiled ledger tiled over the same words |
| Ledger.Coalesce | MemoryManager/MemoryManager.cpp:90 | the merge never adds segments and keeps the first segment's head and kind |
| Ledger.CoalesceKeepsChain | MemoryManager/MemoryManager.cpp:90 | merging keeps the covered range: a chain over [from, to) stays a chain over [from, to) |
| Ledger.CoalesceSeparatesHoles | MemoryManager/MemoryManager.cpp:90 | after merging no two consecutive segments are both holes |
| Ledger.CoalesceKeepsAllocated | MemoryManager/MemoryManager.cpp:90 | merging leaves the allocated segments exactly as they were: an allocated segment is in the result iff it was in the input |
| Ledger.CoalesceIdentity | MemoryManager/MemoryManager.cpp:90 | a ledger with no adjacent holes is unchanged by merging |
| Ledger.CoalesceWellFormed | MemoryManager/MemoryManager.cpp:90 | merging makes any tiled ledger well-formed over the same words |
| Ledger.FreeUndoesClaim | MemoryManager/MemoryManager.cpp:62-90 | marking the segment a claim produced and merging restores the ledger from before the claim, in both the exact and the split case |
| Ledger.StubLeavesAdjacentHoles | MemoryManager/MemoryManager.cpp:83-90 | with combine_holes empty, freeing the allocated first segment of [allocated 0..4, hole 4..20] leaves two adjacent holes; the merge gives one hole of 20 words |
| Views.HolesStep | MemoryManager/MemoryManager.cpp:165-173 | loop lemma of CollectHoles: each further segment adds itself to the holes and its (head, size) pair to the list exactly when it is a hole |
| Views.HolesAreTheHoles | MemoryManager/MemoryManager.cpp:165-173 | the segments the hole list reports are exactly the hole segments of the ledger |
| Views.HolesInLedgerOrder | MemoryManager/MemoryManager.cpp:165-173 | in a chain, the reported holes are in increasing offset order and do not overlap |
| Views.HoleListLayout | MemoryManager/MemoryManager.cpp:175-181 | the hole list has length 2n+1, entry 0 is the number n of holes, and entries 2k+1 and 2k+2 are the offset and length of the k-th hole |
| Views.HoleListFitsU16 | MemoryManager/MemoryManager.cpp:160-181 | on a tiled ledger every entry of the hole list, the count included, fits a uint16_t |
| Views.WordsStep | MemoryManager/MemoryManager.cpp:191-196 | loop lemma of CollectWords: each further segment appends size flags, all equal to "allocated" for that segment |
| Views.WordsOfPartition | MemoryManager/MemoryManager.cpp:191-196 | on a partition of n words the flag vector has n entries, and entry w is set exactly when the segment holding word w is allocated |
| Views.WordsOfWellFormed | MemoryManager/MemoryManager.cpp:191-196 | the flag vector of a well-formed ledger has one entry per covered word |
| Views.CoalesceKeepsWords | MemoryManager/MemoryManager.cpp:90 | merging holes changes no word's allocated flag, so the bitmap and the total coverage are unchanged |
| Views.CeilDivZero | MemoryManager/MemoryManager.cpp:55 | the rounded-up word count is 0 exactly when the byte count is 0 |
| Views.CeilDivBytes | MemoryManager/MemoryManager.cpp:185-211 | data byte q is needed for n words exactly when 8q < n, so ceil(n/8) bytes hold every word |
| Views.WeightStep | MemoryManager/MemoryManager.cpp:202-206 | loop lemma of PackWords: one more step of the inner loop adds 2^j exactly when word i+j exists and is allocated |
| Views.WeightDigits | MemoryManager/MemoryManager.cpp:201-211 | binary digit j of the sum over k words is the flag of word base+j, and 0 from digit k on |
| Views.PackedByteFits | MemoryManager/MemoryManager.cpp:199-208 | every packed byte is below 256, so the uint8_t counter never wraps |
| Views.BitmapBitIsAllocation | MemoryManager/MemoryManager.cpp:184-211 | bit w % 8 of data byte w / 8 is 1 exactly when word w lies in an allocated segment |
| Views.BitmapPaddingIsZero | MemoryManager/MemoryManager.cpp:201-206 | the bits of the last byte past the final word are 0 |
| Placement.BestFitFrom | MemoryManager/MemoryManager.cpp:218-232 | the bestFit loop with a given starting diff returns -1 iff no hole has request <= length < diff, otherwise the offset of the first of the shortest such holes |
| Placement.BestFitAsWritten | MemoryManager/MemoryManager.cpp:218-232 | bestFit as written returns the first of the shortest fitting holes shorter than 32767 words, and -1 iff there is none |
| Placement.BestFit | MemoryManager/MemoryManager.cpp:218-232 | corrected bestFit returns -1 iff no hole fits, otherwise the offset of the first of the shortest holes that fit (minimal, ties to the first) |
| Placement.LargeHoleMissedByBestFit | MemoryManager/MemoryManager.cpp:219-225 | for the list [1, 0, 40000] and a 1-word request, bestFit as written returns -1 and the corrected one returns 0 |
| Placement.WorstFit | MemoryManager/MemoryManager.cpp:235-248 | worstFit returns -1 iff no hole fits, otherwise the offset of the first of the longest holes that fit (maximal, ties to the first) |
| Placement.NoFitBelowTop | MemoryManager/MemoryManager.cpp:218-248 | with the ceiling 65536 of the corrected bestFit and of worstFit, "no hole below the ceiling fits" is the same as "no hole fits", because every length in the list is a uint16_t |
| Placement.ChosenHoleFits | MemoryManager/MemoryManager.cpp:218-248 | the hole any policy chooses is in the list, has room for the request and is shorter than the policy's ceiling |
| Placement.Select | MemoryManager/MemoryManager.cpp:56 | calling the active policy gives -1 iff no hole shorter than the policy's ceiling fits, otherwise the offset of the hole that policy chooses (bestFit as written, corrected bestFit or worstFit) |
| Allocator.Address | MemoryManager/MemoryManager.cpp:75 | the returned address lies within 2^32 bytes above start, because the word-to-byte product wraps at 32 bits |
| Allocator.TruncDiv | MemoryManager/MemoryManager.cpp:80 | C division: the remainder has the sign of the dividend and is smaller than the word size |
| Allocator.Int32 | MemoryManager/MemoryManager.cpp:80 | the value kept in an int is in 32-bit range and equals the quotient whenever the quotient fits |
| Allocator.AddressRoundTrip | MemoryManager/MemoryManager.cpp:75-80 | free maps the address allocate returns for offset back to offset, when the byte offset fits 32 bits |
| Allocator.FreeOffset | MemoryManager/MemoryManager.cpp:80 | the offset free computes fits an int, and an address less than one word from the start, on either side, gives offset 0 |
| Allocator.FreeOffsetTruncates | MemoryManager/MemoryManager.cpp:80 | an address r < word size bytes into word offset frees that word: misalignment is truncated, not rejected |
| Allocator.HoleListIsWellShaped | MemoryManager/MemoryManager.cpp:159-182 | the list updateList builds from a tiled ledger is a well-shaped hole list of uint16_t values |
| Allocator.NoFitIffNoHoleFits | MemoryManager/MemoryManager.cpp:56-60 | a policy reading the hole list reports no fit exactly when no hole of the ledger shorter than the policy's ceiling has room for the request |
| Allocator.NoHoleFitsMeansTooShort | MemoryManager/MemoryManager.cpp:56-60 | for the corrected bestFit and for worstFit, no hole fits exactly when every hole of the ledger is shorter than the request |
| Allocator.PickedHole | MemoryManager/MemoryManager.cpp:62-63 | the offset a policy returns is the head of exactly one segment, which is the hole it chose; so the walk never reaches the end and never lands on an allocated segment |
| Allocator.ClaimPicked | MemoryManager/MemoryManager.cpp:62-73 | claiming the picked hole keeps the ledger well-formed |
| Allocator.Choose | MemoryManager/MemoryManager.cpp:56-60 | the policy call gives -1 exactly when no hole shorter than the policy's ceiling fits, otherwise the head of the unique picked hole, whose claim keeps the ledger well-formed |
| Allocator.AllocateThenFree | MemoryManager/MemoryManager.cpp:49-90 | freeing the address allocate returned finds the claimed segment again, and marking plus merging restores the ledger from before the allocation |
| Allocator.CollectWords | MemoryManager/MemoryManager.cpp:188-196 | the first loop of updateBitmap builds the per-word allocated flags of the ledger |
| Allocator.PackWords | MemoryManager/MemoryManager.cpp:198-211 | the packing loop stores in element 2+p the packed byte of words 8p..8p+7 |
| Allocator.CollectHoles | MemoryManager/MemoryManager.cpp:160-173 | the first loop of updateList counts the holes and gathers their (offset, length) pairs in ledger order |
| Allocator.BuildHoleList | MemoryManager/MemoryManager.cpp:159-182 | updateList's array is fresh and equals the hole list of the ledger |
| Allocator.BuildBitmap | MemoryManager/MemoryManager.cpp:184-215 | updateBitmap's array is fresh and has 2 + ceil(n/8) bytes; the header is 1, 0; each data byte covering the ledger is the packed byte of its eight words |
| Allocator.MemoryManager.constructor | MemoryManager/MemoryManager.cpp:5-8 | a new manager stores the word size and policy and has no arena, no ledger and no views |
| Allocator.MemoryManager.Initialize | MemoryManager/MemoryManager.cpp:16-27 | below 65536 words it records the size, the byte limit word_size*words (32-bit) and the new start, and clears the ledger only if an arena was present; otherwise nothing changes |
| Allocator.MemoryManager.Shutdown | MemoryManager/MemoryManager.cpp:32-46 | start becomes NULL and the ledger empty |
| Allocator.MemoryManager.Allocate | MemoryManager/MemoryManager.cpp:49-76 | the result is null iff the request is 0 bytes or no hole of the lazily created ledger that is shorter than the policy's ceiling fits ceil(bytes/word size) words, and then the ledger is that lazy ledger; otherwise the ledger is the claim of the hole the policy picks and the result is the pointer start + offset*word size, which is null only when that sum is NULL (after shutdown, at word 0); so with a non-NULL start the result is null iff the request is 0 bytes or nothing fits; the hole list is refreshed |
| Allocator.AllocateAfterShutdown | MemoryManager/MemoryManager.cpp:49-76 | on a 20-word arena that was shut down, a 4-byte request still claims word 0, leaving [allocated 0..1, hole 1..20], and returns null |
| Allocator.MemoryManager.ClaimAt | MemoryManager/MemoryManager.cpp:62-73 | the walk stops at the one segment whose head is the offset, and the ledger becomes its claim |
| Allocator.MemoryManager.Free | MemoryManager/MemoryManager.cpp:79-91 | the ledger becomes the merge of the old ledger with the segment at the truncated offset marked as a hole, and stays well-formed |
| Allocator.MemoryManager.CombineHoles | MemoryManager/MemoryManager.cpp:251 | merging turns the tiled ledger into a well-formed one: the ledger becomes its merge |
| Allocator.MemoryManager.GetWordSize | MemoryManager/MemoryManager.cpp:144-147 | the word size of a valid manager is positive and fits an unsigned |
| Allocator.MemoryManager.GetMemoryStart | MemoryManager/MemoryManager.cpp:149-152 | the start is NULL exactly when no arena is present; the constructor and Shutdown state that it is NULL, Initialize that it is the new base |
| Allocator.MemoryManager.GetMemoryLimit | MemoryManager/MemoryManager.cpp:154-157 | the byte limit of a valid manager fits an unsigned, since initialize stores word_size*words modulo 2^32 |
| Allocator.MemoryManager.SetAllocator | MemoryManager/MemoryManager.cpp:94-96 | the active policy becomes the given one |
| Allocator.MemoryManager.UpdateList | MemoryManager/MemoryManager.cpp:159-182 | the list field becomes a fresh array equal to the hole list of the ledger |
| Allocator.MemoryManager.GetList | MemoryManager/MemoryManager.cpp:131-134 | returns the refreshed list field, a fresh array equal to the hole list |
| Allocator.MemoryManager.UpdateBitmap | MemoryManager/MemoryManager.cpp:184-215 | the bitmap field becomes a fresh array of 2 + ceil(size_in_words/8) bytes with header 1, 0 and one packed byte per eight ledger words |
| Allocator.MemoryManager.GetBitmap | MemoryManager/MemoryManager.cpp:139-142 | returns the refreshed bitmap field with the same contents |
| Allocator.LargeArenaRefusedByBestFitAsWritten | MemoryManager/MemoryManager.cpp:49-60 | a manager running bestFit as written on a fresh 40000-word arena returns nullptr for a 4-byte request, although the whole arena is one hole |
| Allocator.LargeArenaServedByBestFit | MemoryManager/MemoryManager.cpp:49-76 | with the corrected bestFit the same request is served at the start of the arena |

## Left out

- Acquiring and releasing the arena with `sbrk` (`MemoryManager.cpp:25,33`): the address sbrk returns is the `base` parameter of `Initialize`. The size `shutdown` gives back is not modelled.
- `dumpMemoryMap` (`MemoryManager.cpp:99-127`): POSIX file I/O and text formatting.
- The destructor, `new` and `delete` of the nodes and of the views: memory ownership is not modelled. In the source, each `updateList` and `updateBitmap` stores a new array in `list` or `bit_map` without freeing the previous one, so the list built inside every `allocate` and every earlier bitmap leak. Only `dumpMemoryMap` frees the current list (`MemoryManager.cpp:124`), and it leaves the field pointing at the freed array.
- The `prev` and `next` links of `LL_Node`: the chain is a sequence. Nothing reads `prev`, and the split leaves the successor's `prev` stale.
- Floating point: `ceil` on a `float` quotient in `allocate` and `updateBitmap`, and `pow` in the packing loop, are modelled as exact integer arithmetic. In `updateBitmap` and in the packing loop every value is below 2^24, so the `float` is exact there.
- Allocator.MemoryManager.Allocate: the word count is the exact ceiling of bytes over word size, not the `float` computation at `MemoryManager.cpp:55`. The two agree on every request below 2^24 bytes, where the `float` conversions are exact enough. With a word size of at most 256, every larger request needs 65536 words or more under either computation, so no hole fits it either way. With larger words they can differ: with a word size of 1024 and 2^24+1 bytes, the `float` quotient is exactly 16384, so the program asks for 16384 words and may hand out one word less than requested, while the model asks for 16385.
- Allocator.MemoryManager.Allocate: a request of 2^31 words or more overflows the `int l` of `MemoryManager.cpp:55`, which is undefined behaviour in C++. The model keeps the exact word count, which no hole fits, so it answers nullptr.
- The host byte order of the `uint16_t` hole list: entries are integers below 65536.
- The `uint16_t` loop counters of `bestFit`, `worstFit` and `updateList` wrap at 65536. That matters only for a list of 32768 holes, which takes an arena of 65535 words alternating one-word holes and allocations. The model's counters do not wrap.
- Allocator.MemoryManager.constructor: the source leaves `size_in_words` uninitialised and computes `mem` from uninitialised fields. The model sets both to 0 and requires a positive word size, since a word size of 0 makes allocate and free divide by zero.
- Allocator.MemoryManager.UpdateBitmap: requires the ledger to cover no more words than `size_in_words`. Otherwise the source writes past the end of the bitmap, which can happen after `shutdown`, `allocate` and `initialize` with a smaller size. The data bytes past the ledger's words are left unconstrained, as in the source, where they are uninitialised.
- Allocator.MemoryManager.GetBitmap: same requirement and same unconstrained bytes as UpdateBitmap.
- Allocator.FreeOffset: an address whose word distance does not fit an `int` is undefined behaviour in C++. The model wraps it to 32 bits.
- 64-bit pointer overflow of `start + offset*word_size`: addresses are unbounded integers.
- `std::function` and the `void*` casts of the hole list: the policy is the datatype `Placement.Policy` and the list is a `seq<int>`.

## Findings

| source | as written | input that shows it | evidently intended | confidence | as-written member | corrected member |
|---|---|---|---|---|---|---|
| MemoryManager/MemoryManager.cpp:251 | `combine_holes` is empty, so free leaves neighbouring holes unmerged | ledger [allocated 0..4, hole 4..20], free the address of offset 0 | neighbouring holes merged into one after every free | not executed | Ledger.StubLeavesAdjacentHoles | Allocator.MemoryManager.Free |
| MemoryManager/MemoryManager.cpp:219 | `diff` starts at INT16_MAX, so bestFit never picks a hole of 32767 words or more, and allocate on a fresh arena of 32767 words or more returns nullptr for every request | hole list [1, 0, 40000], request 1 word; through allocate, a 40000-word arena and a 4-byte request (Allocator.LargeArenaRefusedByBestFitAsWritten) | the smallest fitting hole of any uint16_t length | not executed | Placement.BestFitAsWritten | Placement.BestFit |
| MemoryManager/MemoryManager.cpp:55 | a zero-byte request gives l = 0, which every hole fits; the split then adds an empty allocated segment sharing the hole's head | 20-word arena, allocate(0) | a request of 0 bytes returns nullptr, as the comment at line 48 says for an invalid size | not executed | Ledger.ZeroWordClaimBreaksLedger | Allocator.MemoryManager.Allocate |
