# Mark and allocation bitmaps of the XMM allocator, in Dafny

This project models the garbage-collector bitmap engine of XMM's
`src/bit_map.go` and proves properties of the model. The engine is a packed
array of 32-bit `gcBits` words with one bit per object slot.

- **Sizing and construction** (`newMarkBits`, `newAllocBits`). A bitmap for
  `nelems` slots is `((nelems + 63) / 64) * 2` words, a whole number of
  64-bit blocks. It is either left as the allocator zeroed it, or each word
  is replaced by its complement.
- **Addressing** (`addb`, `uint32p`, `bitp`). Bit `n` lives in word `n / 32`
  at byte offset `4 * (n / 32)`, under the mask `1 << (n % 32)`.
- **The `markBits` cursor** and its four operations. `isMarked` tests
  `word & mask`. `setMarked` stores `word ^ mask` in a compare-and-swap loop.
  `setMarkedNonAtomic` stores `word | mask`. `clearMarked` stores
  `word &^ mask` in a compare-and-swap loop.
- **`advance`** steps a cursor to the next slot. At mask `1 << 7` the
  pointer moves one byte on and the mask resets to 1; otherwise the mask
  shifts left by one.
- **`invert(len)`** complements the first `ceil(len / 32)` words.
- **`markBitsForAddr` / `markBitsForSpan`** are modelled over an abstract
  heap, a pair of functions standing for `spanOf` and `objIndex`.

Modules follow the pieces of the file:

| module | file | holds |
|---|---|---|
| `Words` | `words.dfy` | `uintptr`, words, single-bit masks, the bit view of storage, the three read-modify-write operations |
| `ByteView` | `bytes.dfy` | the little-endian byte image of the words, 32-bit loads and stores at any byte |
| `Addressing` | `addressing.dfy` | the `markBits` record, `addb`, `uint32p`, `bitp`, the bit a cursor designates |
| `Marking` | `marking.dfy` | `isMarked`, `setMarked`, `setMarkedNonAtomic`, `clearMarked` |
| `Traversal` | `traversal.dfy` | `advance` |
| `Inversion` | `invert.dfy` | `invert` and the complement loop |
| `Construction` | `construction.dfy` | `newMarkBits`, `newAllocBits` |
| `Resolution` | `resolution.dfy` | `markBitsForAddr`, `markBitsForSpan` |
| `Outcomes` | `outcomes.dfy` | the error results |

Modelling decisions:

- **Cursor pointers are byte offsets.** `advance` moves the cursor's
  `*uint32` by ONE byte, so a cursor can point into the middle of a word. The
  cursor operations therefore work on the bitmap's memory as bytes
  (`Memory`), through 32-bit little-endian loads and stores. The word array
  (`Storage`) is that memory seen four bytes at a time (`ToBytes`).
- **Which bit a cursor designates.** For a cursor with a single-bit mask,
  that bit is `Pos(c) = 8 * ptr + log2(mask)`. Both `bitp` cursors and
  byte-stepped cursors are stated against this one bit number.
- **Compare-and-swap loops are single steps.** Each retry loop of
  `setMarked` / `clearMarked` is one atomic read-modify-write, the store
  that ends the loop. Likewise each `atomic.StoreUint32(p, ^*p)` in the
  construction and `invert` loops is one word update.
- **`uintptr` arithmetic wraps explicitly.** The sum `nelems + 63` and the
  cursor's `index++` wrap modulo 2^64.
- **The code is followed where its comments disagree.**
  - `uint32p(n)` is commented as returning a pointer to the n'th byte
    (src/bit_map.go:55). The code adds `n*4` bytes, so it points at word `n`.
    The model follows the code (`Addressing.Uint32p`).
  - `bitp(n)` is commented as returning a pointer to the byte containing bit
    `n` (src/bit_map.go:126). The code returns the word `uint32p(n / 32)`
    holding it, with a mask over that 32-bit word. The model follows the code
    (`Addressing.BitpAddresses`).
  - `setMarked` is commented as setting the marked bit (src/bit_map.go:150),
    and the disabled `atomic.Or32(m.uint32p, m.mask)` at line 155 is such a
    set. The code stores `val ^ mask`, which toggles the bit.
  - `markBitsForSpan` is commented as returning the `markBits` for the span
    base address (src/bit_map.go:185). The code never assigns its result,
    so it never yields a cursor.

  The last two are listed under Findings.

## Model

| member | source | states |
|---|---|---|
| `Addressing.Uint32p` | src/bit_map.go:55-58 | the pointer to word `n` is the byte offset `4n`, word aligned, and designates word `n` |
| `Addressing.BitpAddresses` | src/bit_map.go:126-130 | `bitp(n)` points at word `n/32`, at a word boundary; its mask has exactly one bit set, that bit is `n % 32`, and `32*(n/32) + log2(mask) == n`, so the cursor designates bit `n` |
| `Addressing.BitpInjective` | src/bit_map.go:126-130 | two different bit numbers never get the same word and mask |
| `ByteView.FromToBytes` | src/bit_map.go:55-58 | reading the words back from their little-endian byte image gives the same words |
| `ByteView.ToFromBytes` | src/bit_map.go:55-58 | every byte sequence of whole words is the image of the words it holds, so words and bytes are two views of one memory |
| `ByteView.AlignedLoad` | src/bit_map.go:55-58 | a 32-bit load at byte `4i` of the image reads word `i` |
| `ByteView.AlignedStore` | src/bit_map.go:55-58 | a 32-bit store at byte `4i` of the image replaces word `i` and nothing else |
| `ByteView.LoadAfterStore` | src/bit_map.go:156-161 | a 32-bit load at byte `b` reads back the word a 32-bit store at `b` wrote |
| `ByteView.ByteViewBit` | src/bit_map.go:126-130 | bit `p` of the words is bit `p % 8` of byte `p / 8` of the image |
| `ByteView.LoadSelects` | src/bit_map.go:145-148 | a 32-bit load at any byte `b`, masked with `1 << k`, reads bit `8b + k` of the memory |
| `ByteView.StoreApply` | src/bit_map.go:156-161 | loading at byte `b`, applying an operation with mask `1 << k` and storing back rewrites only the byte holding bit `8b + k` |
| `Marking.IsMarkedReadsBit` | src/bit_map.go:145-148 | with a single-bit mask, `isMarked` is exactly the designated bit of memory, wherever the pointer sits |
| `Marking.IsMarkedInStorage` | src/bit_map.go:145-148 | on a storage's memory, `isMarked` with a single-bit mask is the storage bit `Pos(c)` |
| `Marking.IsMarkedAligned` | src/bit_map.go:145-148 | at a word boundary `isMarked` is `word[ptr/4] & mask != 0` |
| `Marking.UpdateWord` | src/bit_map.go:156-161 | after one read-modify-write the word at the pointer is `op(old word, mask)` and every byte outside it is unchanged |
| `Marking.UpdateAligned` | src/bit_map.go:151-183 | at a word boundary a read-modify-write replaces storage word `ptr/4` by `op(old, mask)` and leaves every other word as it was |
| `Marking.UpdateBits` | src/bit_map.go:151-183 | with a single-bit mask a read-modify-write changes the designated bit as the operation says (flip, set, clear) and no other bit of the bitmap |
| `Marking.UpdateTwice` | src/bit_map.go:151-183 | two read-modify-writes through one cursor equal one store of both operations composed on the original word |
| `Marking.SetMarked` | src/bit_map.go:150-163 | `setMarked` leaves the word at the pointer equal to `old ^ mask`, keeps every other byte, and keeps the size |
| `Marking.SetMarkedNonAtomic` | src/bit_map.go:165-168 | `setMarkedNonAtomic` leaves the word equal to `old | mask`, keeps every other byte, and keeps the size |
| `Marking.ClearMarked` | src/bit_map.go:170-183 | `clearMarked` leaves the word equal to `old &^ mask`, keeps every other byte, and keeps the size |
| `Marking.SetMarkedFlipsOnlyItsBit` | src/bit_map.go:156-161 | `setMarked` flips the designated bit and keeps every other bit of the bitmap |
| `Marking.SetMarkedMarksClearBit` | src/bit_map.go:146-161 | after `setMarked` on an unmarked cursor, `isMarked` is true |
| `Marking.SetMarkedClearsMarkedBit` | src/bit_map.go:150-161 | after `setMarked` on a marked single-bit cursor, `isMarked` is false: the operation is a toggle, not the set its comment names |
| `Marking.SetMarkedTwiceRestores` | src/bit_map.go:151-161 | `setMarked` twice restores the whole bitmap |
| `Marking.SetMarkedNonAtomicSetsOnlyItsBit` | src/bit_map.go:166-168 | `setMarkedNonAtomic` sets the designated bit and keeps every other bit |
| `Marking.SetMarkedNonAtomicMarks` | src/bit_map.go:146-168 | after `setMarkedNonAtomic` with a non-zero mask, `isMarked` is true |
| `Marking.SetMarkedNonAtomicIdempotent` | src/bit_map.go:166-168 | `setMarkedNonAtomic` twice equals once |
| `Marking.ClearMarkedClearsOnlyItsBit` | src/bit_map.go:171-181 | `clearMarked` clears the designated bit and keeps every other bit |
| `Marking.ClearMarkedUnmarks` | src/bit_map.go:146-181 | after `clearMarked`, `isMarked` is false |
| `Marking.ClearMarkedIdempotent` | src/bit_map.go:171-181 | `clearMarked` twice equals once |
| `Marking.DistinctUpdatesCommute` | src/bit_map.go:151-183 | updates through cursors at different bits commute, and each designated bit ends as its own operation makes it |
| `Marking.SetMarkedIntended` | src/bit_map.go:150-155 | the atomic OR that the comment and the disabled `atomic.Or32` describe leaves the cursor marked |
| `Marking.SetMarkedIntendedIdempotent` | src/bit_map.go:150-155 | the intended `setMarked` is idempotent and sets the designated bit and no other |
| `Marking.IsMarkedByteAgrees` | src/bit_map.go:145-148 | reading the designated bit through its one byte agrees with `isMarked` wherever the 32-bit load stays in bounds |
| `Traversal.AdvanceSteps` | src/bit_map.go:197-206 | from any single-bit mask but `1 << 31`, `advance` designates the next bit, adds one to the index, and keeps a byte-mode cursor in byte mode |
| `Traversal.AdvanceLosesTopBit` | src/bit_map.go:202-205 | from mask `1 << 31`, `advance` leaves mask 0 and the pointer where it was, and still counts the index |
| `Traversal.AdvanceCounts` | src/bit_map.go:197-206 | for every cursor, whatever its mask, `advance` adds one to the index modulo 2^64, and it moves the pointer, by one byte, only from mask `1 << 7` |
| `Traversal.EmptyMaskStaysEmpty` | src/bit_map.go:197-206 | a cursor with mask 0 keeps mask 0 and its pointer through any number of advances, while its index keeps counting |
| `Traversal.BitpCursorLosesBit` | src/bit_map.go:197-206 | the cursor `bitp` gives for bit 31 has mask `1 << 31` and loses its bit on the first `advance` |
| `Traversal.AdvanceRun` | src/bit_map.go:197-206 | `k` advances of a byte-mode cursor designate the bit `k` places on, and the index has counted the `k` steps modulo 2^64 |
| `Traversal.AdvanceFromOrigin` | src/bit_map.go:197-206 | from byte 0, mask 1, index 0, `k` advances give byte `k/8`, mask `1 << (k%8)`, index `k`, designating bit `k` |
| `Traversal.AdvanceIntendedSteps` | src/bit_map.go:197-206 | the corrected step designates the next bit from every single-bit mask, and equals `advance` except at mask `1 << 31` |
| `Traversal.TraversalReadsBits` | src/bit_map.go:197-206 | walking from the start of a bitmap, the cursor after `k` advances reads bit `k`; through `isMarked` it does so whenever its 32-bit load is in bounds |
| `Traversal.TraversalOverreads` | src/bit_map.go:145-148 | for bits in the last three bytes of a bitmap, the walking cursor's 32-bit load runs past the end |
| `Traversal.LastSlotOverreads` | src/bit_map.go:145-148 | for `nelems` a multiple of 64, `isMarked` for the last slot reached by `advance` loads past the end of the storage `newMarkBits` sizes |
| `Inversion.InvertCountIsCeiling` | src/bit_map.go:60-64 | the number of words `invert(len)` flips is `ceil(len / 32)`, the fewest words holding `len` bits |
| `Inversion.ComplementLeading` | src/bit_map.go:65-68 | the loop complements each of the first `num` words and keeps every later word |
| `Inversion.Invert` | src/bit_map.go:60-69 | `invert(len)` complements word `i` exactly when `32 * i < len`, so every one of the first `len` bits flips, and the result is the reference complement |
| `Inversion.ComplementedBits` | src/bit_map.go:65-68 | at bit level, complementing `num` words flips the bits below `32 * num` and keeps the rest |
| `Inversion.ComplementedTwice` | src/bit_map.go:65-68 | complementing the same words twice restores the storage |
| `Inversion.InvertTwice` | src/bit_map.go:60-69 | calling `invert(len)` twice restores the storage |
| `Construction.WordCount` | src/bit_map.go:33-34 | the word count is always even, a whole number of 64-bit blocks |
| `Construction.ByteRequest` | src/bit_map.go:35 | the allocator is asked for exactly four bytes per word |
| `Construction.WordCountCovers` | src/bit_map.go:33-35 | without wrap-around the storage is the fewest whole blocks holding `nelems` bits: at least `nelems`, fewer than `nelems + 64` bits |
| `Construction.SlotsInStorage` | src/bit_map.go:33-34 | every slot below `nelems` has its `bitp` word inside the storage, so the cursor operations may use it |
| `Construction.WordCountWrapsNearTop` | src/bit_map.go:33 | for `nelems = 2^64 - 1` the sum wraps and the storage has no words |
| `Construction.NewMarkBits` | src/bit_map.go:32-49 | an allocator failure is returned with no storage; otherwise the storage has `WordCount(nelems)` words, all 0 when `zero` holds and all ones otherwise, so every bit reads as `!zero` |
| `Construction.NewAllocBits` | src/bit_map.go:51-53 | on success every word is all ones and every bit reads as set; an allocator failure is passed on |
| `Resolution.MarkBitsForSpanNeverSucceeds` | src/bit_map.go:185-195 | `markBitsForSpan` never yields a cursor: it passes on a lookup failure, and after a successful lookup it always reports the unaligned start |
| `Resolution.CursorMaskIsOne` | src/bit_map.go:191 | the `bitp` cursor of slot `n` has mask 1 exactly when `n` starts a word |
| `Resolution.MarkBitsForSpanIntendedChecksAlignment` | src/bit_map.go:185-195 | the corrected `markBitsForSpan` succeeds exactly when the lookup does and the slot starts a word; it then yields that slot's cursor, and for the span's base it yields the start of the bitmap |

## Left out

- `show32`, `show64`, `String` (src/bit_map.go:70-117): diagnostic formatting through `fmt` and `log` and a `reflect.SliceHeader` reinterpretation; they change nothing.
- The allocator `newXAllocator(n).alloc()` is not part of this model. `Construction.Allocate` stands for it: zeroed storage of the requested size, or an error, chosen by its `healthy` argument.
- `h.spanOf`, `s.objIndex` and `s.setMarkBitsForIndex` are not part of this model. The first two are the functions of a `Resolution.Heap`. What the span does with the slot handed to `setMarkBitsForIndex` is not modelled.
- The debug print in `markBitsForAddr` (src/bit_map.go:139-141) is left out.
- Resolution.MarkBitsForAddr: modelled only as the hand-off that `markBitsForSpan` makes: the span lookup's error, or the span and slot passed to `setMarkBitsForIndex`. Both the lookup and the slot numbering are parameters, so `markBitsForAddr` promises nothing beyond that hand-off, and the model states nothing more.
- The model assumes a little-endian target that allows unaligned 32-bit atomic access (amd64). A byte-stepped cursor points at an address that need not be a multiple of 4; `AdvanceN(Origin, 8).ptr` is 1. On arm64, `atomic.LoadUint32` and `atomic.CompareAndSwapUint32` at such an address fault (src/bit_map.go:157-158, 177-178). On a big-endian target the load at byte `ptr` selects a different bit from `8 * ptr + log2(mask)`. Neither target is modelled.
- Concurrency is left out. The atomic loads, compare-and-swap retry loops and atomic stores are single sequential steps, so lock-freedom and the absence of lost updates between threads are not stated. `Marking.DistinctUpdatesCommute` states only the sequential part: updates of different bits commute.
- The `uintptr` pointer itself (an address) is not modelled. A cursor's pointer is a byte offset from the start of its bitmap, and `nil` is offset 0 in the zero `markBits{}`.
- Construction.WordCountCovers: stated only for `nelems + 63 < 2^64`. Above that the source's sum wraps and the promise does not hold (`Construction.WordCountWrapsNearTop`).
- Inversion.Invert: requires the storage to hold the `ceil(len / 32)` words the loop writes. The source writes past a shorter bitmap, and memory outside the bitmap is not modelled.
- Marking.SetMarked: requires the 32-bit word at the pointer to lie inside the bitmap, as do `Marking.IsMarked`, `Marking.SetMarkedNonAtomic` and `Marking.ClearMarked`. Memory outside the bitmap is not modelled; where a walking cursor breaks this, it is a finding below.

## Findings

| source | as written | input that shows it | evidently intended | confidence | as-written member | corrected member |
|---|---|---|---|---|---|---|
| src/bit_map.go:158 | `setMarked` stores `val ^ m.mask`, flipping the bit | a cursor whose bit is already marked: after `setMarked` it reads as unmarked | set the bit and leave a marked bit marked, as the comment at line 150 and the disabled `atomic.Or32` at line 155 say | medium, not executed | `Marking.SetMarkedClearsMarkedBit` | `Marking.SetMarkedIntendedIdempotent` |
| src/bit_map.go:199-204 | only mask `1 << 7` moves the pointer; every other mask shifts left in 32 bits | `bitp(31)` gives mask `1 << 31`; one `advance` leaves mask 0, which designates no bit | step to the next bit, moving on to the next word after bit 31 | medium, not executed | `Traversal.AdvanceLosesTopBit` | `Traversal.AdvanceIntendedSteps` |
| src/bit_map.go:191-192 | the alignment check reads the named result `mbits`, which is never assigned, so its mask is 0 | any span base whose lookup succeeds: the result is always "markBitsForSpan: unaligned start" | check and return the cursor for the base's slot, whose mask is 1 at a span base | high, not executed | `Resolution.MarkBitsForSpanNeverSucceeds` | `Resolution.MarkBitsForSpanIntendedChecksAlignment` |
| src/bit_map.go:147 | `isMarked` loads a whole 32-bit word at the byte the cursor points to | `newMarkBits(64, _)` gives 8 bytes; after 63 advances from the start the cursor is at byte 7, and the load reads bytes 7 to 10 | read only the byte holding the designated bit | low, not executed | `Traversal.LastSlotOverreads` | `Traversal.TraversalReadsBits` |
