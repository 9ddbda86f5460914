# pb-alloc: a verified model of a pointer-bump allocator

`pb-alloc.c` replaces `malloc`, `calloc`, `realloc` and `free` with a bump
allocator. On its first call, `init` maps one region of `HEAP_SIZE` bytes.
Three words track the region: `start_addr`, `end_addr` and `free_addr`.
`malloc(n)` rounds `n` up with `roundUp` and writes that size into an 8-byte
header at `free_addr`. It returns the address 16 bytes past the header and
moves `free_addr` past the block. `free` does nothing, so memory is never
reused. `calloc` is `malloc` of the product followed by a `memset`.
`realloc` reads the old size back from the header. It keeps the block when
the new size fits and otherwise copies the block into a fresh one.

The project has six modules:

- `Wrappers` (`wrappers.dfy`) holds the `Option` type, whose `None` stands
  for a NULL result.
- `Bytes` (`bytes.dfy`) holds bytes and 64-bit little-endian words, splicing
  bytes into memory, and loading a word.
- `Layout` (`layout.dfy`) holds `roundUp`, the header and its padding, and
  the way blocks tile the used part of the region.
- `BumpSpec` (`bump_spec.dfy`) models the heap as a value. It has `base`
  (`start_addr`), `limit` (`end_addr`), `cursor` (`free_addr`), the bytes of
  the region and the blocks carved so far. `Malloc`, `Calloc` and `Realloc`
  are functions from one heap to the next. The lemmas state what each call
  promises and prove that the invariant `Inv` survives every call. `Inv`
  says that `start <= free <= end`, that the blocks lie back to back, that
  `free` stays 16-aligned from `start`, and that every header still holds
  its size.
- `Allocator` (`allocator.dfy`) models the C globals as the class
  `BumpAllocator`. Its fields `start`, `end` and `free` stand for the three
  words, and an array stands for the mapped region. Each method updates the
  state in place, like the C function it models. Each method is proved to
  leave exactly the state that the matching `BumpSpec` function computes.
- `AsWritten` (`as_written.dfy`) models the same arithmetic with 64-bit
  wrap-around, which is what the C code does. It backs the findings below.

`roundUp` returns the next multiple of 16 strictly above the size:
`roundUp(1) == 16` and `roundUp(17) == 32`, but an aligned size gains a full
16, so `roundUp(16) == 32`. The model follows the code here. A description
of the allocator as "rounding up to the next multiple of 16" would not match
it for aligned sizes.

## Model

| member | source | states |
|---|---|---|
| Layout.RoundUp | pb-alloc.c:125-130 | the result is a multiple of 16, is strictly greater than the request, and is at most 16 more; an aligned request gains exactly 16 |
| Layout.PaddingFor | pb-alloc.c:140 | the padding is between 1 and 16 bytes; header plus padding ends on a 16-byte boundary and equals the rounded header size |
| Layout.HeaderOf | pb-alloc.c:235 | the header address realloc computes is the header malloc used for that payload (`PayloadOf` inverts it); the payload is aligned exactly when the header is |
| Layout.TilesBounds | pb-alloc.c:143-154 | every carved block lies between the start of the region and the cursor, at a 16-aligned distance from the start |
| Layout.TilesAppend | pb-alloc.c:143-154 | a block carved at the cursor extends the back-to-back layout up to the new cursor |
| Layout.TilesDisjoint | pb-alloc.c:143-154 | carved blocks never overlap: each ends before every later one starts |
| Bytes.ValueOfLittleEndian | pb-alloc.c:158 | a size stored as little-endian bytes reads back as the same size |
| Bytes.LoadStored | pb-alloc.c:158 | a word written into memory loads back as that word |
| Bytes.LoadUnderSplice | pb-alloc.c:158 | a write that misses a word does not change what that word loads as |
| Bytes.SpliceAt | pb-alloc.c:158 | a write puts its bytes in the written range and keeps every other byte |
| Bytes.Zeroes | pb-alloc.c:200 | `n` zero bytes: the length is `n` and every byte is 0 |
| BumpSpec.Initial | pb-alloc.c:95-103 | the state after init satisfies the invariant: `free_addr == start_addr`, `end_addr == start_addr + HEAP_SIZE`, no blocks, and a zero-filled region |
| BumpSpec.Malloc | pb-alloc.c:132-162 | `malloc` returns NULL exactly when the size is 0 or the block would pass `end_addr`, and then nothing changes; otherwise it returns `free_addr + 16` and the cursor moves to that pointer plus `roundUp(size)`, at least 32 bytes on and never past `end_addr` |
| BumpSpec.Carve | pb-alloc.c:143-158 | carving bumps the cursor by `16 + rounded` and appends the new block at the old cursor |
| BumpSpec.CarveWritesOnlyHeader | pb-alloc.c:158 | carving writes the 8 header bytes at the old cursor, which load back as the rounded size, and changes no other byte |
| BumpSpec.CarveNewHeader | pb-alloc.c:158 | the header written at the old cursor loads back as the rounded size |
| BumpSpec.CarveKeepsOldHeader | pb-alloc.c:158 | carving leaves the header of an earlier block holding its size |
| BumpSpec.CarveKeepsOldHeaders | pb-alloc.c:158 | carving leaves the headers of all earlier blocks holding their sizes |
| BumpSpec.HeadersIntactAppend | pb-alloc.c:154-158 | adding a block keeps every header intact when the old headers still hold their sizes and the new header holds its own |
| BumpSpec.CarveKeepsHeaders | pb-alloc.c:143-158 | after carving, every header, old and new, holds its block's size |
| BumpSpec.CarveKeepsInv | pb-alloc.c:146-158 | carving a non-empty aligned block keeps `start <= free <= end`, the tiling and the headers |
| BumpSpec.MallocKeepsInv | pb-alloc.c:132-162 | every `malloc` call keeps the invariant, whether it succeeds or fails |
| BumpSpec.MallocBlockIsFresh | pb-alloc.c:143-154 | a returned block is 16-aligned, lies after every earlier block, fits in the region, and is the block appended to the list |
| BumpSpec.MallocWritesOnlyHeader | pb-alloc.c:158 | a successful `malloc` writes the new header, holding `roundUp(size)`, and no other byte |
| BumpSpec.MallocKeepsOldBytes | pb-alloc.c:154-158 | a successful `malloc` changes no byte below the old cursor |
| BumpSpec.HeaderRoundTrip | pb-alloc.c:158 | the size realloc reads through `HeaderOf` for a pointer `malloc` returned is the `roundUp(size)` that `malloc` wrote |
| BumpSpec.RecordedSizeOfBlock | pb-alloc.c:235-236 | for every carved block, the header in front of its payload holds the block's size |
| BumpSpec.HeaderBytesOfBlock | pb-alloc.c:158 | the 8 header bytes of every carved block are exactly the little-endian bytes of its recorded size |
| BumpSpec.HeaderBelowNewestPayload | pb-alloc.c:143-144 | every header ends before the payload of the newest block begins |
| BumpSpec.RecordedSize | pb-alloc.c:235-236 | the size read from the header of a carved block's payload: the payload lies past the first header and ends at or below `free_addr` |
| BumpSpec.PayloadWithin | pb-alloc.c:235-236 | the payload of a carved block and its header lie in the used part of the region, and the payload ends where the header says |
| BumpSpec.Write | pb-alloc.c:200 | a memset or memcpy into the region changes only memory; cursor, bounds and blocks stay |
| BumpSpec.WriteSlice | pb-alloc.c:247 | after a write, the written range holds exactly the bytes written |
| BumpSpec.WriteAt | pb-alloc.c:200 | byte by byte, a write puts its bytes in range and keeps every other byte |
| BumpSpec.WriteMissesHeader | pb-alloc.c:200 | a write from the newest payload on leaves every header holding its size |
| BumpSpec.WriteNewestPayloadKeepsInv | pb-alloc.c:199-201 | writing into the newest block's payload (calloc's memset, realloc's memcpy) keeps the invariant |
| BumpSpec.WritePayloadKeepsInv | pb-alloc.c:143-159 | a caller writing at most the recorded size into the payload of any carved block stays inside the region and keeps the invariant: no header of a live block is touched |
| BumpSpec.PayloadMissesHeader | pb-alloc.c:154-158 | the payload of one carved block and the 8-byte header of any carved block never overlap |
| BumpSpec.HeadersIntactKept | pb-alloc.c:158 | memory in which every recorded header still loads as its block size keeps all headers intact |
| BumpSpec.CallocZeroes | pb-alloc.c:192-205 | `calloc` returns what `malloc(count*size)` returns and carves the same block; on failure nothing changes; on success the requested bytes are zero and all other bytes are as `malloc` left them |
| BumpSpec.CallocKeepsInv | pb-alloc.c:192-205 | `calloc` keeps the invariant |
| BumpSpec.CallocOverflowFails | pb-alloc.c:195-196 | a product of 2^64 or more never yields a block and changes nothing |
| BumpSpec.ReallocCases | pb-alloc.c:223-252 | the four cases of `realloc`: NULL means `malloc(size)`; size 0 returns NULL and changes nothing; a size within the recorded one returns `ptr` and changes nothing; a larger size moves the block |
| BumpSpec.MoveIsMalloc | pb-alloc.c:244-250 | moving returns what `malloc(size)` returns and carves the same block; if that `malloc` fails, the heap is untouched |
| BumpSpec.MoveCopiesPayload | pb-alloc.c:244-247 | a moved block lies above the old one, and its first `old_size` bytes equal the old payload's bytes |
| BumpSpec.MoveKeepsOtherBytes | pb-alloc.c:247 | a move changes no byte outside the copied range beyond what `malloc` wrote |
| BumpSpec.MoveTarget | pb-alloc.c:244-247 | when `malloc` succeeds, the new block starts above the end of the old payload, and `old_size` bytes from it fit in the region |
| BumpSpec.MoveWritesOldPayload | pb-alloc.c:244-249 | when `malloc` succeeds, a move is that `malloc` followed by writing the old payload's `old_size` bytes into the new block, returning the new pointer |
| BumpSpec.MallocKeepsPayload | pb-alloc.c:244-247 | the bytes memcpy reads from the old payload after `malloc` are the bytes it held before the call |
| BumpSpec.MoveKeepsInv | pb-alloc.c:244-250 | the growing branch of `realloc` keeps the invariant |
| BumpSpec.ReallocKeepsInv | pb-alloc.c:223-252 | every `realloc` call keeps the invariant |
| Allocator.BumpAllocator.constructor | pb-alloc.c:69-75 | before the first call all three words are 0, the state stands for the region init will map, and the allocator owns a fresh array |
| Allocator.BumpAllocator.Init | pb-alloc.c:85-110 | the first call maps a fresh zero-filled region and sets `start`, `end = start + HEAP_SIZE` and `free = start`; any later call changes nothing |
| Allocator.BumpAllocator.Store | pb-alloc.c:158 | the header store writes the 8 little-endian bytes of the size and no other byte |
| Allocator.BumpAllocator.LoadWord | pb-alloc.c:236 | the header load returns the word stored at that offset |
| Allocator.BumpAllocator.Memset | pb-alloc.c:199-201 | the loop leaves the state that `BumpSpec.Write` of `n` zero bytes describes |
| Allocator.BumpAllocator.Memcpy | pb-alloc.c:247 | the loop copies `n` bytes from a lower source to the destination, leaving the state `BumpSpec.Write` describes |
| Allocator.BumpAllocator.Malloc | pb-alloc.c:132-162 | the in-place `malloc` returns the pointer and leaves the state that `BumpSpec.Malloc` computes; the invariant holds afterwards |
| Allocator.BumpAllocator.CarveAt | pb-alloc.c:154-158 | bumping `free_addr` and writing the header leaves the state `BumpSpec.Carve` computes, and keeps the invariant |
| Allocator.BumpAllocator.Free | pb-alloc.c:174-178 | `free` changes nothing |
| Allocator.BumpAllocator.Calloc | pb-alloc.c:192-205 | the in-place `calloc` returns the pointer and leaves the state that `BumpSpec.Calloc` computes |
| Allocator.BumpAllocator.Realloc | pb-alloc.c:223-252 | the in-place `realloc` returns the pointer and leaves the state that `BumpSpec.Realloc` computes |
| Allocator.BumpAllocator.Move | pb-alloc.c:244-250 | the growing branch leaves the state that `BumpSpec.Move` computes |
| Allocator.BumpAllocator.CopyPayload | pb-alloc.c:246-249 | after a successful `malloc`, the memcpy of the old payload leaves the heap `BumpSpec.Move` computes, and the invariant holds |
| AsWritten.Signed | pb-alloc.c:146 | an `intptr_t` read of a 64-bit word: in range, and congruent to the word modulo 2^64 |
| AsWritten.RoundUpAsWritten | pb-alloc.c:125-130 | `roundUp` with `size + 16` wrapping modulo 2^64: the result is a 16-aligned word |
| AsWritten.RoundUpAsWrittenAgrees | pb-alloc.c:125-130 | when `size + 16` does not wrap, the 64-bit `roundUp` is `Layout.RoundUp` |
| AsWritten.RoundUpAsWrittenWraps | pb-alloc.c:126 | `roundUp(2^64 - 1) == 0` |
| AsWritten.MallocAsWritten | pb-alloc.c:139-159 | malloc's cursor arithmetic with a wrapped `total_size` and a signed compare: failure leaves `free_addr` alone; success returns `free_addr + 16` and a new `free_addr` not above `end_addr` |
| AsWritten.MallocAsWrittenNoWrap | pb-alloc.c:139-159 | when nothing wraps, the 64-bit malloc returns NULL exactly when `free_addr + 16 + roundUp(size)` passes `end_addr`; otherwise it returns `free_addr + 16` and moves `free_addr` to that sum |
| AsWritten.MallocAsWrittenAgrees | pb-alloc.c:139-159 | when nothing wraps, the 64-bit malloc returns the same pointer and new cursor as `BumpSpec.Malloc` |
| AsWritten.MallocAsWrittenReusesBlock | pb-alloc.c:142-154 | `malloc(2^64 - 17)` succeeds without moving `free_addr`, so the next `malloc(1)` returns the same pointer |
| AsWritten.MallocAsWrittenOverruns | pb-alloc.c:146-154 | `malloc(2^63)` passes the signed `end_addr` check, returns a pointer and leaves `free_addr` negative |
| AsWritten.CallocSizeAsWritten | pb-alloc.c:195 | `nmemb * size` in `size_t`: below 2^64 and equal to the product when the product fits |
| AsWritten.CallocSizeAsWrittenWraps | pb-alloc.c:195 | `calloc(2, 2^63 + 50)` asks `malloc` for 100 bytes |

## Left out

- `mmap` and its failure path (`ERROR`, pb-alloc.c:95-98) are not modelled. The address `mmap` returns is the constructor parameter `mapBase`, and mapping always succeeds with zero-filled memory. `HEAP_SIZE` is replaced by the parameter `heapSize`. `PAGE_SIZE` (pb-alloc.c:35) is defined but never used, so it has no counterpart.
- `DEBUG` logging and `ERROR` output are I/O with no effect on the state.
- The `ALLOC_MAIN` test driver (pb-alloc.c:257-278) and `memtest.c` are not modelled; they only print pointers.
- `realloc` of a pointer this allocator did not return is undefined behaviour in C. The model makes it a precondition: `ptr` is the payload of a carved block (`BumpSpec.IsPayload`).
- Threads: the allocator has no locking, and the model is single-threaded.
- The target is a 64-bit little-endian machine: `sizeof(header_s) == 8`, and the header is 8 little-endian bytes.
- BumpSpec.Malloc: sizes and addresses are unbounded naturals, so `roundUp`, `total_size` and `new_free_addr` never wrap here. The wrapping behaviour is modelled separately in `AsWritten` and listed under Findings.
- BumpSpec.Calloc: `nmemb * size` is the unbounded product; the 64-bit wrap is `AsWritten.CallocSizeAsWritten`.
- Addresses are naturals. Pointer provenance is not modelled, and neither are bytes outside the mapped region.

## Findings

| source | as written | input that shows it | evidently intended | confidence | as-written member | corrected member |
|---|---|---|---|---|---|---|
| pb-alloc.c:125-130 | `size + 16` wraps in `size_t`, so the last 16 sizes round up to 0 | `roundUp(2^64 - 1) == 0`, so `malloc(SIZE_MAX)` carves a block with no payload and returns it | the rounded size is greater than the request, or malloc returns NULL | high (not executed) | AsWritten.RoundUpAsWrittenWraps | Layout.RoundUp |
| pb-alloc.c:142-154 | `total_size` wraps to 0 for a rounded size of 2^64 - 16, so `free_addr` does not move | `malloc(2^64 - 17)` then `malloc(1)` return the same pointer | blocks never overlap; such a request returns NULL | high (not executed) | AsWritten.MallocAsWrittenReusesBlock | BumpSpec.MallocBlockIsFresh |
| pb-alloc.c:146-147 | `free_addr + total_size` read as a signed `intptr_t` is negative past 2^63 and passes the `end_addr` check | `malloc(2^63)` returns a pointer and leaves `free_addr` negative | a block that does not fit before `end_addr` returns NULL | high (not executed) | AsWritten.MallocAsWrittenOverruns | BumpSpec.Malloc |
| pb-alloc.c:195 | `nmemb * size` wraps in `size_t` | `calloc(2, 2^63 + 50)` returns a 100-byte block | a product that does not fit returns NULL | high (not executed) | AsWritten.CallocSizeAsWrittenWraps | BumpSpec.CallocOverflowFails |
