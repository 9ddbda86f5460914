/**
 * The allocator as pb-alloc.c keeps it: three words of state and the mapped
 * region, updated in place by init, malloc, calloc, realloc and free. Every
 * method is proved to do to the state exactly what the matching function of
 * BumpSpec does to its value.
 */
module Allocator {
  import opened Wrappers
  import opened Bytes
  import opened Layout
  import BumpSpec

  class BumpAllocator {
    /** The address the one mmap call of init returns (page aligned, so 16-aligned). */
    const mapBase: nat
    /** HEAP_SIZE: how many bytes init maps. */
    const heapSize: nat

    /** start_addr: 0 until init has mapped the region. */
    var start: nat
    /** end_addr: one past the last byte of the region. */
    var end: nat
    /** free_addr: the next byte no block has used. */
    var free: nat
    /** The mapped region: `heap[k]` is the byte at address `start + k`. */
    var heap: array<byte>
    /** Every block carved so far, in address order. */
    ghost var blocks: seq<Block>

    /**
     * The state as a BumpSpec heap. Before init has run this is the region
     * init is about to map, so that every call is described from the state
     * it finds once init is done.
     */
    ghost function Model(): BumpSpec.Heap
      reads this, heap
    {
      if start == 0 then BumpSpec.Heap(mapBase, mapBase + heapSize, mapBase, Zeroes(heapSize), [])
      else BumpSpec.Heap(start, end, free, heap[..], blocks)
    }

    ghost predicate Valid()
      reads this, heap
    {
      0 < mapBase && mapBase % ALIGNMENT == 0 && heapSize < WORD &&
      (start == 0 ==> end == 0 && free == 0 && blocks == []) &&
      (start != 0 ==> start == mapBase && end == mapBase + heapSize && heap.Length == heapSize) &&
      BumpSpec.Inv(Model())
    }

    /** The globals before the first call: all three words are 0 and nothing is mapped. */
    constructor (mapBase: nat, heapSize: nat)
      requires 0 < mapBase && mapBase % ALIGNMENT == 0 && heapSize < WORD
      ensures Valid() && start == 0 && end == 0 && free == 0
      ensures this.mapBase == mapBase && this.heapSize == heapSize
      ensures Model() == BumpSpec.Initial(mapBase, heapSize)
      ensures fresh(heap)
    {
      this.mapBase := mapBase;
      this.heapSize := heapSize;
      start, end, free := 0, 0, 0;
      heap := new byte[0];
      blocks := [];
      new;
      assert Model() == BumpSpec.Initial(mapBase, heapSize);
    }

    /**
     * `init`: on the first call map a zero-filled region and set the three
     * words to its bounds; on every later call do nothing.
     */
    method Init()
      requires Valid()
      modifies this
      ensures Valid() && start == mapBase && end == mapBase + heapSize
      ensures Model() == old(Model())
      ensures old(start) != 0 ==> free == old(free) && heap == old(heap)
      ensures old(start) == 0 ==> free == start && fresh(heap)
    {
      if start == 0 {
        heap := new byte[heapSize](_ => 0);
        start := mapBase;
        end := start + heapSize;
        free := start;
        assert heap[..] == Zeroes(heapSize);
      }
    }

    /** The store `header_ptr->size = w`: the eight bytes of `w` at offset `off` of the region. */
    method Store(off: nat, w: nat)
      requires off + WORD_BYTES <= heap.Length
      modifies heap
      ensures heap[..] == Splice(old(heap[..]), off, LittleEndian(w, WORD_BYTES))
    {
      var bytes := LittleEndian(w, WORD_BYTES);
      forall k | 0 <= k < WORD_BYTES {
        heap[off + k] := bytes[k];
      }
      SpliceAt(old(heap[..]), off, bytes);
    }

    /** The load `old_header->size`: the word at offset `off` of the region. */
    method LoadWord(off: nat) returns (v: nat)
      requires off + WORD_BYTES <= heap.Length
      ensures v == Load(heap[..], off)
    {
      v := heap[off] as nat + 256 * (heap[off + 1] as nat + 256 * (heap[off + 2] as nat + 256 * (heap[off + 3] as nat +
           256 * (heap[off + 4] as nat + 256 * (heap[off + 5] as nat + 256 * (heap[off + 6] as nat + 256 * heap[off + 7] as nat))))));
    }

    /** `memset(ptr, 0, n)` inside the mapped region. */
    method Memset(ptr: nat, n: nat)
      requires start != 0 && start <= ptr && ptr - start + n <= heap.Length
      modifies heap
      ensures Model() == BumpSpec.Write(old(Model()), ptr, Zeroes(n))
    {
      var off := ptr - start;
      var i := 0;
      while i < n
        invariant i <= n
        invariant forall k :: 0 <= k < heap.Length ==> heap[k] == if off <= k < off + i then 0 else old(heap[k])
      {
        heap[off + i] := 0;
        i := i + 1;
      }
      ghost var h0 := old(Model());
      assert h0.base == start && h0.mem == old(heap[..]);
      SpliceAt(h0.mem, off, Zeroes(n));
      assert heap[..] == Splice(h0.mem, off, Zeroes(n));
      assert Model() == h0.(mem := heap[..]);
    }

    /**
     * `memcpy(dst, src, n)` inside the mapped region, for a source range that
     * ends before the destination starts; `w` names the bytes copied.
     */
    method Memcpy(dst: nat, src: nat, n: nat, ghost h: BumpSpec.Heap, ghost w: seq<byte>)
      requires start != 0 && Model() == h
      requires h.base <= src && src + n <= dst && dst - h.base + n <= |h.mem|
      requires w == h.mem[src - h.base .. src - h.base + n]
      modifies heap
      ensures Model() == BumpSpec.Write(h, dst, w)
    {
      var d, s := dst - start, src - start;
      assert heap.Length == |h.mem| && s + n <= d && d + n <= heap.Length;
      var i := 0;
      while i < n
        invariant i <= n
        invariant forall k :: 0 <= k < heap.Length ==> heap[k] == if d <= k < d + i then w[k - d] else h.mem[k]
      {
        assert heap[s + i] == w[i];
        heap[d + i] := heap[s + i];
        i := i + 1;
      }
      SpliceAt(h.mem, d, w);
      assert heap[..] == Splice(h.mem, d, w);
      assert Model() == h.(mem := heap[..]);
    }

    /**
     * `malloc`: runs init, then carves a block at free_addr as
     * BumpSpec.Malloc describes, writing its header into the region.
     */
    method Malloc(size: nat) returns (p: Option<nat>)
      requires Valid()
      modifies this, heap
      ensures Valid() && start == mapBase
      ensures BumpSpec.Step(Model(), p) == BumpSpec.Malloc(old(Model()), size)
      ensures old(start) != 0 ==> heap == old(heap)
      ensures old(start) == 0 ==> fresh(heap)
    {
      Init();
      if size == 0 {
        return None;
      }
      var rounded := RoundUp(size);
      var padding := ALIGNMENT - HEADER_SIZE % ALIGNMENT;
      var total := rounded + HEADER_SIZE + padding;
      var header := free;
      var block := free + HEADER_SIZE + padding;
      var newFree := free + total;
      if newFree > end {
        return None;
      }
      CarveAt(rounded, newFree);
      p := Some(block);
    }

    /**
     * The carving half of `malloc`: write the header recording `rounded` at
     * free_addr and move free_addr on to `newFree`, past the block.
     */
    method CarveAt(rounded: nat, newFree: nat)
      requires Valid() && start != 0
      requires 0 < rounded && rounded % ALIGNMENT == 0
      requires newFree == free + OFFSET + rounded <= end
      modifies this, heap
      ensures Valid() && start == old(start) && end == old(end) && heap == old(heap)
      ensures Model() == BumpSpec.Carve(old(Model()), rounded)
    {
      ghost var before := Model();
      var header := free;
      free := newFree;
      Store(header - start, rounded);
      blocks := blocks + [Block(header, rounded)];
      assert Model() == BumpSpec.Carve(before, rounded);
      BumpSpec.CarveKeepsInv(before, rounded);
    }

    /** `calloc`: malloc of `count * size` bytes, then memset of those bytes to zero. */
    method Calloc(count: nat, size: nat) returns (p: Option<nat>)
      requires Valid()
      modifies this, heap
      ensures Valid() && start == mapBase
      ensures BumpSpec.Step(Model(), p) == BumpSpec.Calloc(old(Model()), count, size)
      ensures old(start) != 0 ==> heap == old(heap)
      ensures old(start) == 0 ==> fresh(heap)
    {
      ghost var before := Model();
      var blockSize := count * size;
      p := Malloc(blockSize);
      if p.Some? {
        Memset(p.value, blockSize);
        BumpSpec.CallocKeepsInv(before, count, size);
      }
    }

    /** `free`: a no-op; the block is never reused. */
    method Free(ptr: Option<nat>)
      ensures Model() == old(Model())
    {
    }

    /**
     * `realloc`: NULL goes to malloc, a zero size to free; otherwise the
     * header in front of `ptr` decides between keeping the block and moving
     * its recorded bytes to a new one.
     */
    method Realloc(ptr: Option<nat>, size: nat) returns (q: Option<nat>)
      requires Valid()
      requires ptr.Some? ==> BumpSpec.IsPayload(Model(), ptr.value)
      modifies this, heap
      ensures Valid()
      ensures BumpSpec.Step(Model(), q) == BumpSpec.Realloc(old(Model()), ptr, size)
      ensures old(start) != 0 ==> heap == old(heap)
      ensures old(start) == 0 ==> fresh(heap)
    {
      if ptr.None? {
        q := Malloc(size);
        return;
      }
      if size == 0 {
        Free(ptr);
        return None;
      }
      var p := ptr.value;
      ghost var before := Model();
      BumpSpec.PayloadWithin(before, p);
      var oldHeader := p - HEADER_SIZE - (ALIGNMENT - HEADER_SIZE % ALIGNMENT);
      var oldSize := LoadWord(oldHeader - start);
      assert oldSize == BumpSpec.RecordedSize(before, p);
      if size <= oldSize {
        return ptr;
      }
      q := Move(p, oldSize, size);
      Free(ptr);
    }

    /**
     * The moving branch of `realloc`: malloc a block of the new size and, if
     * that succeeds, copy the old block's recorded number of bytes into it.
     */
    method Move(p: nat, oldSize: nat, size: nat) returns (q: Option<nat>)
      requires Valid() && start != 0
      requires BumpSpec.IsPayload(Model(), p)
      requires oldSize == BumpSpec.RecordedSize(Model(), p) < size
      modifies this, heap
      ensures Valid() && start == old(start) && heap == old(heap)
      ensures BumpSpec.Step(Model(), q) == BumpSpec.Move(old(Model()), p, size)
    {
      ghost var before := Model();
      ghost var m := BumpSpec.Malloc(before, size);
      BumpSpec.MoveIsMalloc(before, p, size);
      q := Malloc(size);
      if q.Some? {
        CopyPayload(q.value, p, oldSize, size, before, m);
      }
    }

    /**
     * The `memcpy` of the moving branch: once malloc has carved the block at
     * `dst`, copying the old payload into it completes BumpSpec.Move.
     */
    method CopyPayload(dst: nat, p: nat, oldSize: nat, size: nat, ghost before: BumpSpec.Heap, ghost m: BumpSpec.Step)
      requires Valid() && start != 0
      requires BumpSpec.Inv(before) && BumpSpec.IsPayload(before, p)
      requires oldSize == BumpSpec.RecordedSize(before, p) < size
      requires m == BumpSpec.Malloc(before, size) && m.ptr == Some(dst) && Model() == m.heap
      modifies heap
      ensures Valid() && Model() == BumpSpec.Move(before, p, size).heap
    {
      BumpSpec.PayloadWithin(before, p);
      ghost var w := before.mem[p - before.base .. p - before.base + oldSize];
      BumpSpec.MoveKeepsInv(before, p, size);
      BumpSpec.MallocKeepsPayload(before, p, size, oldSize, m, w);
      BumpSpec.MoveTarget(before, p, size, oldSize, m);
      BumpSpec.MoveWritesOldPayload(before, p, size, oldSize, m, w);
      Memcpy(dst, p, oldSize, m.heap, w);
    }
  }
}
