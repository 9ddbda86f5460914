/**
 * The allocator's arithmetic as the C code performs it on 64-bit words:
 * `size_t` sums and products wrap modulo 2^64, and `intptr_t` values are
 * two's-complement. The rest of the model works on unbounded naturals and
 * refuses the requests that wrap; the lemmas here show what the wrapped
 * arithmetic does instead, and that the two agree whenever nothing wraps.
 */
module AsWritten {
  import opened Wrappers
  import opened Bytes
  import opened Layout
  import BumpSpec

  /** A 64-bit word read as a signed `intptr_t`. */
  function Signed(x: nat): (v: int)
    requires x < WORD
    ensures -(WORD / 2) <= v < WORD / 2
    ensures v % WORD == x
  {
    if x < WORD / 2 then x else x - WORD
  }

  /** roundUp with its `size + 16` computed in `size_t`. */
  function RoundUpAsWritten(size: nat): (r: nat)
    requires size < WORD
    ensures r < WORD && r % ALIGNMENT == 0
  {
    var newSize := (size + 16) % WORD;
    newSize - newSize % 16
  }

  /** Below the last sixteen values of `size_t` nothing wraps, and roundUp is the unbounded RoundUp. */
  lemma RoundUpAsWrittenAgrees(size: nat)
    requires size + ALIGNMENT < WORD
    ensures RoundUpAsWritten(size) == RoundUp(size)
  {
  }

  /** The largest request rounds up to zero, which is not larger than the request. */
  lemma RoundUpAsWrittenWraps()
    ensures RoundUpAsWritten(WORD - 1) == 0
  {
  }

  /** free_addr after a malloc call, and the pointer the call returns. */
  datatype Bump = Bump(free: int, ptr: Option<nat>)

  /**
   * The cursor arithmetic of malloc as written: the block's total size is a
   * `size_t`, its sum with free_addr is stored in an `intptr_t`, and that is
   * compared, signed, with end_addr.
   */
  function MallocAsWritten(free: nat, end: nat, size: nat): (r: Bump)
    requires free < WORD / 2 && end < WORD / 2 && size < WORD
    ensures r.ptr.None? ==> r.free == free
    ensures r.ptr.Some? ==> size > 0 && r.ptr.value == PayloadOf(free) && r.free <= end
  {
    if size == 0 then Bump(free, None)
    else
      var rounded := RoundUpAsWritten(size);
      var total := (rounded + HEADER_SIZE + PADDING) % WORD;
      var block := free + HEADER_SIZE + PADDING;
      var next := Signed((free + total) % WORD);
      if next > end then Bump(free, None)
      else Bump(next, Some(block))
  }

  /**
   * When the new cursor stays below 2^63 nothing wraps: malloc fails exactly
   * when the block would pass end_addr, and otherwise returns the payload
   * after the header and moves free_addr past the rounded block.
   */
  lemma MallocAsWrittenNoWrap(free: nat, end: nat, size: nat)
    requires 0 < size && free + OFFSET + size + ALIGNMENT < WORD / 2 && end < WORD / 2
    ensures var next := free + OFFSET + RoundUp(size);
      MallocAsWritten(free, end, size) ==
        if next > end then Bump(free, None) else Bump(next, Some(PayloadOf(free)))
  {
    RoundUpAsWrittenAgrees(size);
    var next := free + OFFSET + RoundUp(size);
    assert (RoundUp(size) + HEADER_SIZE + PADDING) % WORD == OFFSET + RoundUp(size);
    assert Signed((free + OFFSET + RoundUp(size)) % WORD) == next;
  }

  /**
   * When the new cursor stays below 2^63, the wrapped arithmetic is the
   * model's malloc: same pointer, same new free_addr.
   */
  lemma MallocAsWrittenAgrees(h: BumpSpec.Heap, size: nat)
    requires BumpSpec.Inv(h) && h.limit < WORD / 2
    requires h.cursor + OFFSET + size + ALIGNMENT < WORD / 2
    ensures var r := MallocAsWritten(h.cursor, h.limit, size);
      var s := BumpSpec.Malloc(h, size);
      r.ptr == s.ptr && r.free == s.heap.cursor
  {
    if size > 0 {
      MallocAsWrittenNoWrap(h.cursor, h.limit, size);
    }
  }

  /**
   * A request of 2^64 - 17 bytes rounds up to 2^64 - 16, whose total block
   * size wraps to zero: malloc returns a pointer without moving free_addr,
   * so the next malloc hands out the same pointer again.
   */
  lemma MallocAsWrittenReusesBlock(free: nat, end: nat)
    requires 0 < free && free + 2 * OFFSET <= end < WORD / 2
    ensures var first := MallocAsWritten(free, end, WORD - 17);
      first.ptr == Some(PayloadOf(free)) && first.free == free &&
      MallocAsWritten(first.free, end, 1).ptr == first.ptr
  {
    assert RoundUpAsWritten(WORD - 17) == WORD - 16;
    assert RoundUpAsWritten(1) == 16;
  }

  /**
   * A request of 2^63 bytes gives an `intptr_t` sum past 2^63, which reads
   * as negative and so passes the end_addr check: malloc succeeds for a
   * block far larger than the region and leaves free_addr negative.
   */
  lemma MallocAsWrittenOverruns(free: nat, end: nat)
    requires 0 < free <= end < WORD / 2 - 2 * OFFSET
    ensures var r := MallocAsWritten(free, end, WORD / 2);
      r.ptr == Some(PayloadOf(free)) && r.free < 0
  {
    assert RoundUpAsWritten(WORD / 2) == WORD / 2 + 16;
  }

  /** The byte count calloc passes to malloc: `nmemb * size` in `size_t`. */
  function CallocSizeAsWritten(count: nat, size: nat): (n: nat)
    requires count < WORD && size < WORD
    ensures n < WORD
    ensures count * size < WORD ==> n == count * size
  {
    (count * size) % WORD
  }

  /**
   * Two elements of 2^63 + 50 bytes make 2^64 + 100 bytes, which wraps to
   * 100: calloc returns a 100-byte block for a request no region can hold.
   */
  lemma CallocSizeAsWrittenWraps()
    ensures CallocSizeAsWritten(2, WORD / 2 + 50) == 100
  {
  }
}
