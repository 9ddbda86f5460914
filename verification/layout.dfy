/**
 * The arithmetic of a block: the 16-byte alignment unit, the header and its
 * padding in front of every payload, and the way consecutive blocks tile the
 * used part of the heap region.
 */
module Layout {

  /** The alignment unit of every payload and every block size. */
  const ALIGNMENT: nat := 16

  /** sizeof(header_s): the one `size_t` field, on a 64-bit target. */
  const HEADER_SIZE: nat := 8

  /** The padding malloc puts between the header and the payload. */
  const PADDING: nat := PaddingFor(HEADER_SIZE)

  /** From the start of a block (its header) to its payload. */
  const OFFSET: nat := HEADER_SIZE + PADDING

  /**
   * `roundUp`: the request plus one alignment unit, cut down to a multiple of
   * the unit. Always strictly more than the request, so an aligned request
   * gains a whole extra unit.
   */
  function RoundUp(size: nat): (r: nat)
    ensures r % ALIGNMENT == 0
    ensures size < r <= size + ALIGNMENT
    ensures size % ALIGNMENT == 0 ==> r == size + ALIGNMENT
  {
    var newSize := size + 16;
    var mod := newSize % 16;
    newSize - mod
  }

  /**
   * The padding formula `16 - sizeof(header_s) % 16`: header and padding
   * together always end on an alignment boundary, and a header that is
   * already a multiple of 16 still gets a full unit of padding.
   */
  function PaddingFor(headerSize: nat): (p: nat)
    ensures 0 < p <= ALIGNMENT
    ensures (headerSize + p) % ALIGNMENT == 0
    ensures headerSize + p == RoundUp(headerSize)
  {
    16 - headerSize % 16
  }

  /** Where malloc puts the payload of a block whose header is at `header`. */
  function PayloadOf(header: nat): nat
  {
    header + HEADER_SIZE + PADDING
  }

  /**
   * Where realloc looks for the header of the payload at `p`: it subtracts
   * the header size and recomputes the padding the same way malloc did.
   */
  function HeaderOf(p: nat): (h: nat)
    requires p >= OFFSET
    ensures PayloadOf(h) == p
    ensures p % ALIGNMENT == 0 <==> h % ALIGNMENT == 0
  {
    p - HEADER_SIZE - (16 - HEADER_SIZE % 16)
  }

  /** A block carved from the region: its header address and the size its header records. */
  datatype Block = Block(addr: nat, size: nat)

  /** The first address after the block's payload. */
  function BlockEnd(b: Block): nat
  {
    b.addr + OFFSET + b.size
  }

  /**
   * `bs` lie back to back from `lo` to `hi`, each with a non-empty payload
   * whose size is a multiple of the alignment unit.
   */
  predicate Tiles(bs: seq<Block>, lo: nat, hi: nat)
    decreases |bs|
  {
    if |bs| == 0 then lo == hi
    else
      bs[0].addr == lo && 0 < bs[0].size && bs[0].size % ALIGNMENT == 0 &&
      Tiles(bs[1..], BlockEnd(bs[0]), hi)
  }

  /** Two distances that are multiples of the alignment unit add up to one. */
  lemma AlignedSum(a: nat, b: nat)
    requires a % ALIGNMENT == 0 && b % ALIGNMENT == 0
    ensures (a + b) % ALIGNMENT == 0
  {
  }

  /** Every block of a tiling lies between its ends, at an aligned distance from its start. */
  lemma {:induction false} TilesBounds(bs: seq<Block>, lo: nat, hi: nat)
    requires Tiles(bs, lo, hi)
    ensures lo <= hi && (hi - lo) % ALIGNMENT == 0
    ensures forall i :: 0 <= i < |bs| ==>
      lo <= bs[i].addr && BlockEnd(bs[i]) <= hi && (bs[i].addr - lo) % ALIGNMENT == 0
  {
    if |bs| > 0 {
      var mid := BlockEnd(bs[0]);
      TilesBounds(bs[1..], mid, hi);
      AlignedSum(mid - lo, hi - mid);
      forall i | 1 <= i < |bs|
        ensures lo <= bs[i].addr && BlockEnd(bs[i]) <= hi && (bs[i].addr - lo) % ALIGNMENT == 0
      {
        assert bs[i] == bs[1..][i - 1];
        AlignedSum(mid - lo, bs[i].addr - mid);
      }
    }
  }

  /** A block carved at the high end of a tiling extends it. */
  lemma {:induction false} TilesAppend(bs: seq<Block>, lo: nat, hi: nat, size: nat)
    requires Tiles(bs, lo, hi)
    requires 0 < size && size % ALIGNMENT == 0
    ensures Tiles(bs + [Block(hi, size)], lo, hi + OFFSET + size)
  {
    if |bs| > 0 {
      TilesAppend(bs[1..], BlockEnd(bs[0]), hi, size);
      assert (bs + [Block(hi, size)])[1..] == bs[1..] + [Block(hi, size)];
    }
  }

  /** Blocks of a tiling never overlap: each one ends before every later one starts. */
  lemma {:induction false} TilesDisjoint(bs: seq<Block>, lo: nat, hi: nat)
    requires Tiles(bs, lo, hi)
    ensures forall i, j :: 0 <= i < j < |bs| ==> BlockEnd(bs[i]) <= bs[j].addr
  {
    if |bs| > 0 {
      var tail := bs[1..];
      TilesDisjoint(tail, BlockEnd(bs[0]), hi);
      TilesBounds(tail, BlockEnd(bs[0]), hi);
      forall i, j | 0 <= i < j < |bs|
        ensures BlockEnd(bs[i]) <= bs[j].addr
      {
        assert bs[j] == tail[j - 1];
        if i > 0 {
          assert bs[i] == tail[i - 1];
        }
      }
    }
  }
}
