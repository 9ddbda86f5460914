/**
 * The bytes of the heap region, and the 64-bit little-endian word that a
 * block header occupies in them (a `size_t` on an LP64 target).
 */
module Bytes {

  /** One byte of memory. */
  newtype byte = x: int | 0 <= x < 256

  /** 2^64: the number of values a `size_t` can hold. */
  const WORD: nat := 0x1_0000_0000_0000_0000

  /** sizeof(size_t) on a 64-bit target. */
  const WORD_BYTES: nat := 8

  function Pow256(n: nat): nat
  {
    if n == 0 then 1 else 256 * Pow256(n - 1)
  }

  lemma WordIsEightBytes()
    ensures Pow256(WORD_BYTES) == WORD
  {
    assert Pow256(4) == 0x1_0000_0000;
  }

  /** The `n` least significant bytes of `w`, least significant first. */
  function LittleEndian(w: nat, n: nat): (bs: seq<byte>)
    ensures |bs| == n
  {
    if n == 0 then [] else [(w % 256) as byte] + LittleEndian(w / 256, n - 1)
  }

  /** The number whose little-endian representation is `bs`. */
  function Value(bs: seq<byte>): (v: nat)
    ensures v < Pow256(|bs|)
  {
    if |bs| == 0 then 0 else bs[0] as nat + 256 * Value(bs[1..])
  }

  /** Storing a number in `n` bytes and loading it back gives the number. */
  lemma {:induction false} ValueOfLittleEndian(w: nat, n: nat)
    requires w < Pow256(n)
    ensures Value(LittleEndian(w, n)) == w
  {
    if n > 0 {
      var bs := LittleEndian(w, n);
      var q, r := w / 256, w % 256;
      var p := Pow256(n - 1);
      assert Pow256(n) == 256 * p;
      assert w == 256 * q + r && r < 256;
      assert q < p;
      assert bs[0] as nat == r;
      assert bs[1..] == LittleEndian(q, n - 1);
      ValueOfLittleEndian(q, n - 1);
      assert Value(bs) == r + 256 * Value(bs[1..]);
    }
  }

  /** Loading `n` bytes and storing the number back gives the same bytes. */
  lemma {:induction false} LittleEndianOfValue(bs: seq<byte>)
    ensures LittleEndian(Value(bs), |bs|) == bs
  {
    if |bs| > 0 {
      var v := Value(bs);
      assert v % 256 == bs[0] as nat && v / 256 == Value(bs[1..]);
      LittleEndianOfValue(bs[1..]);
    }
  }

  /** `s` with the bytes from offset `off` on replaced by `w`. */
  function Splice(s: seq<byte>, off: nat, w: seq<byte>): (r: seq<byte>)
    requires off + |w| <= |s|
    ensures |r| == |s|
  {
    s[..off] + w + s[off + |w|..]
  }

  /** Byte by byte: a splice reads `w` inside the written range and `s` everywhere else. */
  lemma SpliceAt(s: seq<byte>, off: nat, w: seq<byte>)
    requires off + |w| <= |s|
    ensures forall k :: 0 <= k < |s| ==> Splice(s, off, w)[k] == if off <= k < off + |w| then w[k - off] else s[k]
  {
  }

  /**
   * The 64-bit word stored at offset `a`, as a load of a `size_t` reads it on
   * a little-endian target.
   */
  function Load(mem: seq<byte>, a: nat): nat
    requires a + WORD_BYTES <= |mem|
  {
    mem[a] as nat + 256 * (mem[a + 1] as nat + 256 * (mem[a + 2] as nat + 256 * (mem[a + 3] as nat +
    256 * (mem[a + 4] as nat + 256 * (mem[a + 5] as nat + 256 * (mem[a + 6] as nat + 256 * mem[a + 7] as nat))))))
  }

  /** A load reads the eight bytes at `a` as one little-endian number. */
  lemma LoadIsValue(mem: seq<byte>, a: nat)
    requires a + WORD_BYTES <= |mem|
    ensures Load(mem, a) == Value(mem[a .. a + WORD_BYTES])
  {
    var s := mem[a .. a + WORD_BYTES];
    assert Value(s[8..]) == 0;
    assert Value(s[7..]) == s[7] as nat + 256 * Value(s[8..]);
    assert Value(s[6..]) == s[6] as nat + 256 * Value(s[7..]);
    assert Value(s[5..]) == s[5] as nat + 256 * Value(s[6..]);
    assert Value(s[4..]) == s[4] as nat + 256 * Value(s[5..]);
    assert Value(s[3..]) == s[3] as nat + 256 * Value(s[4..]);
    assert Value(s[2..]) == s[2] as nat + 256 * Value(s[3..]);
    assert Value(s[1..]) == s[1] as nat + 256 * Value(s[2..]);
    assert Value(s) == s[0] as nat + 256 * Value(s[1..]);
  }

  /** A word stored with a splice loads back as the same number. */
  lemma LoadStored(mem: seq<byte>, a: nat, v: nat)
    requires a + WORD_BYTES <= |mem| && v < WORD
    ensures Load(Splice(mem, a, LittleEndian(v, WORD_BYTES)), a) == v
  {
    var w := LittleEndian(v, WORD_BYTES);
    WordIsEightBytes();
    ValueOfLittleEndian(v, WORD_BYTES);
    LoadIsValue(Splice(mem, a, w), a);
    assert Splice(mem, a, w)[a .. a + WORD_BYTES] == w;
  }

  /** A splice that misses a word does not change what that word loads as. */
  lemma LoadUnderSplice(mem: seq<byte>, off: nat, w: seq<byte>, a: nat)
    requires off + |w| <= |mem| && a + WORD_BYTES <= |mem|
    requires a + WORD_BYTES <= off || off + |w| <= a
    ensures Load(Splice(mem, off, w), a) == Load(mem, a)
  {
    SpliceAt(mem, off, w);
  }

  /** `n` zero bytes, as `memset(_, 0, n)` writes and as anonymous mapped memory starts. */
  function Zeroes(n: nat): (z: seq<byte>)
    ensures |z| == n
    ensures forall k :: 0 <= k < n ==> z[k] == 0
  {
    seq(n, _ => 0)
  }
}
