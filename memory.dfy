/** Byte-level views of memory blocks, as the C code reads them through
    pointer casts on a little-endian target. */
module Memory {

  /** An `unsigned char`. */
  newtype Byte = b: int | 0 <= b < 0x100

  /** A C `short`: a 16-bit signed word. */
  type Int16 = x: int | -0x8000 <= x < 0x8000

  /** Two's-complement reinterpretation of an unsigned value below 2 * half
      (half is 2^15 for a `short`, 2^31 for an `int`). */
  function Signed(u: nat, half: nat): (r: int)
    requires u < 2 * half
    ensures -(half as int) <= r < half
    ensures r % (2 * half) == u
    ensures 0 <= r ==> r == u
  {
    WrapMod(u, 2 * half);
    if u < half then u else u - 2 * half
  }

  /** u and u - m leave the remainder u modulo m, for 0 <= u < m. */
  lemma WrapMod(u: int, m: int)
    requires 0 <= u < m
    ensures (u - m) % m == u && u % m == u
  {
    assert u - m == m * -1 + u;
  }

  /** The `short` stored at bytes lo, hi (lo first). */
  function ShortOf(lo: Byte, hi: Byte): Int16
  {
    Signed(hi as int * 0x100 + lo as int, 0x8000)
  }

  /** The first n words of a block viewed as `short *`. */
  function Words(b: seq<Byte>, n: nat): (w: seq<Int16>)
    requires 2 * n <= |b|
    ensures |w| == n
  {
    seq(n, i requires 0 <= i < n => ShortOf(b[2 * i], b[2 * i + 1]))
  }

  /** The `int` stored at bytes b[off..off+4] (least significant byte first). */
  function Int32At(b: seq<Byte>, off: nat): (x: int)
    requires off + 4 <= |b|
    ensures -0x8000_0000 <= x < 0x8000_0000
  {
    Signed(b[off] as int + 0x100 * (b[off + 1] as int + 0x100 * (b[off + 2] as int + 0x100 * b[off + 3] as int)),
           0x8000_0000)
  }

  /** Word i of words is the `short` at bytes 2i and 2i + 1 of data. */
  ghost predicate ReadsAs(data: array<Byte>, words: seq<Int16>)
    reads data
  {
    forall i :: 0 <= i < |words| ==>
      2 * i + 1 < data.Length && words[i] == ShortOf(data[2 * i], data[2 * i + 1])
  }

  /** The word view of an array reads as its bytes. */
  lemma WordsRead(data: array<Byte>, n: nat)
    requires 2 * n <= data.Length
    ensures ReadsAs(data, Words(data[..], n))
  {
  }

  /** Words read only the first 2n bytes: whatever follows them, an odd
      trailing byte included, does not change the view. */
  lemma WordsPrefix(b: seq<Byte>, tail: seq<Byte>, n: nat)
    requires 2 * n <= |b|
    ensures Words(b + tail, n) == Words(b, n)
  {
  }
}
