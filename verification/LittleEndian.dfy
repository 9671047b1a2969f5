/** Bytes, 32-bit words, and the little-endian layout that both the disk and the
    simulated main memory use. */
module LittleEndian {

  type Byte = x: int | 0 <= x < 0x100
  type Word = x: int | 0 <= x < 0x1_0000_0000

  /** The four bytes of a word, least significant first. */
  function WordBytes(w: Word): (b: seq<Byte>)
    ensures |b| == 4
  {
    [w % 0x100, w / 0x100 % 0x100, w / 0x100 / 0x100 % 0x100, w / 0x100 / 0x100 / 0x100]
  }

  function BytesWord(b: seq<Byte>): (w: Word)
    requires |b| == 4
  {
    b[0] as int + 0x100 * (b[1] as int + 0x100 * (b[2] as int + 0x100 * b[3] as int))
  }

  lemma BytesOfWord(w: Word)
    ensures BytesWord(WordBytes(w)) == w
  {
  }

  lemma SplitByte(low: Byte, high: nat)
    ensures (low + 0x100 * high) % 0x100 == low && (low + 0x100 * high) / 0x100 == high
  {
  }

  lemma WordOfBytes(b: seq<Byte>)
    requires |b| == 4
    ensures WordBytes(BytesWord(b)) == b
  {
    SplitByte(b[2], b[3]);
    SplitByte(b[1], b[2] as int + 0x100 * b[3] as int);
    SplitByte(b[0], b[1] as int + 0x100 * (b[2] as int + 0x100 * b[3] as int));
  }

  /** Two's complement reading of a word, and its inverse. */
  function Signed(w: Word): (i: int)
    ensures -0x8000_0000 <= i < 0x8000_0000
  {
    if w < 0x8000_0000 then w else w - 0x1_0000_0000
  }

  function Unsigned(i: int): (w: Word)
    ensures -0x8000_0000 <= i < 0x8000_0000 ==> Signed(w) == i
  {
    i % 0x1_0000_0000
  }

  /** A C `int` as the four bytes it occupies in memory. */
  function IntBytes(i: int): (b: seq<Byte>)
    ensures |b| == 4
  {
    WordBytes(Unsigned(i))
  }

  function BytesInt(b: seq<Byte>): (i: int)
    requires |b| == 4
    ensures -0x8000_0000 <= i < 0x8000_0000
  {
    Signed(BytesWord(b))
  }

  lemma IntRoundTrip(i: int)
    requires -0x8000_0000 <= i < 0x8000_0000
    ensures BytesInt(IntBytes(i)) == i
  {
    BytesOfWord(Unsigned(i));
  }

  /** An array of words as it lies in memory or in a file. */
  function WordsToBytes(w: seq<Word>): (c: seq<Byte>)
    ensures |c| == 4 * |w|
  {
    if w == [] then [] else WordBytes(w[0]) + WordsToBytes(w[1..])
  }

  function BytesToWords(c: seq<Byte>): (w: seq<Word>)
    ensures |w| == |c| / 4
  {
    if |c| < 4 then [] else [BytesWord(c[..4])] + BytesToWords(c[4..])
  }

  /** The first byte of a word is the least significant. */
  lemma WordValue(b: seq<Byte>)
    requires |b| == 4
    ensures BytesWord(b) == b[0] as int + 0x100 * b[1] as int + 0x1_0000 * b[2] as int + 0x100_0000 * b[3] as int
  {
  }

  lemma SliceOfTail(c: seq<Byte>, j: nat)
    requires j + 8 <= |c|
    ensures c[4..][j..j + 4] == c[j + 4..j + 8]
  {
  }

  /** The i-th word of a file is made of its four bytes there. */
  lemma {:induction false} WordAt(c: seq<Byte>, i: nat)
    requires 4 * i + 4 <= |c|
    ensures BytesToWords(c)[i] == BytesWord(c[4 * i..4 * i + 4])
  {
    if i > 0 {
      WordAt(c[4..], i - 1);
      SliceOfTail(c, 4 * i - 4);
    }
  }

  /** Words written to a file read back as the same words. */
  lemma {:induction false} WordsRoundTrip(w: seq<Word>)
    ensures BytesToWords(WordsToBytes(w)) == w
  {
    if w != [] {
      var c := WordsToBytes(w);
      assert c[..4] == WordBytes(w[0]) && c[4..] == WordsToBytes(w[1..]);
      BytesOfWord(w[0]);
      WordsRoundTrip(w[1..]);
    }
  }
}
