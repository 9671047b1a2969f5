/** The file header (the i-node): its 32-word sector layout, and the value it denotes. */
module FileHeaders {
  import opened LittleEndian
  import opened DiskImage

  const NUM_DIRECT := 30
  const MAX_FILE_SIZE := NUM_DIRECT * SECTOR_SIZE

  datatype Header = Header(numBytes: int, numSectors: int, dataSectors: seq<int>)

  function DivRoundUp(n: nat, s: nat): (r: nat)
    requires s > 0
    ensures (r - 1) * s < n <= r * s
  {
    n / s + if n % s > 0 then 1 else 0
  }

  function DecodeHeader(s: Sector): (h: Header)
    ensures |h.dataSectors| == NUM_DIRECT
  {
    var w := BytesToWords(s);
    Header(Signed(w[0]), Signed(w[1]), seq(NUM_DIRECT, i requires 0 <= i < NUM_DIRECT => Signed(w[i + 2])))
  }

  predicate IntField(x: int) {
    -0x8000_0000 <= x < 0x8000_0000
  }

  /** A header whose fields are all C `int`s. */
  predicate Storable(h: Header) {
    && |h.dataSectors| == NUM_DIRECT
    && IntField(h.numBytes)
    && IntField(h.numSectors)
    && forall i :: 0 <= i < NUM_DIRECT ==> IntField(h.dataSectors[i])
  }

  /** The header's fields in order, as the words that make up its sector. */
  function HeaderWords(h: Header): (w: seq<Word>)
    requires |h.dataSectors| == NUM_DIRECT
    ensures |w| == NUM_DIRECT + 2
  {
    [Unsigned(h.numBytes), Unsigned(h.numSectors)]
    + seq(NUM_DIRECT, i requires 0 <= i < NUM_DIRECT => Unsigned(h.dataSectors[i]))
  }

  function EncodeHeader(h: Header): (s: Sector)
    requires |h.dataSectors| == NUM_DIRECT
  {
    WordsToBytes(HeaderWords(h))
  }

  /** What is written to a header sector is what is fetched from it. */
  lemma HeaderRoundTrip(h: Header)
    requires Storable(h)
    ensures DecodeHeader(EncodeHeader(h)) == h
  {
    WordsRoundTrip(HeaderWords(h));
    assert DecodeHeader(EncodeHeader(h)).dataSectors == h.dataSectors;
  }

  /** The words of a header, in order: the length, the number of sectors, and the table. */
  function HeaderField(h: Header, k: nat): (x: int)
    requires |h.dataSectors| == NUM_DIRECT && k < NUM_DIRECT + 2
  {
    if k == 0 then h.numBytes else if k == 1 then h.numSectors else h.dataSectors[k - 2]
  }

  /** The k-th field lies in the k-th four bytes of the sector. */
  lemma HeaderLayout(s: Sector, k: nat)
    requires k < NUM_DIRECT + 2
    ensures HeaderField(DecodeHeader(s), k) == BytesInt(s[4 * k..4 * k + 4])
  {
    WordAt(s, k);
  }

  /** The data sectors the header really uses; later table slots are left uninitialised. */
  function Blocks(h: Header): (b: seq<int>)
    requires 0 <= h.numSectors <= |h.dataSectors|
  {
    h.dataSectors[..h.numSectors]
  }

  predicate Distinct(b: seq<int>) {
    forall i, j :: 0 <= i < j < |b| ==> b[i] != b[j]
  }

  predicate OnDisk(b: seq<int>) {
    forall i :: 0 <= i < |b| ==> 0 <= b[i] < NUM_SECTORS
  }

  /** A header that describes a file: enough sectors, all on the disk, none used twice. */
  predicate WellFormed(h: Header) {
    && |h.dataSectors| == NUM_DIRECT
    && 0 <= h.numBytes <= MAX_FILE_SIZE
    && h.numSectors == DivRoundUp(h.numBytes, SECTOR_SIZE)
    && OnDisk(Blocks(h))
    && Distinct(Blocks(h))
  }

  /** The given sectors, one after another. */
  function Concatenated(d: Image, b: seq<int>): (c: seq<Byte>)
    requires OnDisk(b)
    ensures |c| == |b| * SECTOR_SIZE
  {
    if b == [] then [] else d[b[0]] + Concatenated(d, b[1..])
  }

  /** The bytes of a file: its data sectors in order, cut at the file length. */
  function Contents(d: Image, h: Header): (c: seq<Byte>)
    requires WellFormed(h)
    ensures |c| == h.numBytes
  {
    Concatenated(d, Blocks(h))[..h.numBytes]
  }

  lemma {:induction false} ConcatenatedAt(d: Image, b: seq<int>, i: nat)
    requires OnDisk(b) && i < |b| * SECTOR_SIZE
    ensures Concatenated(d, b)[i] == d[b[i / SECTOR_SIZE]][i % SECTOR_SIZE]
  {
    if i >= SECTOR_SIZE {
      ConcatenatedAt(d, b[1..], i - SECTOR_SIZE);
      assert b[1..][(i - SECTOR_SIZE) / SECTOR_SIZE] == b[i / SECTOR_SIZE];
    }
  }

  /** Byte `i` lives at offset `i % 128` of the `i / 128`-th data sector. */
  lemma ByteOfFile(d: Image, h: Header, i: nat)
    requires WellFormed(h) && i < h.numBytes
    ensures Contents(d, h)[i] == d[Blocks(h)[i / SECTOR_SIZE]][i % SECTOR_SIZE]
  {
    ConcatenatedAt(d, Blocks(h), i);
  }

  /** Contents depend on the file's own sectors only. */
  lemma ContentsFrame(d: Image, e: Image, h: Header)
    requires WellFormed(h)
    requires forall s :: s in Blocks(h) ==> d[s] == e[s]
    ensures Contents(d, h) == Contents(e, h)
  {
    ConcatenatedFrame(d, e, Blocks(h));
  }

  lemma {:induction false} ConcatenatedFrame(d: Image, e: Image, b: seq<int>)
    requires OnDisk(b)
    requires forall s :: s in b ==> d[s] == e[s]
    ensures Concatenated(d, b) == Concatenated(e, b)
  {
    if b != [] {
      assert b[0] in b;
      ConcatenatedFrame(d, e, b[1..]);
    }
  }
}
