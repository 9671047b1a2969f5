/** Byte-granular reads and writes on a file, over whole-sector disk transfers. */
module OpenFiles {
  import opened LittleEndian
  import opened DiskImage
  import opened FileHeaders

  /** How many bytes a request of `numBytes` at `position` transfers. */
  function Transferred(length: int, numBytes: int, position: int): (k: nat)
    requires position >= 0
  {
    if numBytes <= 0 || position >= length then 0
    else if position + numBytes > length then length - position
    else numBytes
  }

  function Min(a: int, b: int): int {
    if a < b then a else b
  }

  function Max(a: int, b: int): int {
    if a < b then b else a
  }

  /** As many bytes as are asked for and there are. */
  lemma TransferredExactly(length: int, numBytes: int, position: int)
    requires position >= 0
    ensures Transferred(length, numBytes, position) == Max(0, Min(numBytes, length - position))
  {
  }

  /** The C library's bcopy between two separate buffers. */
  method CopyBytes(src: array<Byte>, from: nat, dst: array<Byte>, at: nat, n: nat)
    requires src != dst && from + n <= src.Length && at + n <= dst.Length
    modifies dst
    ensures dst[..] == Splice(old(dst[..]), at, src[from..from + n])
  {
    forall p | at <= p < at + n {
      dst[p] := src[from + p - at];
    }
  }

  function ByteToSector(h: Header, offset: nat): (s: int)
    requires WellFormed(h) && offset < h.numBytes
  {
    h.dataSectors[offset / SECTOR_SIZE]
  }

  /** The `n`-th whole sector of a buffer. */
  function Chunk(buf: seq<Byte>, n: nat): (s: Sector)
    requires (n + 1) * SECTOR_SIZE <= |buf|
  {
    buf[n * SECTOR_SIZE..(n + 1) * SECTOR_SIZE]
  }

  /** `buf`, loaded at file sector `first`, agrees with `c` on every byte the file has there. */
  ghost predicate Covers(buf: seq<Byte>, first: nat, last: nat, c: seq<Byte>) {
    && first <= last
    && |buf| == (1 + last - first) * SECTOR_SIZE
    && forall q :: first * SECTOR_SIZE <= q < (last + 1) * SECTOR_SIZE && q < |c| ==>
        buf[q - first * SECTOR_SIZE] == c[q]
  }

  lemma CoveredSlice(buf: seq<Byte>, first: nat, last: nat, c: seq<Byte>, position: nat, k: nat)
    requires Covers(buf, first, last, c)
    requires first * SECTOR_SIZE <= position && position + k <= (last + 1) * SECTOR_SIZE && position + k <= |c|
    ensures buf[position - first * SECTOR_SIZE..][..k] == c[position..position + k]
  {
  }

  lemma BufferHoldsContents(d: Image, h: Header, buf: seq<Byte>, first: nat, last: nat)
    requires WellFormed(h) && first <= last < h.numSectors
    requires |buf| == (1 + last - first) * SECTOR_SIZE
    requires forall j :: first <= j <= last ==>
               Chunk(buf, j - first) == d[Blocks(h)[j]]
    ensures Covers(buf, first, last, Contents(d, h))
  {
    forall q | first * SECTOR_SIZE <= q < (last + 1) * SECTOR_SIZE && q < h.numBytes
      ensures buf[q - first * SECTOR_SIZE] == Contents(d, h)[q]
    {
      var j := q / SECTOR_SIZE;
      ByteOfFile(d, h, q);
      assert Chunk(buf, j - first)[q % SECTOR_SIZE] == d[Blocks(h)[j]][q % SECTOR_SIZE];
    }
  }

  /** Every byte of the buffer that the write will not cover already agrees with the file. */
  ghost predicate EdgesLoaded(buf: seq<Byte>, c: seq<Byte>, first: nat, last: nat, position: nat, k: nat)
    requires first <= last && |buf| == (1 + last - first) * SECTOR_SIZE && position + k <= |c|
    requires first * SECTOR_SIZE <= position && position + k <= (last + 1) * SECTOR_SIZE
  {
    forall q :: first * SECTOR_SIZE <= q < (last + 1) * SECTOR_SIZE && q < |c| && !(position <= q < position + k) ==>
      buf[q - first * SECTOR_SIZE] == c[q]
  }

  lemma BothEdgesLoaded(b0: seq<Byte>, b1: seq<Byte>, b2: seq<Byte>, c: seq<Byte>, first: nat, last: nat,
                        position: nat, k: nat)
    requires first <= last && |b0| == (1 + last - first) * SECTOR_SIZE && 0 < k && position + k <= |c|
    requires first * SECTOR_SIZE <= position < (first + 1) * SECTOR_SIZE
    requires last * SECTOR_SIZE < position + k <= (last + 1) * SECTOR_SIZE
    requires
      var firstAligned := position == first * SECTOR_SIZE;
      var lastAligned := position + k == (last + 1) * SECTOR_SIZE;
      && b1 == (if firstAligned then b0 else AfterRead(b0, first, first, c))
      && b2 == if lastAligned || (first == last && !firstAligned) then b1 else AfterRead(b1, first, last, c)
    ensures EdgesLoaded(b2, c, first, last, position, k)
  {
  }

  /** The buffer after reading in file sector `n`, as much of it as the file has. */
  ghost function AfterRead(b: seq<Byte>, first: nat, n: nat, c: seq<Byte>): (r: seq<Byte>)
    requires first <= n && (1 + n - first) * SECTOR_SIZE <= |b| && n * SECTOR_SIZE < |c|
    ensures |r| == |b|
    ensures forall p :: 0 <= p < |b| ==>
              r[p] == if n * SECTOR_SIZE <= p + first * SECTOR_SIZE
                           < n * SECTOR_SIZE + Transferred(|c|, SECTOR_SIZE, n * SECTOR_SIZE)
                      then c[p + first * SECTOR_SIZE] else b[p]
  {
    var at := n * SECTOR_SIZE;
    Splice(b, at - first * SECTOR_SIZE, c[at..at + Transferred(|c|, SECTOR_SIZE, at)])
  }

  lemma FilledBufferCovers(loaded: seq<Byte>, filled: seq<Byte>, first: nat, last: nat, c: seq<Byte>, position: nat,
                           data: seq<Byte>)
    requires first * SECTOR_SIZE <= position && position + |data| <= |c|
              && position + |data| <= (last + 1) * SECTOR_SIZE
    requires first <= last && |loaded| == |filled| == (1 + last - first) * SECTOR_SIZE
    requires EdgesLoaded(loaded, c, first, last, position, |data|)
    requires filled == Splice(loaded, position - first * SECTOR_SIZE, data)
    ensures Covers(filled, first, last, Splice(c, position, data))
  {
  }

  lemma SectorsHoldContents(d: Image, e: Image, h: Header, buf: seq<Byte>, first: nat, last: nat, c: seq<Byte>)
    requires WellFormed(h) && first <= last < h.numSectors && |c| == h.numBytes
    requires Covers(buf, first, last, c)
    requires forall q :: 0 <= q < |c| && !(first * SECTOR_SIZE <= q < (last + 1) * SECTOR_SIZE) ==>
              c[q] == Contents(d, h)[q]
    requires forall j :: first <= j <= last ==> e[Blocks(h)[j]] == Chunk(buf, j - first)
    requires forall j :: 0 <= j < h.numSectors && !(first <= j <= last) ==> e[Blocks(h)[j]] == d[Blocks(h)[j]]
    ensures Contents(e, h) == c
  {
    forall q | 0 <= q < |c|
      ensures Contents(e, h)[q] == c[q]
    {
      var j := q / SECTOR_SIZE;
      ByteOfFile(d, h, q);
      ByteOfFile(e, h, q);
      if first <= j <= last {
        assert e[Blocks(h)[j]][q % SECTOR_SIZE] == buf[q - first * SECTOR_SIZE];
      } else {
        assert e[Blocks(h)[j]] == d[Blocks(h)[j]];
      }
    }
  }

  class OpenFile {
    const disk: SynchDisk
    const hdr: Header
    var seekPosition: int

    constructor (disk: SynchDisk, sector: int)
      requires 0 <= sector < NUM_SECTORS
      ensures this.disk == disk && hdr == DecodeHeader(disk.image[sector]) && seekPosition == 0
    {
      this.disk := disk;
      hdr := DecodeHeader(disk.image[sector]);
      seekPosition := 0;
    }

    /** Read in all the full and partial sectors of a request. */
    method ReadSectors(buf: array<Byte>, firstSector: nat, lastSector: nat)
      requires WellFormed(hdr) && firstSector <= lastSector < hdr.numSectors
      requires buf.Length == (1 + lastSector - firstSector) * SECTOR_SIZE
      modifies buf
      ensures Covers(buf[..], firstSector, lastSector, Contents(disk.image, hdr))
    {
      for i := firstSector to lastSector + 1
        invariant forall j :: firstSector <= j < i ==>
                    Chunk(buf[..], j - firstSector) == disk.image[Blocks(hdr)[j]]
      {
        assert i * SECTOR_SIZE / SECTOR_SIZE == i && ByteToSector(hdr, i * SECTOR_SIZE) == Blocks(hdr)[i];
        disk.ReadSector(ByteToSector(hdr, i * SECTOR_SIZE), buf, (i - firstSector) * SECTOR_SIZE);
      }
      BufferHoldsContents(disk.image, hdr, buf[..], firstSector, lastSector);
    }

    method ReadAt(into: array<Byte>, at: nat, numBytes: int, position: int) returns (k: int)
      requires WellFormed(hdr)
      requires position >= 0 && position + numBytes < 0x8000_0000
      requires numBytes > 0 ==> at + Transferred(hdr.numBytes, numBytes, position) <= into.Length
      modifies into
      ensures k == Transferred(hdr.numBytes, numBytes, position)
      ensures k > 0 ==> into[..] == Splice(old(into[..]), at, Contents(disk.image, hdr)[position..position + k])
      ensures k == 0 ==> into[..] == old(into[..])
    {
      if numBytes <= 0 || position >= hdr.numBytes {
        return 0;
      }
      k := numBytes;
      if position + numBytes > hdr.numBytes {
        k := hdr.numBytes - position;
      }
      var firstSector := position / SECTOR_SIZE;
      var lastSector := (position + k - 1) / SECTOR_SIZE;
      var buf := new Byte[(1 + lastSector - firstSector) * SECTOR_SIZE];
      ReadSectors(buf, firstSector, lastSector);
      var base := firstSector * SECTOR_SIZE;
      CoveredSlice(buf[..], firstSector, lastSector, Contents(disk.image, hdr), position, k);
      CopyBytes(buf, position - base, into, at, k);
    }

    /** Read file sector `n` into its place in a buffer that starts at file sector `first`. */
    method ReadEdge(buf: array<Byte>, first: nat, n: nat)
      requires WellFormed(hdr) && first <= n && n * SECTOR_SIZE < hdr.numBytes
      requires (1 + n - first) * SECTOR_SIZE <= buf.Length
      modifies buf
      ensures buf[..] == AfterRead(old(buf[..]), first, n, Contents(disk.image, hdr))
    {
      var _ := ReadAt(buf, (n - first) * SECTOR_SIZE, SECTOR_SIZE, n * SECTOR_SIZE);
    }

    /** Read in the first and last sectors of a write, if they are to be partially modified. */
    method LoadEdges(buf: array<Byte>, k: nat, position: nat, firstSector: nat, lastSector: nat)
      requires WellFormed(hdr) && 0 < k && position + k <= hdr.numBytes
      requires firstSector * SECTOR_SIZE <= position < (firstSector + 1) * SECTOR_SIZE
      requires lastSector * SECTOR_SIZE < position + k <= (lastSector + 1) * SECTOR_SIZE
      requires buf.Length == (1 + lastSector - firstSector) * SECTOR_SIZE
      modifies buf
      ensures EdgesLoaded(buf[..], Contents(disk.image, hdr), firstSector, lastSector, position, k)
    {
      var firstAligned := position == firstSector * SECTOR_SIZE;
      var lastAligned := position + k == (lastSector + 1) * SECTOR_SIZE;
      ghost var c := Contents(disk.image, hdr);
      ghost var b0 := buf[..];
      if !firstAligned {
        ReadEdge(buf, firstSector, firstSector);
      }
      ghost var b1 := buf[..];
      if !lastAligned && (firstSector != lastSector || firstAligned) {
        ReadEdge(buf, firstSector, lastSector);
      }
      BothEdgesLoaded(b0, b1, buf[..], c, firstSector, lastSector, position, k);
    }

    /** The first half of WriteAt: a buffer of whole sectors that already reads as the file
        will.  `new char[]` leaves the buffer, and so any bytes past the end of the file,
        unspecified. */
    method FillBuffer(from: array<Byte>, k: nat, position: nat, firstSector: nat, lastSector: nat)
                      returns (buf: array<Byte>)
      requires WellFormed(hdr)
      requires 0 < k <= from.Length && position + k <= hdr.numBytes
      requires firstSector * SECTOR_SIZE <= position < (firstSector + 1) * SECTOR_SIZE
      requires lastSector * SECTOR_SIZE < position + k <= (lastSector + 1) * SECTOR_SIZE
      ensures fresh(buf)
      ensures Covers(buf[..], firstSector, lastSector, Splice(Contents(disk.image, hdr), position, from[..k]))
    {
      buf := new Byte[(1 + lastSector - firstSector) * SECTOR_SIZE];
      LoadEdges(buf, k, position, firstSector, lastSector);
      ghost var loaded := buf[..];
      CopyBytes(from, 0, buf, position - firstSector * SECTOR_SIZE, k);
      FilledBufferCovers(loaded, buf[..], firstSector, lastSector, Contents(disk.image, hdr), position, from[..k]);
    }

    /** The second half of WriteAt: put the buffer on disk, sector by sector. */
    method StoreBuffer(buf: array<Byte>, firstSector: nat, lastSector: nat, ghost wanted: seq<Byte>)
      requires WellFormed(hdr) && firstSector <= lastSector < hdr.numSectors && |wanted| == hdr.numBytes
      requires Covers(buf[..], firstSector, lastSector, wanted)
      requires forall q :: 0 <= q < |wanted| && !(firstSector * SECTOR_SIZE <= q < (lastSector + 1) * SECTOR_SIZE) ==>
                 wanted[q] == Contents(disk.image, hdr)[q]
      modifies disk
      ensures Contents(disk.image, hdr) == wanted
      ensures forall s :: 0 <= s < NUM_SECTORS && s !in Blocks(hdr) ==> disk.image[s] == old(disk.image)[s]
    {
      ghost var before := disk.image;
      for i := firstSector to lastSector + 1
        modifies disk
        invariant forall j :: firstSector <= j < i ==> disk.image[Blocks(hdr)[j]] == Chunk(buf[..], j - firstSector)
        invariant forall j :: 0 <= j < hdr.numSectors && !(firstSector <= j < i) ==>
                    disk.image[Blocks(hdr)[j]] == before[Blocks(hdr)[j]]
        invariant forall s :: 0 <= s < NUM_SECTORS && s !in Blocks(hdr) ==> disk.image[s] == before[s]
      {
        assert i * SECTOR_SIZE / SECTOR_SIZE == i && ByteToSector(hdr, i * SECTOR_SIZE) == Blocks(hdr)[i];
        disk.WriteSector(ByteToSector(hdr, i * SECTOR_SIZE), buf, (i - firstSector) * SECTOR_SIZE);
      }
      SectorsHoldContents(before, disk.image, hdr, buf[..], firstSector, lastSector, wanted);
    }

    method WriteAt(from: array<Byte>, numBytes: int, position: int) returns (k: int)
      requires WellFormed(hdr)
      requires position >= 0 && position + numBytes < 0x8000_0000
      requires numBytes <= from.Length
      modifies disk
      ensures k == Transferred(hdr.numBytes, numBytes, position)
      ensures k > 0 ==> Contents(disk.image, hdr) == Splice(old(Contents(disk.image, hdr)), position, from[..k])
      ensures k == 0 ==> disk.image == old(disk.image)
      ensures forall s :: 0 <= s < NUM_SECTORS && s !in Blocks(hdr) ==> disk.image[s] == old(disk.image)[s]
    {
      if numBytes <= 0 || position >= hdr.numBytes {
        return 0;
      }
      k := numBytes;
      if position + numBytes > hdr.numBytes {
        k := hdr.numBytes - position;
      }
      var firstSector := position / SECTOR_SIZE;
      var lastSector := (position + k - 1) / SECTOR_SIZE;
      var buf := FillBuffer(from, k, position, firstSector, lastSector);
      StoreBuffer(buf, firstSector, lastSector, Splice(Contents(disk.image, hdr), position, from[..k]));
    }

    /** WriteAt of a whole file's worth of bytes at offset 0, as every metadata write-back does. */
    method Overwrite(from: array<Byte>)
      requires WellFormed(hdr) && from.Length == hdr.numBytes
      modifies disk
      ensures Contents(disk.image, hdr) == from[..]
      ensures forall s :: 0 <= s < NUM_SECTORS && s !in Blocks(hdr) ==> disk.image[s] == old(disk.image)[s]
    {
      var k := WriteAt(from, from.Length, 0);
      assert from[..k] == from[..];
    }

    method Seek(position: int)
      modifies this
      ensures seekPosition == position
    {
      seekPosition := position;
    }

    /** Successive reads walk through the file. */
    method Read(into: array<Byte>, numBytes: int) returns (k: int)
      requires WellFormed(hdr)
      requires seekPosition >= 0 && seekPosition + numBytes < 0x8000_0000
      requires numBytes <= into.Length
      modifies this, into
      ensures k == Transferred(hdr.numBytes, numBytes, old(seekPosition))
      ensures seekPosition == old(seekPosition) + k
      ensures k > 0 ==> into[..k] == Contents(disk.image, hdr)[old(seekPosition)..seekPosition]
    {
      k := ReadAt(into, 0, numBytes, seekPosition);
      seekPosition := seekPosition + k;
    }

    method Write(from: array<Byte>, numBytes: int) returns (k: int)
      requires WellFormed(hdr)
      requires seekPosition >= 0 && seekPosition + numBytes < 0x8000_0000
      requires numBytes <= from.Length
      modifies this, disk
      ensures k == Transferred(hdr.numBytes, numBytes, old(seekPosition))
      ensures seekPosition == old(seekPosition) + k
      ensures k > 0 ==>
                Contents(disk.image, hdr) == Splice(old(Contents(disk.image, hdr)), old(seekPosition), from[..k])
      ensures k == 0 ==> disk.image == old(disk.image)
      ensures forall s :: 0 <= s < NUM_SECTORS && s !in Blocks(hdr) ==> disk.image[s] == old(disk.image)[s]
    {
      k := WriteAt(from, numBytes, seekPosition);
      seekPosition := seekPosition + k;
    }
  }
}
