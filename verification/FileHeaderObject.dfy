/** The in-memory file header: allocation and release of a file's data sectors. */
module FileHeaderObjects {
  import opened LittleEndian
  import opened DiskImage
  import opened FileHeaders
  import opened BitMaps

  /** `m` with every listed mark set. */
  ghost function MarkAll(m: seq<bool>, b: seq<int>): (r: seq<bool>)
    requires forall s :: s in b ==> 0 <= s < |m|
    ensures |r| == |m|
    ensures forall s :: 0 <= s < |m| ==> r[s] == (m[s] || s in b)
  {
    seq(|m|, s requires 0 <= s < |m| => m[s] || s in b)
  }

  /** `m` with every listed mark cleared. */
  ghost function ClearAll(m: seq<bool>, b: seq<int>): (r: seq<bool>)
    ensures |r| == |m|
    ensures forall s :: 0 <= s < |m| ==> r[s] == (m[s] && s !in b)
  {
    seq(|m|, s requires 0 <= s < |m| => m[s] && s !in b)
  }

  /** Sectors taken one by one out of a map, each clear when it was taken. */
  ghost predicate TakenFrom(m: seq<bool>, b: seq<int>) {
    && Distinct(b)
    && forall i :: 0 <= i < |b| ==> 0 <= b[i] < |m| && !m[b[i]]
  }

  /** Taking one more: the map loses exactly one clear mark. */
  lemma TakeOne(m: seq<bool>, b: seq<int>, s: int)
    requires TakenFrom(m, b) && 0 <= s < |m| && !MarkAll(m, b)[s]
    ensures TakenFrom(m, b + [s])
    ensures MarkAll(m, b)[s := true] == MarkAll(m, b + [s])
    ensures CountClear(MarkAll(m, b + [s])) == CountClear(MarkAll(m, b)) - 1
  {
    CountAfterMark(MarkAll(m, b), s);
  }

  class FileHeader {
    var numBytes: int
    var numSectors: int
    var dataSectors: seq<int>

    ghost function Value(): (h: Header)
      reads this
    {
      Header(numBytes, numSectors, dataSectors)
    }

    /** A fresh header holds whatever the memory held. */
    constructor ()
      ensures Storable(Value())
    {
      numBytes := 0;
      numSectors := 0;
      dataSectors := seq(NUM_DIRECT, _ => 0);
    }

    method Allocate(freeMap: BitMap, fileSize: int) returns (ok: bool)
      requires freeMap.Valid() && freeMap.numBits == NUM_SECTORS
      requires 0 <= fileSize <= MAX_FILE_SIZE
      requires Storable(Value())
      modifies this, freeMap`marks, freeMap.map_
      ensures freeMap.Valid()
      ensures ok <==> CountClear(old(freeMap.marks)) >= DivRoundUp(fileSize, SECTOR_SIZE)
      ensures !ok ==> freeMap.marks == old(freeMap.marks)
      ensures ok ==> WellFormed(Value()) && Storable(Value()) && numBytes == fileSize
      ensures ok ==> TakenFrom(old(freeMap.marks), Blocks(Value()))
      ensures ok ==> freeMap.marks == MarkAll(old(freeMap.marks), Blocks(Value()))
      ensures ok ==> CountClear(freeMap.marks) == CountClear(old(freeMap.marks)) - numSectors
    {
      numBytes := fileSize;
      numSectors := DivRoundUp(fileSize, SECTOR_SIZE);
      var clear := freeMap.NumClear();
      if clear < numSectors {
        return false;
      }
      TakeSectors(freeMap);
      return true;
    }

    /** The allocation loop: fill in the first `numSectors` table slots. */
    method TakeSectors(freeMap: BitMap)
      requires freeMap.Valid() && freeMap.numBits == NUM_SECTORS
      requires Storable(Value()) && 0 <= numSectors <= NUM_DIRECT
      requires CountClear(freeMap.marks) >= numSectors
      modifies `dataSectors, freeMap`marks, freeMap.map_
      ensures freeMap.Valid() && Storable(Value())
      ensures TakenFrom(old(freeMap.marks), Blocks(Value()))
      ensures freeMap.marks == MarkAll(old(freeMap.marks), Blocks(Value()))
      ensures CountClear(freeMap.marks) == CountClear(old(freeMap.marks)) - numSectors
    {
      ghost var before := freeMap.marks;
      for i := 0 to numSectors
        invariant freeMap.Valid() && Storable(Value())
        invariant TakenFrom(before, dataSectors[..i])
        invariant freeMap.marks == MarkAll(before, dataSectors[..i])
        invariant CountClear(freeMap.marks) == CountClear(before) - i
      {
        ghost var got := dataSectors[..i];
        var s := freeMap.Find();
        TakeOne(before, got, s);
        dataSectors := dataSectors[i := s];
        assert dataSectors[..i + 1] == got + [s];
      }
    }

    /** Release the data sectors; each of them ought to be marked. */
    method Deallocate(freeMap: BitMap)
      requires freeMap.Valid() && freeMap.numBits == NUM_SECTORS
      requires WellFormed(Value())
      requires forall s :: s in Blocks(Value()) ==> freeMap.marks[s]
      modifies freeMap`marks, freeMap.map_
      ensures freeMap.Valid() && freeMap.marks == ClearAll(old(freeMap.marks), Blocks(Value()))
    {
      ghost var before := freeMap.marks;
      ghost var b := Blocks(Value());
      for i := 0 to numSectors
        invariant freeMap.Valid() && freeMap.marks == ClearAll(before, b[..i])
      {
        assert b[..i + 1] == b[..i] + [b[i]];
        var marked := freeMap.Test(dataSectors[i]);
        assert marked;
        freeMap.Clear(dataSectors[i]);
      }
      assert b[..numSectors] == b;
    }

    method FetchFrom(disk: SynchDisk, sector: int)
      requires 0 <= sector < NUM_SECTORS
      modifies this
      ensures Value() == DecodeHeader(disk.image[sector])
    {
      var raw := new Byte[SECTOR_SIZE];
      disk.ReadSector(sector, raw, 0);
      assert raw[..] == disk.image[sector];
      var h := DecodeHeader(raw[..]);
      numBytes, numSectors, dataSectors := h.numBytes, h.numSectors, h.dataSectors;
    }

    method WriteBack(disk: SynchDisk, sector: int)
      requires 0 <= sector < NUM_SECTORS && Storable(Value())
      modifies disk
      ensures DecodeHeader(disk.image[sector]) == Value()
      ensures forall s :: 0 <= s < NUM_SECTORS && s != sector ==> disk.image[s] == old(disk.image)[s]
    {
      var bytes := EncodeHeader(Header(numBytes, numSectors, dataSectors));
      var raw := new Byte[SECTOR_SIZE](i requires 0 <= i < SECTOR_SIZE => bytes[i]);
      assert raw[..] == bytes;
      disk.WriteSector(sector, raw, 0);
      assert disk.image[sector] == bytes;
      HeaderRoundTrip(Value());
    }
  }
}
