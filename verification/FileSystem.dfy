/** The file system operations: fetch the directory and free map from their files, change them
    in memory, and write them back. */
module FileSystems {
  import opened LittleEndian
  import opened DiskImage
  import opened FileHeaders
  import opened FileHeaderObjects
  import opened OpenFiles
  import opened BitMaps
  import opened Directories
  import opened FileSystemImage
  import opened AbstractFiles

  class FileSystem {
    const disk: SynchDisk
    var freeMapFile: OpenFile
    var directoryFile: OpenFile

    ghost predicate Valid()
      reads this, disk
    {
      && freeMapFile.disk == disk && directoryFile.disk == disk
      && Consistent(disk.image)
      && freeMapFile.hdr == HeaderAt(disk.image, FREE_MAP_SECTOR)
      && directoryFile.hdr == HeaderAt(disk.image, DIRECTORY_SECTOR)
    }

    /** Mount a disk that already holds a file system. */
    constructor Mount(disk: SynchDisk)
      requires Consistent(disk.image)
      ensures this.disk == disk && Valid()
    {
      this.disk := disk;
      freeMapFile := new OpenFile(disk, FREE_MAP_SECTOR);
      directoryFile := new OpenFile(disk, DIRECTORY_SECTOR);
    }

    /** Allocate headers and data for the two metadata files of a new file system. */
    static method LayOutMetadata(freeMap: BitMap) returns (mapHdr: FileHeader, dirHdr: FileHeader)
      requires freeMap.Valid() && freeMap.numBits == NUM_SECTORS
      requires forall s :: 0 <= s < NUM_SECTORS ==> !freeMap.marks[s]
      modifies freeMap`marks, freeMap.map_
      ensures freeMap.Valid() && fresh(mapHdr) && fresh(dirHdr) && mapHdr != dirHdr
      ensures var h0, h1, m0 := mapHdr.Value(), dirHdr.Value(), old(freeMap.marks)[0 := true][1 := true];
              && WellFormed(h0) && Storable(h0) && h0.numBytes == FREE_MAP_FILE_SIZE && TakenFrom(m0, Blocks(h0))
              && WellFormed(h1) && Storable(h1) && h1.numBytes == DIRECTORY_FILE_SIZE
              && TakenFrom(MarkAll(m0, Blocks(h0)), Blocks(h1))
              && freeMap.marks == MarkAll(MarkAll(m0, Blocks(h0)), Blocks(h1))
    {
      AllClear(freeMap.marks);
      CountAfterMark(freeMap.marks, FREE_MAP_SECTOR);
      freeMap.Mark(FREE_MAP_SECTOR);
      CountAfterMark(freeMap.marks, DIRECTORY_SECTOR);
      freeMap.Mark(DIRECTORY_SECTOR);
      mapHdr := new FileHeader();
      dirHdr := new FileHeader();
      var ok := mapHdr.Allocate(freeMap, FREE_MAP_FILE_SIZE);
      assert ok;
      ok := dirHdr.Allocate(freeMap, DIRECTORY_FILE_SIZE);
      assert ok;
    }

    /** Format: whatever was on the disk, it becomes an empty file system. */
    constructor Format(disk: SynchDisk)
      modifies disk
      ensures this.disk == disk && Valid()
      ensures Files(disk.image) == map[]
    {
      this.disk := disk;
      var freeMap := new BitMap(NUM_SECTORS);
      ghost var none := freeMap.marks;
      var directory := new Directory(NUM_DIR_ENTRIES);
      var mapHdr, dirHdr := LayOutMetadata(freeMap);
      ghost var h0, h1 := mapHdr.Value(), dirHdr.Value();
      mapHdr.WriteBack(disk, FREE_MAP_SECTOR);
      dirHdr.WriteBack(disk, DIRECTORY_SECTOR);
      freeMapFile := new OpenFile(disk, FREE_MAP_SECTOR);
      directoryFile := new OpenFile(disk, DIRECTORY_SECTOR);
      new;
      FlushEmpty(freeMap, directory, none, h0, h1);
    }

    /** Write the initial free map and directory to their files. */
    method FlushEmpty(freeMap: BitMap, directory: Directory, ghost none: seq<bool>, ghost h0: Header, ghost h1: Header)
      requires freeMapFile.disk == disk && directoryFile.disk == disk && freeMapFile.hdr == h0
                && directoryFile.hdr == h1
      requires HeaderAt(disk.image, FREE_MAP_SECTOR) == h0 && HeaderAt(disk.image, DIRECTORY_SECTOR) == h1
      requires |none| == NUM_SECTORS && forall s :: 0 <= s < NUM_SECTORS ==> !none[s]
      requires WellFormed(h0) && h0.numBytes == FREE_MAP_FILE_SIZE && TakenFrom(none[0 := true][1 := true], Blocks(h0))
      requires WellFormed(h1) && h1.numBytes == DIRECTORY_FILE_SIZE
      requires TakenFrom(MarkAll(none[0 := true][1 := true], Blocks(h0)), Blocks(h1))
      requires freeMap.Valid() && freeMap.numBits == NUM_SECTORS
      requires freeMap.marks == MarkAll(MarkAll(none[0 := true][1 := true], Blocks(h0)), Blocks(h1))
      requires directory.Valid() && directory.tableSize == NUM_DIR_ENTRIES
      requires forall i :: 0 <= i < NUM_DIR_ENTRIES ==> !InUse(directory.table[..], i)
      modifies disk
      ensures Valid() && Files(disk.image) == map[]
    {
      ReservedSectors(none, h0, h1);
      freeMap.WriteBack(freeMapFile);
      ghost var d := disk.image;
      directory.WriteBack(directoryFile);
      ContentsFrame(d, disk.image, h0);
      FormatOutcome(disk.image, none);
    }

    method FetchDirectory() returns (directory: Directory)
      requires Valid()
      ensures fresh(directory) && fresh(directory.table) && directory.Valid() && directory.tableSize == NUM_DIR_ENTRIES
      ensures directory.table[..] == Table(disk.image)
    {
      directory := new Directory(NUM_DIR_ENTRIES);
      directory.FetchFrom(directoryFile);
    }

    method FetchFreeMap() returns (freeMap: BitMap)
      requires Valid()
      ensures fresh(freeMap) && fresh(freeMap.map_) && freeMap.Valid() && freeMap.numBits == NUM_SECTORS
      ensures freeMap.marks == FreeMap(disk.image)
    {
      freeMap := new BitMap(NUM_SECTORS);
      freeMap.FetchFrom(freeMapFile);
    }

    /** The write-backs that end a successful Create. */
    method CommitCreate(hdr: FileHeader, sector: int, directory: Directory, freeMap: BitMap)
      requires Valid() && Storable(hdr.Value())
      requires directory.Valid() && directory.tableSize == NUM_DIR_ENTRIES
      requires freeMap.Valid() && freeMap.numBits == NUM_SECTORS
      requires 0 <= sector < NUM_SECTORS && !FreeMap(disk.image)[sector]
      modifies disk
      ensures SameBoot(old(disk.image), disk.image) && MetadataRewritten(old(disk.image), disk.image, sector)
      ensures HeaderAt(disk.image, sector) == hdr.Value()
      ensures Table(disk.image) == directory.table[..]
      ensures FreeMap(disk.image) == freeMap.marks
    {
      ghost var d := disk.image;
      MetadataApart(d);
      MetadataMarked(d, sector);
      hdr.WriteBack(disk, sector);
      directory.WriteBack(directoryFile);
      ghost var e := disk.image;
      freeMap.WriteBack(freeMapFile);
      ContentsFrame(e, disk.image, directoryFile.hdr);
      MetadataFrames(d, disk.image, sector);
    }

    /** The in-memory half of Create: find a header sector, a directory entry and data sectors. */
    method PlanCreate(name: seq<Byte>, initialSize: int)
      returns (ok: bool, ghost slot: int, sector: int, hdr: FileHeader, directory: Directory, freeMap: BitMap)
      requires Valid() && 0 <= initialSize <= MAX_FILE_SIZE
      ensures ok <==> && !Lists(Table(disk.image), NUM_DIR_ENTRIES, name)
                      && HasRoom(Table(disk.image), NUM_DIR_ENTRIES)
                      && CountClear(FreeMap(disk.image)) >= Cost(initialSize)
      ensures ok ==> fresh(hdr) && fresh(directory.table) && fresh(freeMap) && fresh(freeMap.map_)
      ensures ok ==>
                && directory.Valid() && directory.tableSize == NUM_DIR_ENTRIES
                && freeMap.Valid() && freeMap.numBits == NUM_SECTORS
      ensures ok ==> slot >= 0 && 0 <= sector < NUM_SECTORS && Storable(hdr.Value()) && hdr.numBytes == initialSize
      ensures ok ==> Planned(FreeMap(disk.image), Table(disk.image), name, slot, sector, hdr.Value(),
                directory.table[..], freeMap.marks)
    {
      ok, slot, sector := false, -1, -1;
      hdr := new FileHeader();
      freeMap := FetchFreeMap();
      directory := FetchDirectory();
      var found, _ := directory.Find(name);
      if found != -1 {
        return;
      }
      ok, slot, sector := Reserve(name, initialSize, hdr, directory, freeMap);
    }

    /** A header sector, then a directory entry, then data sectors. */
    static method Reserve(name: seq<Byte>, initialSize: int, hdr: FileHeader, directory: Directory, freeMap: BitMap)
      returns (ok: bool, ghost slot: int, sector: int)
      requires 0 <= initialSize <= MAX_FILE_SIZE && Storable(hdr.Value())
      requires directory.Valid() && directory.tableSize == NUM_DIR_ENTRIES && freeMap.Valid()
                && freeMap.numBits == NUM_SECTORS
      requires !Lists(directory.table[..], NUM_DIR_ENTRIES, name)
      modifies hdr, directory.table, freeMap`marks, freeMap.map_
      ensures directory.Valid() && freeMap.Valid()
      ensures ok <==>
                && HasRoom(old(directory.table[..]), NUM_DIR_ENTRIES)
                && CountClear(old(freeMap.marks)) >= Cost(initialSize)
      ensures ok ==> slot >= 0 && 0 <= sector < NUM_SECTORS && Storable(hdr.Value()) && hdr.numBytes == initialSize
      ensures ok ==> Planned(old(freeMap.marks), old(directory.table[..]), name, slot, sector, hdr.Value(),
                directory.table[..], freeMap.marks)
    {
      ok, slot := false, -1;
      sector := freeMap.Find();
      if sector == -1 {
        return;
      }
      CountAfterMark(old(freeMap.marks), sector);
      ok, slot := directory.Add(name, sector);
      if !ok {
        return;
      }
      ok := hdr.Allocate(freeMap, initialSize);
    }

    method Create(name: seq<Byte>, initialSize: int) returns (success: bool, ghost slot: int, ghost x: Extent)
      requires Valid() && 0 <= initialSize <= MAX_FILE_SIZE
      modifies disk
      ensures Valid()
      ensures success <==> Admits(old(Files(disk.image)), name, initialSize)
      ensures !success ==> disk.image == old(disk.image)
      ensures success ==> 0 <= slot < NUM_DIR_ENTRIES && Names(Table(disk.image), slot, name)
      ensures success ==> Sound(x) && x.Extent? && Size(x) == Cost(initialSize)
      ensures success ==> ExtentTaken(old(Layout(disk.image)), old(FreeMap(disk.image)), Layout(disk.image),
                FreeMap(disk.image), slot + 2, x)
      ensures success ==> OthersKept(old(Table(disk.image)), Table(disk.image), NUM_DIR_ENTRIES, slot)
      ensures success ==> |Contents(disk.image, x.hdr)| == initialSize
      ensures success ==>
                Files(disk.image) == old(Files(disk.image))[Key(name, FILE_NAME_MAX) := Contents(disk.image, x.hdr)]
    {
      ghost var d := disk.image;
      CreateCondition(d, name, initialSize);
      x := Unused;
      var sector, hdr, directory, freeMap;
      success, slot, sector, hdr, directory, freeMap := PlanCreate(name, initialSize);
      if success {
        ghost var h := hdr.Value();
        x := Extent(sector, h);
        CommitCreate(hdr, sector, directory, freeMap);
        CreateOutcome(d, disk.image, slot, sector, h, name);
        CreateTakes(d, disk.image, slot, sector, h, name, directory.table[..], freeMap.marks);
      }
    }

    /** The write-backs that end a successful Remove. */
    method CommitRemove(directory: Directory, freeMap: BitMap)
      requires Valid()
      requires directory.Valid() && directory.tableSize == NUM_DIR_ENTRIES
      requires freeMap.Valid() && freeMap.numBits == NUM_SECTORS
      modifies disk
      ensures SameBoot(old(disk.image), disk.image) && MetadataRewritten(old(disk.image), disk.image, -1)
      ensures Table(disk.image) == directory.table[..]
      ensures FreeMap(disk.image) == freeMap.marks
    {
      ghost var d := disk.image;
      MetadataApart(d);
      freeMap.WriteBack(freeMapFile);
      ghost var e := disk.image;
      directory.WriteBack(directoryFile);
      ContentsFrame(e, disk.image, freeMapFile.hdr);
      MetadataFrames(d, disk.image, -1);
    }

    /** The in-memory half of Remove: release the file's sectors and its directory entry. */
    method PlanRemove(name: seq<Byte>) returns (ok: bool, ghost slot: int, directory: Directory, freeMap: BitMap)
      requires Valid()
      ensures ok <==> Lists(Table(disk.image), NUM_DIR_ENTRIES, name)
      ensures ok ==> fresh(directory.table) && fresh(freeMap) && fresh(freeMap.map_)
      ensures ok ==>
                && directory.Valid() && directory.tableSize == NUM_DIR_ENTRIES
                && freeMap.Valid() && freeMap.numBits == NUM_SECTORS
      ensures ok ==> 0 <= slot < NUM_DIR_ENTRIES && Names(Table(disk.image), slot, name)
      ensures ok ==> Dropped(Table(disk.image), directory.table[..], NUM_DIR_ENTRIES, slot)
      ensures ok ==> var x := Layout(disk.image)[slot + 2];
                     && x.Extent? && Sound(x)
                     && freeMap.marks == ClearAll(FreeMap(disk.image), Blocks(x.hdr))[x.inode := false]
    {
      ok := false;
      freeMap := FetchFreeMap();
      directory := FetchDirectory();
      var sector, i := directory.Find(name);
      slot := i;
      if sector == -1 {
        return;
      }
      NamedExtent(disk.image, i, sector);
      Release(sector, i, freeMap);
      ghost var j;
      ok, j := directory.Remove(name);
      SameSlot(disk.image, i, j, name);
    }

    /** Give back the sectors of the file in entry `i`, header included. */
    method Release(sector: int, ghost i: nat, freeMap: BitMap)
      requires Valid() && i < NUM_DIR_ENTRIES && Layout(disk.image)[i + 2].Extent?
                && Layout(disk.image)[i + 2].inode == sector
      requires freeMap.Valid() && freeMap.numBits == NUM_SECTORS && freeMap.marks == FreeMap(disk.image)
      modifies freeMap`marks, freeMap.map_
      ensures freeMap.Valid()
      ensures var x := Layout(disk.image)[i + 2];
              Sound(x) && freeMap.marks == ClearAll(FreeMap(disk.image), Blocks(x.hdr))[sector := false]
    {
      OwnedAreMarked(disk.image, i + 2);
      var fileHdr := new FileHeader();
      fileHdr.FetchFrom(disk, sector);
      fileHdr.Deallocate(freeMap);
      freeMap.Clear(sector);
    }

    method Remove(name: seq<Byte>) returns (success: bool, ghost slot: int)
      requires Valid()
      modifies disk
      ensures Valid()
      ensures success <==> Key(name, FILE_NAME_MAX) in old(Files(disk.image))
      ensures !success ==> disk.image == old(disk.image)
      ensures success ==> Files(disk.image) == old(Files(disk.image)) - {Key(name, FILE_NAME_MAX)}
      ensures success ==> 0 <= slot < NUM_DIR_ENTRIES && Names(old(Table(disk.image)), slot, name)
      ensures success ==> Layout(disk.image) == old(Layout(disk.image))[slot + 2 := Unused]
      ensures success ==> OthersKept(old(Table(disk.image)), Table(disk.image), NUM_DIR_ENTRIES, slot)
    {
      ghost var d := disk.image;
      ListedNames(d, name);
      var directory, freeMap;
      success, slot, directory, freeMap := PlanRemove(name);
      if success {
        CommitRemove(directory, freeMap);
        RemoveOutcome(d, disk.image, slot);
      }
    }

    /** `file` was opened on directory entry `slot`, which has not been removed since. */
    ghost predicate OpenedOn(file: OpenFile, slot: int)
      requires Valid()
      reads this, disk
    {
      && file.disk == disk
      && 0 <= slot < NUM_DIR_ENTRIES
      && Layout(disk.image)[slot + 2].Extent?
      && file.hdr == Layout(disk.image)[slot + 2].hdr
      && WellFormed(file.hdr)
    }

    method Open(name: seq<Byte>) returns (file: OpenFile?, ghost slot: int)
      requires Valid()
      ensures file == null <==> Key(name, FILE_NAME_MAX) !in Files(disk.image)
      ensures file != null ==>
                fresh(file) && file.seekPosition == 0 && OpenedOn(file, slot) && Names(Table(disk.image), slot, name)
      ensures file != null ==> Contents(disk.image, file.hdr) == Files(disk.image)[Key(name, FILE_NAME_MAX)]
    {
      ListedNames(disk.image, name);
      var directory := FetchDirectory();
      var sector, i := directory.Find(name);
      slot := i;
      file := null;
      if sector >= 0 {
        NamedExtent(disk.image, i, sector);
        file := new OpenFile(disk, sector);
        assert Catalog(disk.image)[i] == Named(Key(name, FILE_NAME_MAX), Contents(disk.image, file.hdr));
      }
    }

    /** A user's sequential Write, seen from the file system. */
    method WriteNext(file: OpenFile, ghost slot: int, from: array<Byte>, numBytes: int) returns (k: int)
      requires Valid() && OpenedOn(file, slot)
      requires file.seekPosition >= 0 && file.seekPosition + numBytes < 0x8000_0000 && numBytes <= from.Length
      modifies disk, file
      ensures Valid() && OpenedOn(file, slot)
      ensures Table(disk.image) == old(Table(disk.image)) && Layout(disk.image) == old(Layout(disk.image))
      ensures k == Transferred(|old(Contents(disk.image, file.hdr))|, numBytes, old(file.seekPosition))
      ensures file.seekPosition == old(file.seekPosition) + k
      ensures Contents(disk.image, file.hdr)
              == Written(old(Contents(disk.image, file.hdr)), from[..], numBytes, old(file.seekPosition))
      ensures Files(disk.image)
              == old(Files(disk.image))[NameKey(Table(disk.image), slot) := Contents(disk.image, file.hdr)]
    {
      ghost var d := disk.image;
      k := file.Write(from, numBytes);
      WrittenContents(Contents(d, file.hdr), from[..], numBytes, old(file.seekPosition), k);
      WriteOutcome(d, disk.image, slot);
    }

    /** A user's WriteAt, seen from the file system: its own file is spliced, nothing else changes. */
    method WriteOpened(file: OpenFile, ghost slot: int, from: array<Byte>, numBytes: int, position: int)
                       returns (k: int)
      requires Valid() && OpenedOn(file, slot)
      requires position >= 0 && position + numBytes < 0x8000_0000 && numBytes <= from.Length
      modifies disk
      ensures Valid() && OpenedOn(file, slot)
      ensures Table(disk.image) == old(Table(disk.image)) && FreeMap(disk.image) == old(FreeMap(disk.image))
      ensures k == Transferred(|old(Contents(disk.image, file.hdr))|, numBytes, position)
      ensures Contents(disk.image, file.hdr)
                == Written(old(Contents(disk.image, file.hdr)), from[..], numBytes, position)
      ensures Files(disk.image)
                == old(Files(disk.image))[NameKey(Table(disk.image), slot) := Contents(disk.image, file.hdr)]
    {
      ghost var d := disk.image;
      k := file.WriteAt(from, numBytes, position);
      WrittenContents(Contents(d, file.hdr), from[..], numBytes, position, k);
      WriteOutcome(d, disk.image, slot);
    }
  }

  /** The visible bytes of a file after a write request. */
  function Written(c: seq<Byte>, data: seq<Byte>, numBytes: int, position: nat): (r: seq<Byte>)
    requires numBytes <= |data|
    ensures |r| == |c|
  {
    var k := Transferred(|c|, numBytes, position);
    if k == 0 then c else Splice(c, position, data[..k])
  }

  lemma WrittenContents(c: seq<Byte>, data: seq<Byte>, numBytes: int, position: nat, k: int)
    requires numBytes <= |data| && k == Transferred(|c|, numBytes, position)
    ensures k == 0 ==> Written(c, data, numBytes, position) == c
    ensures k > 0 ==> Written(c, data, numBytes, position) == Splice(c, position, data[..k])
  {
  }

  lemma NamedExtent(d: Image, i: nat, sector: int)
    requires Consistent(d) && i < NUM_DIR_ENTRIES && InUse(Table(d), i) && HeaderSector(Table(d), i) == sector
    ensures 0 <= sector < NUM_SECTORS
    ensures Layout(d)[i + 2] == Extent(sector, HeaderAt(d, sector)) && Sound(Layout(d)[i + 2])
  {
  }

  lemma OwnedAreMarked(d: Image, f: nat)
    requires Consistent(d) && f < NUM_DIR_ENTRIES + 2 && Layout(d)[f].Extent?
    ensures Sound(Layout(d)[f])
    ensures forall s :: s in Blocks(Layout(d)[f].hdr) ==> FreeMap(d)[s]
  {
    var l := Layout(d);
    forall s | s in Blocks(l[f].hdr)
      ensures FreeMap(d)[s]
    {
      assert Owns(l[f], s);
      assert Owned(l, s);
    }
  }

  lemma SameSlot(d: Image, i: nat, j: nat, name: seq<Byte>)
    requires Consistent(d) && i < NUM_DIR_ENTRIES && j < NUM_DIR_ENTRIES
    requires Names(Table(d), i, name) && Names(Table(d), j, name)
    ensures i == j
  {
    SlotNames(d, i);
    SlotNames(d, j);
  }

  /** What Create decides before it touches the disk. */
  ghost predicate Planned(m: seq<bool>, t: seq<Byte>, name: seq<Byte>, slot: nat, sector: int, h: Header,
                          u: seq<Byte>, m': seq<bool>) {
    && |m| == NUM_SECTORS
    && 0 <= sector < NUM_SECTORS && !m[sector]
    && WellFormed(h) && TakenFrom(m[sector := true], Blocks(h))
    && m' == MarkAll(m[sector := true], Blocks(h))
    && IsTable(t, NUM_DIR_ENTRIES) && !Lists(t, NUM_DIR_ENTRIES, name)
    && Added(t, u, NUM_DIR_ENTRIES, slot, name, sector)
  }

  /** An unused slot got the extent `x`: exactly its sectors went from clear to marked. */
  ghost predicate ExtentTaken(l: seq<Extent>, m: seq<bool>, l': seq<Extent>, m': seq<bool>, f: nat, x: Extent)
    requires |m| == |m'| == NUM_SECTORS && Sound(x)
  {
    && f < |l| && l[f].Unused? && l' == l[f := x]
    && (forall s :: 0 <= s < NUM_SECTORS && Owns(x, s) ==> !m[s])
    && (forall s :: 0 <= s < NUM_SECTORS ==> (m'[s] <==> m[s] || Owns(x, s)))
  }

  lemma CreateCondition(d: Image, name: seq<Byte>, size: nat)
    requires Consistent(d)
    ensures Admits(Files(d), name, size) <==>
            (&& !Lists(Table(d), NUM_DIR_ENTRIES, name)
             && HasRoom(Table(d), NUM_DIR_ENTRIES)
             && CountClear(FreeMap(d)) >= Cost(size))
  {
    ListedNames(d, name);
    SpaceLeft(d);
    RoomLeft(d);
  }

  lemma CreateTakes(d: Image, e: Image, i: nat, sector: int, h: Header, name: seq<Byte>, u: seq<Byte>, m': seq<bool>)
    requires Bootable(d) && Bootable(e) && SectorsInRange(Table(d)) && AllSound(Layout(d))
    requires Planned(FreeMap(d), Table(d), name, i, sector, h, u, m')
    requires FreeMap(e) == m' && Layout(e) == Layout(d)[i + 2 := Extent(sector, h)]
    ensures Sound(Extent(sector, h))
    ensures ExtentTaken(Layout(d), FreeMap(d), Layout(e), FreeMap(e), i + 2, Extent(sector, h))
  {
    SlotNames(d, i);
    assert sector !in Blocks(h);
  }

  lemma MetadataApart(d: Image)
    requires Consistent(d)
    ensures forall s :: s in Blocks(HeaderAt(d, FREE_MAP_SECTOR)) ==> s !in Blocks(HeaderAt(d, DIRECTORY_SECTOR))
  {
    var l := Layout(d);
    forall s | s in Blocks(HeaderAt(d, FREE_MAP_SECTOR))
      ensures s !in Blocks(HeaderAt(d, DIRECTORY_SECTOR))
    {
      assert Owns(l[0], s);
      assert Owns(l[1], s) <==> s == 1 || s in Blocks(HeaderAt(d, DIRECTORY_SECTOR));
    }
  }

  lemma MetadataMarked(d: Image, sector: int)
    requires Consistent(d) && 0 <= sector < NUM_SECTORS && !FreeMap(d)[sector]
    ensures sector !in Blocks(HeaderAt(d, FREE_MAP_SECTOR)) && sector !in Blocks(HeaderAt(d, DIRECTORY_SECTOR))
  {
    var l := Layout(d);
    assert Owns(l[0], sector) <==> sector == 0 || sector in Blocks(HeaderAt(d, FREE_MAP_SECTOR));
    assert Owns(l[1], sector) <==> sector == 1 || sector in Blocks(HeaderAt(d, DIRECTORY_SECTOR));
    assert !Owned(l, sector);
  }

  /** Neither metadata file got a well-known sector or a sector of the other. */
  lemma ReservedSectors(none: seq<bool>, h0: Header, h1: Header)
    requires |none| == NUM_SECTORS && WellFormed(h0) && WellFormed(h1)
    requires TakenFrom(none[0 := true][1 := true], Blocks(h0))
    requires TakenFrom(MarkAll(none[0 := true][1 := true], Blocks(h0)), Blocks(h1))
    ensures 0 !in Blocks(h0) && 1 !in Blocks(h0) && 0 !in Blocks(h1) && 1 !in Blocks(h1)
    ensures forall s :: s in Blocks(h0) ==> s !in Blocks(h1)
  {
  }
}
