/** What a disk image means as a file system.  Everything here is decoded from the image: the
    free map and the directory are themselves files on it, with their headers in sectors 0 and 1. */
module FileSystemImage {
  import opened LittleEndian
  import opened DiskImage
  import opened FileHeaders
  import opened FileHeaderObjects
  import opened BitMaps
  import opened Directories

  const FREE_MAP_SECTOR := 0
  const DIRECTORY_SECTOR := 1
  const NUM_DIR_ENTRIES := 10
  const FREE_MAP_FILE_SIZE := NUM_SECTORS / 8
  const DIRECTORY_FILE_SIZE := ENTRY_SIZE * NUM_DIR_ENTRIES

  function HeaderAt(d: Image, s: int): (h: Header)
    requires 0 <= s < NUM_SECTORS
  {
    DecodeHeader(d[s])
  }

  /** The two well-known headers are in place. */
  ghost predicate Bootable(d: Image) {
    && WellFormed(HeaderAt(d, FREE_MAP_SECTOR)) && HeaderAt(d, FREE_MAP_SECTOR).numBytes == FREE_MAP_FILE_SIZE
    && WellFormed(HeaderAt(d, DIRECTORY_SECTOR)) && HeaderAt(d, DIRECTORY_SECTOR).numBytes == DIRECTORY_FILE_SIZE
  }

  ghost function Table(d: Image): (t: seq<Byte>)
    requires Bootable(d)
    ensures IsTable(t, NUM_DIR_ENTRIES)
  {
    Contents(d, HeaderAt(d, DIRECTORY_SECTOR))
  }

  ghost function FreeMap(d: Image): (m: seq<bool>)
    requires Bootable(d)
    ensures |m| == NUM_SECTORS
  {
    Marks(BytesToWords(Contents(d, HeaderAt(d, FREE_MAP_SECTOR))), NUM_SECTORS)
  }

  // Who owns which sector

  datatype Extent = Unused | Extent(inode: int, hdr: Header)

  ghost predicate Sound(x: Extent) {
    x.Extent? ==> 0 <= x.inode < NUM_SECTORS && WellFormed(x.hdr) && x.inode !in Blocks(x.hdr)
  }

  ghost predicate Owns(x: Extent, s: int)
    requires Sound(x)
  {
    x.Extent? && (s == x.inode || s in Blocks(x.hdr))
  }

  ghost predicate AllSound(l: seq<Extent>) {
    forall f :: 0 <= f < |l| ==> Sound(l[f])
  }

  ghost predicate Disjoint(l: seq<Extent>)
    requires AllSound(l)
  {
    forall f, g, s :: 0 <= f < |l| && 0 <= g < |l| && Owns(l[f], s) && Owns(l[g], s) ==> f == g
  }

  ghost predicate Owned(l: seq<Extent>, s: int)
    requires AllSound(l)
  {
    exists f :: 0 <= f < |l| && Owns(l[f], s)
  }

  /** Sectors are marked exactly when some file owns them, and no sector has two owners. */
  ghost predicate Accounted(l: seq<Extent>, m: seq<bool>) {
    && |m| == NUM_SECTORS
    && AllSound(l)
    && Disjoint(l)
    && forall s :: 0 <= s < NUM_SECTORS ==> (m[s] <==> Owned(l, s))
  }

  /** Giving clear sectors to an unused slot keeps the account. */
  lemma ExtentAdded(l: seq<Extent>, m: seq<bool>, f: nat, x: Extent)
    requires Accounted(l, m) && f < |l| && l[f].Unused?
    requires x.Extent? && Sound(x) && !m[x.inode]
    requires forall s :: s in Blocks(x.hdr) ==> !m[s]
    ensures Accounted(l[f := x], MarkAll(m[x.inode := true], Blocks(x.hdr)))
  {
    var l', m' := l[f := x], MarkAll(m[x.inode := true], Blocks(x.hdr));
    forall g, s | 0 <= g < |l| && Owns(l[g], s)
      ensures !Owns(x, s) && Owns(l'[g], s)
    {
      assert 0 <= s < NUM_SECTORS && Owned(l, s);
    }
    forall s | 0 <= s < NUM_SECTORS
      ensures m'[s] <==> Owned(l', s)
    {
      assert Owns(l'[f], s) <==> Owns(x, s);
    }
  }

  /** Clearing the marks of one file and dropping it keeps the account. */
  lemma ExtentDropped(l: seq<Extent>, m: seq<bool>, f: nat)
    requires Accounted(l, m) && f < |l| && l[f].Extent?
    ensures Accounted(l[f := Unused], ClearAll(m, Blocks(l[f].hdr))[l[f].inode := false])
  {
    var x := l[f];
    var l', m' := l[f := Unused], ClearAll(m, Blocks(x.hdr))[x.inode := false];
    forall s | 0 <= s < NUM_SECTORS
      ensures m'[s] <==> Owned(l', s)
    {
      if m'[s] {
        var g :| 0 <= g < |l| && Owns(l[g], s);
        assert Owns(l'[g], s);
      }
      if Owned(l', s) {
        var g :| 0 <= g < |l| && Owns(l'[g], s);
        assert Owns(l[g], s);
      }
    }
  }

  /** File 0 is the free map, file 1 the directory, and file i + 2 is directory entry i. */
  ghost function ExtentOf(d: Image, f: nat): (x: Extent)
    requires Bootable(d) && f < NUM_DIR_ENTRIES + 2
  {
    if f < 2 then Extent(f, HeaderAt(d, f))
    else if InUse(Table(d), f - 2) && 0 <= HeaderSector(Table(d), f - 2) < NUM_SECTORS
    then Extent(HeaderSector(Table(d), f - 2), HeaderAt(d, HeaderSector(Table(d), f - 2)))
    else Unused
  }

  ghost function Layout(d: Image): (l: seq<Extent>)
    requires Bootable(d)
    ensures |l| == NUM_DIR_ENTRIES + 2
  {
    seq(NUM_DIR_ENTRIES + 2, f requires 0 <= f < NUM_DIR_ENTRIES + 2 => ExtentOf(d, f))
  }

  ghost predicate SectorsInRange(t: seq<Byte>)
    requires IsTable(t, NUM_DIR_ENTRIES)
  {
    forall i :: 0 <= i < NUM_DIR_ENTRIES && InUse(t, i) ==> 0 <= HeaderSector(t, i) < NUM_SECTORS
  }

  /** The invariant of the file system, all of it about the image. */
  ghost predicate Consistent(d: Image) {
    && Bootable(d)
    && SectorsInRange(Table(d))
    && Accounted(Layout(d), FreeMap(d))
    && UniqueKeys(Catalog(d))
  }

  // The abstract file system: a map from names to byte strings

  datatype Slot = Vacant | Named(key: seq<Byte>, bytes: seq<Byte>)

  ghost predicate UniqueKeys(c: seq<Slot>) {
    forall i, j :: 0 <= i < |c| && 0 <= j < |c| && c[i].Named? && c[j].Named? && c[i].key == c[j].key ==> i == j
  }

  ghost function MapOf(c: seq<Slot>): (m: map<seq<Byte>, seq<Byte>>)
    requires UniqueKeys(c)
  {
    map i | 0 <= i < |c| && c[i].Named? :: c[i].key := c[i].bytes
  }

  lemma MapPut(c: seq<Slot>, i: nat, k: seq<Byte>, v: seq<Byte>)
    requires UniqueKeys(c) && i < |c| && UniqueKeys(c[i := Named(k, v)])
    requires c[i].Named? ==> c[i].key == k
    ensures MapOf(c[i := Named(k, v)]) == MapOf(c)[k := v]
  {
    var e := c[i := Named(k, v)];
    assert forall j :: 0 <= j < |c| && j != i ==> e[j] == c[j];
    assert e[i].key == k;
  }

  lemma MapDrop(c: seq<Slot>, i: nat)
    requires UniqueKeys(c) && i < |c| && c[i].Named?
    ensures UniqueKeys(c[i := Vacant]) && MapOf(c[i := Vacant]) == MapOf(c) - {c[i].key}
  {
    var e := c[i := Vacant];
    assert forall j :: 0 <= j < |c| && j != i ==> e[j] == c[j];
  }

  ghost function SlotOf(d: Image, i: nat): (v: Slot)
    requires Bootable(d) && AllSound(Layout(d)) && i < NUM_DIR_ENTRIES
  {
    var x := Layout(d)[i + 2];
    if x.Extent? then Named(NameKey(Table(d), i), Contents(d, x.hdr)) else Vacant
  }

  ghost function Catalog(d: Image): (c: seq<Slot>)
    requires Bootable(d) && AllSound(Layout(d))
    ensures |c| == NUM_DIR_ENTRIES
  {
    seq(NUM_DIR_ENTRIES, i requires 0 <= i < NUM_DIR_ENTRIES => SlotOf(d, i))
  }

  /** The file system as its users see it. */
  ghost function Files(d: Image): (m: map<seq<Byte>, seq<Byte>>)
    requires Consistent(d)
  {
    MapOf(Catalog(d))
  }

  // Rewriting the metadata

  /** `e` differs from `d` only in the free map's data, the directory's data and, maybe, one sector that was clear. */
  ghost predicate MetadataRewritten(d: Image, e: Image, fresh_: int)
    requires Bootable(d)
  {
    forall s ::
      (&& 0 <= s < NUM_SECTORS && s != fresh_
       && s !in Blocks(HeaderAt(d, FREE_MAP_SECTOR)) && s !in Blocks(HeaderAt(d, DIRECTORY_SECTOR))) ==> e[s] == d[s]
  }

  /** Every header, and every user file's data, survives a metadata rewrite. */
  lemma MetadataFrame(d: Image, e: Image, fresh_: int, f: nat)
    requires Consistent(d) && MetadataRewritten(d, e, fresh_)
    requires 0 <= fresh_ < NUM_SECTORS ==> !FreeMap(d)[fresh_]
    requires f < NUM_DIR_ENTRIES + 2 && Layout(d)[f].Extent?
    ensures var x := Layout(d)[f];
            && e[x.inode] == d[x.inode]
            && (f >= 2 ==> Contents(e, x.hdr) == Contents(d, x.hdr))
  {
    var l := Layout(d);
    var x := l[f];
    forall s | 0 <= s < NUM_SECTORS && Owns(x, s) && (s == x.inode || f >= 2)
      ensures e[s] == d[s]
    {
      assert Owned(l, s);
      assert s in Blocks(HeaderAt(d, 0)) ==> Owns(l[0], s);
      assert s in Blocks(HeaderAt(d, 1)) ==> Owns(l[1], s);
    }
    if f >= 2 {
      forall s | s in Blocks(x.hdr)
        ensures e[s] == d[s]
      {
        assert Owns(x, s);
      }
      ContentsFrame(d, e, x.hdr);
    }
  }

  ghost predicate SameBoot(d: Image, e: Image) {
    && Bootable(d) && Bootable(e)
    && HeaderAt(e, FREE_MAP_SECTOR) == HeaderAt(d, FREE_MAP_SECTOR)
    && HeaderAt(e, DIRECTORY_SECTOR) == HeaderAt(d, DIRECTORY_SECTOR)
  }

  ghost predicate HeadersKept(d: Image, e: Image)
    requires Bootable(d) && AllSound(Layout(d))
  {
    forall f :: 0 <= f < NUM_DIR_ENTRIES + 2 && Layout(d)[f].Extent? ==> e[Layout(d)[f].inode] == d[Layout(d)[f].inode]
  }

  ghost predicate UserDataKept(d: Image, e: Image, except: int)
    requires Bootable(d) && AllSound(Layout(d))
  {
    forall f :: 2 <= f < NUM_DIR_ENTRIES + 2 && f != except && Layout(d)[f].Extent? ==>
      Contents(e, Layout(d)[f].hdr) == Contents(d, Layout(d)[f].hdr)
  }

  lemma MetadataFrames(d: Image, e: Image, fresh_: int)
    requires Consistent(d) && MetadataRewritten(d, e, fresh_)
    requires 0 <= fresh_ < NUM_SECTORS ==> !FreeMap(d)[fresh_]
    ensures SameBoot(d, e) && HeadersKept(d, e) && UserDataKept(d, e, -1)
  {
    MetadataFrame(d, e, fresh_, 0);
    MetadataFrame(d, e, fresh_, 1);
    forall f | 0 <= f < NUM_DIR_ENTRIES + 2 && Layout(d)[f].Extent?
      ensures e[Layout(d)[f].inode] == d[Layout(d)[f].inode]
      ensures f >= 2 ==> Contents(e, Layout(d)[f].hdr) == Contents(d, Layout(d)[f].hdr)
    {
      MetadataFrame(d, e, fresh_, f);
    }
  }

  /** A file whose directory entry and header were not touched keeps its place. */
  lemma ExtentKept(d: Image, e: Image, f: nat)
    requires SameBoot(d, e) && AllSound(Layout(d)) && HeadersKept(d, e)
    requires f < NUM_DIR_ENTRIES + 2
    requires f >= 2 ==> Entry(Table(e), f - 2) == Entry(Table(d), f - 2)
    ensures ExtentOf(e, f) == ExtentOf(d, f)
  {
    assert Layout(d)[f] == ExtentOf(d, f);
  }

  lemma SlotKept(d: Image, e: Image, except: int, j: nat)
    requires SameBoot(d, e) && AllSound(Layout(d)) && AllSound(Layout(e)) && UserDataKept(d, e, except)
    requires j < NUM_DIR_ENTRIES && j + 2 != except && Layout(e)[j + 2] == Layout(d)[j + 2]
    requires Entry(Table(e), j) == Entry(Table(d), j)
    ensures SlotOf(e, j) == SlotOf(d, j)
  {
  }

  // Create

  lemma SectorsAfterAdd(t: seq<Byte>, u: seq<Byte>, i: nat, name: seq<Byte>, sector: int)
    requires IsTable(t, NUM_DIR_ENTRIES) && SectorsInRange(t)
    requires Added(t, u, NUM_DIR_ENTRIES, i, name, sector) && 0 <= sector < NUM_SECTORS
    ensures SectorsInRange(u)
  {
    forall j | 0 <= j < NUM_DIR_ENTRIES && j != i
      ensures InUse(u, j) == InUse(t, j) && HeaderSector(u, j) == HeaderSector(t, j)
    {
      assert Entry(u, j) == Entry(t, j);
    }
  }

  lemma LayoutAfterAdd(d: Image, e: Image, i: nat, sector: int, h: Header, name: seq<Byte>)
    requires SameBoot(d, e) && AllSound(Layout(d)) && HeadersKept(d, e)
    requires 0 <= sector < NUM_SECTORS && HeaderAt(e, sector) == h
    requires Added(Table(d), Table(e), NUM_DIR_ENTRIES, i, name, sector)
    ensures Layout(e) == Layout(d)[i + 2 := Extent(sector, h)]
  {
    forall f | 0 <= f < NUM_DIR_ENTRIES + 2 && f != i + 2
      ensures ExtentOf(e, f) == ExtentOf(d, f)
    {
      ExtentKept(d, e, f);
    }
  }

  lemma CatalogAfterAdd(d: Image, e: Image, i: nat, sector: int, h: Header, name: seq<Byte>)
    requires SameBoot(d, e) && AllSound(Layout(d)) && UserDataKept(d, e, -1)
    requires Added(Table(d), Table(e), NUM_DIR_ENTRIES, i, name, sector)
    requires WellFormed(h) && AllSound(Layout(e)) && Layout(e) == Layout(d)[i + 2 := Extent(sector, h)]
    ensures Catalog(e) == Catalog(d)[i := Named(Key(name, FILE_NAME_MAX), Contents(e, h))]
  {
    forall j | 0 <= j < NUM_DIR_ENTRIES && j != i
      ensures SlotOf(e, j) == SlotOf(d, j)
    {
      SlotKept(d, e, -1, j);
    }
    assert Layout(e)[i + 2] == Extent(sector, h);
  }

  /** A name the directory does not list is a name the abstract map lacks. */
  lemma ListedNames(d: Image, name: seq<Byte>)
    requires Consistent(d)
    ensures Lists(Table(d), NUM_DIR_ENTRIES, name) <==> Key(name, FILE_NAME_MAX) in Files(d)
  {
    var k := Key(name, FILE_NAME_MAX);
    forall i | 0 <= i < NUM_DIR_ENTRIES
      ensures Names(Table(d), i, name) <==> Catalog(d)[i].Named? && Catalog(d)[i].key == k
    {
      SlotNames(d, i);
    }
  }

  lemma SlotNames(d: Image, i: nat)
    requires Bootable(d) && SectorsInRange(Table(d)) && AllSound(Layout(d)) && i < NUM_DIR_ENTRIES
    ensures InUse(Table(d), i) <==> Catalog(d)[i].Named?
    ensures InUse(Table(d), i) ==> Catalog(d)[i].key == NameKey(Table(d), i)
  {
  }

  lemma AddedKeyIsNew(c: seq<Slot>, i: nat, k: seq<Byte>, v: seq<Byte>)
    requires UniqueKeys(c) && i < |c| && c[i].Vacant? && k !in MapOf(c)
    ensures UniqueKeys(c[i := Named(k, v)])
  {
    forall j | 0 <= j < |c| && c[j].Named?
      ensures c[j].key != k
    {
      assert c[j].key in MapOf(c);
    }
  }

  /** The outcome of a successful Create. */
  lemma CreateOutcome(d: Image, e: Image, i: nat, sector: int, h: Header, name: seq<Byte>)
    requires Consistent(d) && MetadataRewritten(d, e, sector)
    requires 0 <= sector < NUM_SECTORS && !FreeMap(d)[sector]
    requires WellFormed(h) && TakenFrom(FreeMap(d)[sector := true], Blocks(h))
    requires HeaderAt(e, sector) == h
    requires !Lists(Table(d), NUM_DIR_ENTRIES, name)
    requires SameBoot(d, e)
    requires Added(Table(d), Table(e), NUM_DIR_ENTRIES, i, name, sector)
    requires FreeMap(e) == MarkAll(FreeMap(d)[sector := true], Blocks(h))
    ensures Consistent(e)
    ensures Layout(e) == Layout(d)[i + 2 := Extent(sector, h)]
    ensures Files(e) == Files(d)[Key(name, FILE_NAME_MAX) := Contents(e, h)]
  {
    MetadataFrames(d, e, sector);
    SectorsAfterAdd(Table(d), Table(e), i, name, sector);
    LayoutAfterAdd(d, e, i, sector, h, name);
    SlotNames(d, i);
    assert Layout(d)[i + 2].Unused?;
    AccountAfterAdd(Layout(d), FreeMap(d), i + 2, sector, h);
    CatalogAfterAdd(d, e, i, sector, h, name);
    ListedNames(d, name);
    AddedKeyIsNew(Catalog(d), i, Key(name, FILE_NAME_MAX), Contents(e, h));
    MapPut(Catalog(d), i, Key(name, FILE_NAME_MAX), Contents(e, h));
  }

  lemma AccountAfterAdd(l: seq<Extent>, m: seq<bool>, f: nat, sector: int, h: Header)
    requires Accounted(l, m) && f < |l| && l[f].Unused?
    requires 0 <= sector < NUM_SECTORS && !m[sector]
    requires WellFormed(h) && TakenFrom(m[sector := true], Blocks(h))
    ensures Accounted(l[f := Extent(sector, h)], MarkAll(m[sector := true], Blocks(h)))
  {
    assert forall s :: s in Blocks(h) ==> !m[sector := true][s];
    assert sector !in Blocks(h);
    ExtentAdded(l, m, f, Extent(sector, h));
  }

  // Remove

  lemma LayoutAfterDrop(d: Image, e: Image, i: nat)
    requires SameBoot(d, e) && AllSound(Layout(d)) && HeadersKept(d, e)
    requires Dropped(Table(d), Table(e), NUM_DIR_ENTRIES, i)
    ensures Layout(e) == Layout(d)[i + 2 := Unused]
  {
    forall f | 0 <= f < NUM_DIR_ENTRIES + 2 && f != i + 2
      ensures ExtentOf(e, f) == ExtentOf(d, f)
    {
      ExtentKept(d, e, f);
    }
  }

  lemma SectorsAfterDrop(t: seq<Byte>, u: seq<Byte>, i: nat)
    requires IsTable(t, NUM_DIR_ENTRIES) && SectorsInRange(t)
    requires Dropped(t, u, NUM_DIR_ENTRIES, i)
    ensures SectorsInRange(u)
  {
    forall j | 0 <= j < NUM_DIR_ENTRIES && InUse(u, j)
      ensures InUse(t, j) && HeaderSector(u, j) == HeaderSector(t, j)
    {
      assert Entry(u, j) == Entry(t, j);
    }
  }

  lemma CatalogAfterDrop(d: Image, e: Image, i: nat)
    requires SameBoot(d, e) && AllSound(Layout(d)) && UserDataKept(d, e, -1)
    requires Dropped(Table(d), Table(e), NUM_DIR_ENTRIES, i)
    requires AllSound(Layout(e)) && Layout(e) == Layout(d)[i + 2 := Unused]
    ensures Catalog(e) == Catalog(d)[i := Vacant]
  {
    forall j | 0 <= j < NUM_DIR_ENTRIES && j != i
      ensures SlotOf(e, j) == SlotOf(d, j)
    {
      SlotKept(d, e, -1, j);
    }
  }

  /** The outcome of a successful Remove. */
  lemma RemoveOutcome(d: Image, e: Image, i: nat)
    requires Consistent(d) && MetadataRewritten(d, e, -1) && SameBoot(d, e)
    requires i < NUM_DIR_ENTRIES && Layout(d)[i + 2].Extent? && Sound(Layout(d)[i + 2])
    requires Dropped(Table(d), Table(e), NUM_DIR_ENTRIES, i)
    requires FreeMap(e) == ClearAll(FreeMap(d), Blocks(Layout(d)[i + 2].hdr))[Layout(d)[i + 2].inode := false]
    ensures Consistent(e)
    ensures Layout(e) == Layout(d)[i + 2 := Unused]
    ensures Files(e) == Files(d) - {NameKey(Table(d), i)}
  {
    MetadataFrames(d, e, -1);
    SectorsAfterDrop(Table(d), Table(e), i);
    LayoutAfterDrop(d, e, i);
    ExtentDropped(Layout(d), FreeMap(d), i + 2);
    CatalogAfterDrop(d, e, i);
    MapDrop(Catalog(d), i);
  }

  // WriteAt on a user file

  /** Writing inside file `g` leaves every other file, and every header, alone. */
  lemma WriteFrame(l: seq<Extent>, m: seq<bool>, d: Image, e: Image, g: nat, f: nat)
    requires Accounted(l, m) && g < |l| && f < |l| && l[g].Extent? && l[f].Extent?
    requires forall s :: 0 <= s < NUM_SECTORS && s !in Blocks(l[g].hdr) ==> e[s] == d[s]
    ensures e[l[f].inode] == d[l[f].inode]
    ensures f != g ==> Contents(e, l[f].hdr) == Contents(d, l[f].hdr)
  {
    forall s | Owns(l[f], s) && (f != g || s == l[f].inode)
      ensures 0 <= s < NUM_SECTORS && e[s] == d[s]
    {
      assert Owns(l[g], s) <==> s == l[g].inode || s in Blocks(l[g].hdr);
    }
    assert Owns(l[f], l[f].inode);
    if f != g {
      forall s | s in Blocks(l[f].hdr)
        ensures e[s] == d[s]
      {
        assert Owns(l[f], s);
      }
      ContentsFrame(d, e, l[f].hdr);
    }
  }

  lemma WriteFrames(d: Image, e: Image, i: nat)
    requires Consistent(d) && i < NUM_DIR_ENTRIES && Layout(d)[i + 2].Extent? && Sound(Layout(d)[i + 2])
    requires forall s :: 0 <= s < NUM_SECTORS && s !in Blocks(Layout(d)[i + 2].hdr) ==> e[s] == d[s]
    ensures SameBoot(d, e) && HeadersKept(d, e) && UserDataKept(d, e, i + 2)
    ensures Table(e) == Table(d) && FreeMap(e) == FreeMap(d)
  {
    var l := Layout(d);
    assert l[0] == Extent(0, HeaderAt(d, 0)) && l[1] == Extent(1, HeaderAt(d, 1));
    forall f | 0 <= f < |l| && l[f].Extent?
      ensures e[l[f].inode] == d[l[f].inode]
      ensures f != i + 2 ==> Contents(e, l[f].hdr) == Contents(d, l[f].hdr)
    {
      WriteFrame(l, FreeMap(d), d, e, i + 2, f);
    }
  }

  lemma LayoutAfterWrite(d: Image, e: Image)
    requires SameBoot(d, e) && AllSound(Layout(d)) && HeadersKept(d, e) && Table(e) == Table(d)
    ensures Layout(e) == Layout(d)
  {
    forall f | 0 <= f < NUM_DIR_ENTRIES + 2
      ensures ExtentOf(e, f) == ExtentOf(d, f)
    {
      ExtentKept(d, e, f);
    }
  }

  lemma CatalogAfterWrite(d: Image, e: Image, i: nat)
    requires SameBoot(d, e) && AllSound(Layout(d)) && UserDataKept(d, e, i + 2)
    requires Table(e) == Table(d) && Layout(e) == Layout(d)
    requires i < NUM_DIR_ENTRIES && Layout(d)[i + 2].Extent?
    ensures Catalog(e) == Catalog(d)[i := Named(NameKey(Table(d), i), Contents(e, Layout(d)[i + 2].hdr))]
  {
    forall j | 0 <= j < NUM_DIR_ENTRIES && j != i
      ensures SlotOf(e, j) == SlotOf(d, j)
    {
      SlotKept(d, e, i + 2, j);
    }
  }

  /** The outcome of writing inside one user file: the metadata and every other file stay. */
  lemma WriteOutcome(d: Image, e: Image, i: nat)
    requires Consistent(d) && i < NUM_DIR_ENTRIES && Layout(d)[i + 2].Extent? && Sound(Layout(d)[i + 2])
    requires forall s :: 0 <= s < NUM_SECTORS && s !in Blocks(Layout(d)[i + 2].hdr) ==> e[s] == d[s]
    ensures Consistent(e)
    ensures SameBoot(d, e)
    ensures Layout(e) == Layout(d) && FreeMap(e) == FreeMap(d) && Table(e) == Table(d)
    ensures Files(e) == Files(d)[NameKey(Table(d), i) := Contents(e, Layout(d)[i + 2].hdr)]
  {
    WriteFrames(d, e, i);
    LayoutAfterWrite(d, e);
    CatalogAfterWrite(d, e, i);
    SlotNames(d, i);
    MapPut(Catalog(d), i, NameKey(Table(d), i), Contents(e, Layout(d)[i + 2].hdr));
  }

  // Format

  lemma FormatAccount(m: seq<bool>, h0: Header, h1: Header)
    requires |m| == NUM_SECTORS && forall s :: 0 <= s < NUM_SECTORS ==> !m[s]
    requires WellFormed(h0) && TakenFrom(m[0 := true][1 := true], Blocks(h0))
    requires WellFormed(h1) && TakenFrom(MarkAll(m[0 := true][1 := true], Blocks(h0)), Blocks(h1))
    ensures Accounted([Extent(0, h0), Extent(1, h1)] + seq(NUM_DIR_ENTRIES, _ => Unused),
                      MarkAll(MarkAll(m[0 := true][1 := true], Blocks(h0)), Blocks(h1)))
  {
    var l0 := seq(NUM_DIR_ENTRIES + 2, _ => Unused);
    var m0 := m[0 := true][1 := true];
    assert forall s :: s in Blocks(h0) ==> !m0[s];
    assert forall s :: s in Blocks(h1) ==> !MarkAll(m0, Blocks(h0))[s];
    ExtentAdded(l0, m, 0, Extent(0, h0));
    var l1, m1 := l0[0 := Extent(0, h0)], MarkAll(m[0 := true], Blocks(h0));
    ExtentAdded(l1, m1, 1, Extent(1, h1));
    assert MarkAll(m1[1 := true], Blocks(h1)) == MarkAll(MarkAll(m0, Blocks(h0)), Blocks(h1));
    assert l1[1 := Extent(1, h1)] == [Extent(0, h0), Extent(1, h1)] + seq(NUM_DIR_ENTRIES, _ => Unused);
  }

  /** A freshly formatted disk is an empty file system. */
  lemma FormatOutcome(e: Image, m: seq<bool>)
    requires Bootable(e)
    requires |m| == NUM_SECTORS && forall s :: 0 <= s < NUM_SECTORS ==> !m[s]
    requires var h0, h1 := HeaderAt(e, FREE_MAP_SECTOR), HeaderAt(e, DIRECTORY_SECTOR);
             && TakenFrom(m[0 := true][1 := true], Blocks(h0))
             && TakenFrom(MarkAll(m[0 := true][1 := true], Blocks(h0)), Blocks(h1))
             && FreeMap(e) == MarkAll(MarkAll(m[0 := true][1 := true], Blocks(h0)), Blocks(h1))
    requires forall i :: 0 <= i < NUM_DIR_ENTRIES ==> !InUse(Table(e), i)
    ensures Consistent(e) && Files(e) == map[]
  {
    var h0, h1 := HeaderAt(e, FREE_MAP_SECTOR), HeaderAt(e, DIRECTORY_SECTOR);
    FormatAccount(m, h0, h1);
    assert Layout(e) == [Extent(0, h0), Extent(1, h1)] + seq(NUM_DIR_ENTRIES, _ => Unused);
    assert forall i :: 0 <= i < NUM_DIR_ENTRIES ==> Catalog(e)[i].Vacant?;
  }

  // Conservation of sectors

  ghost function Size(x: Extent): (n: nat)
    requires Sound(x)
  {
    if x.Extent? then 1 + x.hdr.numSectors else 0
  }

  ghost function TotalSize(l: seq<Extent>): (n: nat)
    requires AllSound(l)
  {
    if l == [] then 0 else Size(l[0]) + TotalSize(l[1..])
  }

  lemma {:induction false} TotalAfterDrop(l: seq<Extent>, f: nat)
    requires AllSound(l) && f < |l|
    ensures AllSound(l[f := Unused])
    ensures TotalSize(l[f := Unused]) == TotalSize(l) - Size(l[f])
  {
    if f > 0 {
      assert l[f := Unused][1..] == l[1..][f - 1 := Unused];
      TotalAfterDrop(l[1..], f - 1);
    } else {
      assert l[f := Unused][1..] == l[1..];
    }
  }

  lemma {:induction false} CountAfterClears(m: seq<bool>, b: seq<int>)
    requires Distinct(b) && forall i :: 0 <= i < |b| ==> 0 <= b[i] < |m| && m[b[i]]
    ensures CountClear(ClearAll(m, b)) == CountClear(m) + |b|
  {
    if b == [] {
      assert ClearAll(m, b) == m;
    } else {
      var a, s := b[..|b| - 1], b[|b| - 1];
      CountAfterClears(m, a);
      var m' := ClearAll(m, b);
      assert m'[s := true] == ClearAll(m, a);
      CountAfterMark(m', s);
    }
  }

  lemma {:induction false} AllUnused(l: seq<Extent>)
    requires AllSound(l) && forall f :: 0 <= f < |l| ==> l[f].Unused?
    ensures TotalSize(l) == 0
  {
    if l != [] {
      AllUnused(l[1..]);
    }
  }

  /** Every sector is either clear or paid for by exactly one header or data block. */
  lemma {:induction false} SectorsConserved(l: seq<Extent>, m: seq<bool>)
    requires Accounted(l, m)
    ensures CountClear(m) + TotalSize(l) == NUM_SECTORS
    decreases TotalSize(l)
  {
    if f :| 0 <= f < |l| && l[f].Extent? {
      var x := l[f];
      var m' := ClearAll(m, Blocks(x.hdr))[x.inode := false];
      ExtentDropped(l, m, f);
      TotalAfterDrop(l, f);
      SectorsConserved(l[f := Unused], m');
      SectorsReturned(l, m, f);
    } else {
      AllUnused(l);
      forall s | 0 <= s < |m|
        ensures !m[s]
      {
        assert !Owned(l, s);
      }
      AllClear(m);
    }
  }

  /** Dropping a file returns as many sectors as it has. */
  lemma SectorsReturned(l: seq<Extent>, m: seq<bool>, f: nat)
    requires Accounted(l, m) && f < |l| && l[f].Extent?
    ensures CountClear(ClearAll(m, Blocks(l[f].hdr))[l[f].inode := false]) == CountClear(m) + Size(l[f])
  {
    var x := l[f];
    var b := Blocks(x.hdr) + [x.inode];
    forall i | 0 <= i < |b|
      ensures 0 <= b[i] < |m| && m[b[i]]
    {
      assert Owns(l[f], b[i]);
      assert Owned(l, b[i]);
    }
    CountAfterClears(m, b);
    assert ClearAll(m, Blocks(x.hdr))[x.inode := false] == ClearAll(m, b);
  }
}
