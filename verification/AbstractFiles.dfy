/** The file system its users are promised: a finite map from names to byte strings, with a
    limit on the number of files and on the sectors they occupy together. */
module AbstractFiles {
  import opened LittleEndian
  import opened DiskImage
  import opened FileHeaders
  import opened Directories
  import opened FileSystemImage
  import opened BitMaps

  type FileMap = map<seq<Byte>, seq<Byte>>

  const METADATA_SECTORS := 5   // two headers, one sector of free map, two of directory

  /** What a file of `n` bytes costs: its header and its data sectors. */
  function Cost(n: nat): (c: nat) {
    1 + DivRoundUp(n, SECTOR_SIZE)
  }

  ghost function TotalCost(m: FileMap): (c: nat)
    decreases |m|
  {
    if m == map[] then 0
    else
      var k :| k in m;
      Cost(|m[k]|) + TotalCost(m - {k})
  }

  lemma {:induction false} CostWithout(m: FileMap, k: seq<Byte>)
    requires k in m
    ensures TotalCost(m) == Cost(|m[k]|) + TotalCost(m - {k})
    decreases |m|
  {
    var j :| j in m && TotalCost(m) == Cost(|m[j]|) + TotalCost(m - {j});
    if j != k {
      CostWithout(m - {j}, k);
      CostWithout(m - {k}, j);
      assert m - {j} - {k} == m - {k} - {j};
    }
  }

  /** When a file can be created. */
  ghost predicate Admits(m: FileMap, name: seq<Byte>, size: nat) {
    && Key(name, FILE_NAME_MAX) !in m
    && |m| < NUM_DIR_ENTRIES
    && METADATA_SECTORS + TotalCost(m) + Cost(size) <= NUM_SECTORS
  }

  // The abstract quantities are the ones the disk holds

  ghost function SlotCosts(c: seq<Slot>): (n: nat) {
    if c == [] then 0 else (if c[0].Named? then Cost(|c[0].bytes|) else 0) + SlotCosts(c[1..])
  }

  ghost function Occupied(c: seq<Slot>): (n: nat)
    ensures n <= |c|
  {
    if c == [] then 0 else (if c[0].Named? then 1 else 0) + Occupied(c[1..])
  }

  lemma {:induction false} SlotsAfterDrop(c: seq<Slot>, i: nat)
    requires i < |c| && c[i].Named?
    ensures SlotCosts(c[i := Vacant]) == SlotCosts(c) - Cost(|c[i].bytes|)
    ensures Occupied(c[i := Vacant]) == Occupied(c) - 1
  {
    if i > 0 {
      assert c[i := Vacant][1..] == c[1..][i - 1 := Vacant];
      SlotsAfterDrop(c[1..], i - 1);
    } else {
      assert c[i := Vacant][1..] == c[1..];
    }
  }

  lemma {:induction false} NoSlots(c: seq<Slot>)
    requires forall i :: 0 <= i < |c| ==> c[i].Vacant?
    ensures SlotCosts(c) == 0 && Occupied(c) == 0
  {
    if c != [] {
      NoSlots(c[1..]);
    }
  }

  lemma {:induction false} SlotsAsMap(c: seq<Slot>)
    requires UniqueKeys(c)
    ensures TotalCost(MapOf(c)) == SlotCosts(c)
    ensures |MapOf(c)| == Occupied(c)
    decreases Occupied(c)
  {
    if i :| 0 <= i < |c| && c[i].Named? {
      MapDrop(c, i);
      SlotsAfterDrop(c, i);
      SlotsAsMap(c[i := Vacant]);
      assert c[i].key in MapOf(c) && MapOf(c)[c[i].key] == c[i].bytes;
      CostWithout(MapOf(c), c[i].key);
    } else {
      NoSlots(c);
      assert MapOf(c) == map[];
    }
  }

  lemma {:induction false} RoomIsVacancy(c: seq<Slot>)
    ensures Occupied(c) < |c| <==> exists i :: 0 <= i < |c| && c[i].Vacant?
  {
    if c != [] {
      RoomIsVacancy(c[1..]);
      assert forall i :: 0 < i < |c| ==> c[i] == c[1..][i - 1];
      if i :| 0 <= i < |c[1..]| && c[1..][i].Vacant? {
        assert c[i + 1].Vacant?;
      }
    }
  }

  lemma {:induction false} LayoutCost(l: seq<Extent>, c: seq<Slot>)
    requires AllSound(l) && |l| == |c|
    requires forall i :: 0 <= i < |c| ==> (l[i].Extent? <==> c[i].Named?)
    requires forall i :: 0 <= i < |c| && l[i].Extent? ==> |c[i].bytes| == l[i].hdr.numBytes
    ensures TotalSize(l) == SlotCosts(c)
  {
    if l != [] {
      LayoutCost(l[1..], c[1..]);
    }
  }

  /** The number of clear sectors on the disk is what the abstract files leave over. */
  lemma SpaceLeft(d: Image)
    requires Consistent(d)
    ensures CountClear(FreeMap(d)) + METADATA_SECTORS + TotalCost(Files(d)) == NUM_SECTORS
  {
    var l := Layout(d);
    SectorsConserved(l, FreeMap(d));
    assert l[1..][1..] == l[2..];
    assert TotalSize(l) == Size(l[0]) + Size(l[1]) + TotalSize(l[2..]);
    LayoutCost(l[2..], Catalog(d));
    SlotsAsMap(Catalog(d));
  }

  lemma RoomInTable(t: seq<Byte>, c: seq<Slot>)
    requires IsTable(t, |c|) && forall i :: 0 <= i < |c| ==> (InUse(t, i) <==> c[i].Named?)
    ensures HasRoom(t, |c|) <==> Occupied(c) < |c|
  {
    RoomIsVacancy(c);
    if i :| 0 <= i < |c| && c[i].Vacant? {
      assert !InUse(t, i);
    }
  }

  lemma EntriesAreSlots(d: Image)
    requires Bootable(d) && SectorsInRange(Table(d)) && AllSound(Layout(d))
    ensures forall i :: 0 <= i < NUM_DIR_ENTRIES ==> (InUse(Table(d), i) <==> Catalog(d)[i].Named?)
  {
    forall i | 0 <= i < NUM_DIR_ENTRIES
      ensures InUse(Table(d), i) <==> Catalog(d)[i].Named?
    {
      SlotNames(d, i);
    }
  }

  /** A directory entry is free exactly when fewer than ten files exist. */
  lemma RoomLeft(d: Image)
    requires Consistent(d)
    ensures HasRoom(Table(d), NUM_DIR_ENTRIES) <==> |Files(d)| < NUM_DIR_ENTRIES
  {
    EntriesAreSlots(d);
    SlotsAsMap(Catalog(d));
    RoomInTable(Table(d), Catalog(d));
  }
}
