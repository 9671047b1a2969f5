/** Whole runs of the file system, from a formatted disk through any sequence of operations,
    each explained by the abstract map of names to byte strings. */
module FileSystemRuns {
  import opened LittleEndian
  import opened DiskImage
  import opened FileHeaders
  import opened OpenFiles
  import opened Directories
  import opened FileSystemImage
  import opened AbstractFiles
  import opened FileSystems

  /** What a program holds of an open file: which file, and where in it. */
  datatype Handle = Closed | Handle(key: seq<Byte>, position: nat)

  datatype World = World(files: FileMap, handles: seq<Handle>)

  datatype Op =
    | Create(name: seq<Byte>, size: nat)
    | Remove(name: seq<Byte>)
    | Open(name: seq<Byte>)
    | Close(id: nat)
    | Seek(id: nat, position: nat)
    | Read(id: nat, length: nat)
    | Write(id: nat, data: seq<Byte>)
    | Remount

  datatype Reply = Done | Refused | Opened(id: nat) | Count(n: int) | Bytes(data: seq<Byte>)

  /** Calls that the source forbids its callers are refused before they are made: files bigger than a
      header can describe, handles that are closed or whose file is gone, and offsets beyond an int. */
  predicate Usable(handles: seq<Handle>, id: nat, length: nat) {
    id < |handles| && handles[id].Handle? && handles[id].position + length < 0x8000_0000
  }

  /** The handles after a file is gone. */
  function Without(handles: seq<Handle>, key: seq<Byte>): (r: seq<Handle>)
    ensures |r| == |handles|
  {
    seq(|handles|, i requires 0 <= i < |handles| =>
      if handles[i].Handle? && handles[i].key == key then Closed else handles[i])
  }

  function Advanced(handles: seq<Handle>, id: nat, k: nat): (r: seq<Handle>)
    requires id < |handles| && handles[id].Handle?
  {
    handles[id := Handle(handles[id].key, handles[id].position + k)]
  }

  /** What one operation may answer and do, in terms of the abstract files and handles alone.  The
      contents of a new file are unspecified; everything else is determined. */
  ghost predicate Explained(w: World, op: Op, reply: Reply, w': World) {
    match op
    case Create(name, size) =>
      var k := Key(name, FILE_NAME_MAX);
      if size <= MAX_FILE_SIZE && Admits(w.files, name, size)
      then reply == Done && k in w'.files && |w'.files[k]| == size && w' == World(w.files[k := w'.files[k]], w.handles)
      else reply == Refused && w' == w
    case Remove(name) =>
      var k := Key(name, FILE_NAME_MAX);
      if k in w.files then reply == Done && w' == World(w.files - {k}, Without(w.handles, k))
      else reply == Refused && w' == w
    case Open(name) =>
      var k := Key(name, FILE_NAME_MAX);
      if k in w.files then reply == Opened(|w.handles|) && w' == w.(handles := w.handles + [Handle(k, 0)])
      else reply == Refused && w' == w
    case Close(id) =>
      if Usable(w.handles, id, 0) then reply == Done && w' == w.(handles := w.handles[id := Closed])
      else reply == Refused && w' == w
    case Seek(id, position) =>
      if Usable(w.handles, id, 0)
      then reply == Done && w' == w.(handles := w.handles[id := Handle(w.handles[id].key, position)])
      else reply == Refused && w' == w
    case Read(id, length) =>
      if Usable(w.handles, id, length) then ReadExplained(w, id, length, reply, w') else reply == Refused && w' == w
    case Write(id, data) =>
      if Usable(w.handles, id, |data|) then WriteExplained(w, id, data, reply, w') else reply == Refused && w' == w
    case Remount => reply == Done && w' == w.(handles := seq(|w.handles|, _ => Closed))
  }

  ghost predicate ReadExplained(w: World, id: nat, length: nat, reply: Reply, w': World)
    requires Usable(w.handles, id, length)
  {
    var h := w.handles[id];
    && h.key in w.files && reply == Bytes(Slice(w.files[h.key], length, h.position))
    && w' == w.(handles := Advanced(w.handles, id, Transferred(|w.files[h.key]|, length, h.position)))
  }

  ghost predicate WriteExplained(w: World, id: nat, data: seq<Byte>, reply: Reply, w': World)
    requires Usable(w.handles, id, |data|)
  {
    var h := w.handles[id];
    && h.key in w.files
    && var c := w.files[h.key];
       var k := Transferred(|c|, |data|, h.position);
       && reply == Count(k)
       && w' == World(w.files[h.key := Written(c, data, |data|, h.position)], Advanced(w.handles, id, k))
  }

  function Slice(c: seq<Byte>, length: nat, position: nat): (r: seq<Byte>) {
    var k := Transferred(|c|, length, position);
    if k == 0 then [] else c[position..position + k]
  }

  ghost predicate RunExplained(w: World, ops: seq<Op>, replies: seq<Reply>, w': World)
    requires |replies| == |ops|
  {
    if ops == [] then w' == w
    else
      var n := |ops| - 1;
      exists mid :: RunExplained(w, ops[..n], replies[..n], mid) && Explained(mid, ops[n], replies[n], w')
  }

  /** The directory entry in use behind a handle, and the bytes it stands for. */
  lemma HandleIsFile(d: Image, slot: nat)
    requires Consistent(d) && slot < NUM_DIR_ENTRIES && Layout(d)[slot + 2].Extent? && Sound(Layout(d)[slot + 2])
    ensures var k := NameKey(Table(d), slot);
            k in Files(d) && Files(d)[k] == Contents(d, Layout(d)[slot + 2].hdr)
  {
    assert Catalog(d)[slot] == Named(NameKey(Table(d), slot), Contents(d, Layout(d)[slot + 2].hdr));
  }

  /** What a handle depends on. */
  ghost predicate Backed(d: Image, hdr: Header, slot: int, key: seq<Byte>)
    requires Bootable(d)
  {
    && 0 <= slot < NUM_DIR_ENTRIES
    && Layout(d)[slot + 2].Extent? && Layout(d)[slot + 2].hdr == hdr && WellFormed(hdr)
    && NameKey(Table(d), slot) == key
  }

  ghost predicate AllBacked(d: Image, hdrs: seq<Header>, slots: seq<int>, handles: seq<Handle>)
    requires Bootable(d)
  {
    && |hdrs| == |slots| == |handles|
    && forall i :: 0 <= i < |handles| && handles[i].Handle? ==> Backed(d, hdrs[i], slots[i], handles[i].key)
  }

  /** A change to another entry, or to none, leaves every handle backed. */
  lemma BackedKept(d: Image, e: Image, hdrs: seq<Header>, slots: seq<int>, handles: seq<Handle>, slot: int, x: Extent)
    requires Bootable(d) && Bootable(e) && AllBacked(d, hdrs, slots, handles) && 0 <= slot < NUM_DIR_ENTRIES
    requires Layout(e) == Layout(d)[slot + 2 := x] && OthersKept(Table(d), Table(e), NUM_DIR_ENTRIES, slot)
    requires forall i :: 0 <= i < |handles| && handles[i].Handle? ==> slots[i] != slot
    ensures AllBacked(e, hdrs, slots, handles)
  {
  }

  /** No handle is on an entry that is free. */
  lemma NotOnFreeEntry(d: Image, hdrs: seq<Header>, slots: seq<int>, handles: seq<Handle>, slot: int)
    requires Bootable(d) && AllBacked(d, hdrs, slots, handles) && 0 <= slot < NUM_DIR_ENTRIES
              && Layout(d)[slot + 2].Unused?
    ensures forall i :: 0 <= i < |handles| && handles[i].Handle? ==> slots[i] != slot
  {
  }

  /** Once the handles on a removed file are gone, none is left on its entry. */
  lemma BackedRemoved(d: Image, e: Image, hdrs: seq<Header>, slots: seq<int>, handles: seq<Handle>, slot: int,
                      key: seq<Byte>)
    requires Bootable(d) && Bootable(e) && AllBacked(d, hdrs, slots, handles) && 0 <= slot < NUM_DIR_ENTRIES
    requires NameKey(Table(d), slot) == key
    requires Layout(e) == Layout(d)[slot + 2 := Unused] && OthersKept(Table(d), Table(e), NUM_DIR_ENTRIES, slot)
    ensures AllBacked(e, hdrs, slots, Without(handles, key))
  {
    var left := Without(handles, key);
    assert AllBacked(d, hdrs, slots, left);
    BackedKept(d, e, hdrs, slots, left, slot, Unused);
  }

  lemma BackedOpened(d: Image, hdrs: seq<Header>, slots: seq<int>, handles: seq<Handle>, h: Header, slot: int,
                     key: seq<Byte>)
    requires Bootable(d) && AllBacked(d, hdrs, slots, handles) && Backed(d, h, slot, key)
    ensures AllBacked(d, hdrs + [h], slots + [slot], handles + [Handle(key, 0)])
  {
  }

  /** Seeking, reading and closing change no handle's file. */
  lemma BackedMoved(d: Image, hdrs: seq<Header>, slots: seq<int>, handles: seq<Handle>, id: nat, h: Handle)
    requires Bootable(d) && AllBacked(d, hdrs, slots, handles) && id < |handles| && handles[id].Handle?
    requires h.Handle? ==> h.key == handles[id].key
    ensures AllBacked(d, hdrs, slots, handles[id := h])
  {
  }

  lemma BackedWritten(d: Image, e: Image, hdrs: seq<Header>, slots: seq<int>, handles: seq<Handle>, id: nat, k: nat)
    requires Bootable(d) && Bootable(e) && AllBacked(d, hdrs, slots, handles)
    requires Layout(e) == Layout(d) && Table(e) == Table(d) && id < |handles| && handles[id].Handle?
    ensures AllBacked(e, hdrs, slots, Advanced(handles, id, k))
  {
  }

  /** OpenFile::Read into a buffer of the requested size. */
  method ReadNext(file: OpenFile, length: nat) returns (data: seq<Byte>)
    requires WellFormed(file.hdr) && file.seekPosition >= 0 && file.seekPosition + length < 0x8000_0000
    modifies file
    ensures data == Slice(Contents(file.disk.image, file.hdr), length, old(file.seekPosition))
    ensures |data| == Transferred(file.hdr.numBytes, length, old(file.seekPosition))
    ensures file.seekPosition == old(file.seekPosition) + |data|
  {
    var into := new Byte[length];
    var k := file.Read(into, length);
    data := into[..k];
  }

  /** OpenFile::Write of some bytes. */
  method WriteData(fs: FileSystem, file: OpenFile, ghost slot: int, data: seq<Byte>) returns (k: nat)
    requires fs.Valid() && fs.OpenedOn(file, slot)
    requires file.seekPosition >= 0 && file.seekPosition + |data| < 0x8000_0000
    modifies fs.disk, file
    ensures fs.Valid()
    ensures Table(fs.disk.image) == old(Table(fs.disk.image)) && Layout(fs.disk.image) == old(Layout(fs.disk.image))
    ensures k == Transferred(file.hdr.numBytes, |data|, old(file.seekPosition))
    ensures file.seekPosition == old(file.seekPosition) + k
    ensures Files(fs.disk.image) == old(Files(fs.disk.image))[NameKey(old(Table(fs.disk.image)), slot) :=
              Written(old(Contents(fs.disk.image, file.hdr)), data, |data|, old(file.seekPosition))]
  {
    var from := new Byte[|data|](i requires 0 <= i < |data| => data[i]);
    assert from[..] == data;
    k := fs.WriteNext(file, slot, from, |data|);
  }

  /** A program's session with the file system: any number of files open at once. */
  class Session {
    const disk: SynchDisk
    var fs: FileSystem
    var opens: seq<OpenFile>
    var handles: seq<Handle>
    ghost var hdrs: seq<Header>
    ghost var slots: seq<int>

    ghost predicate Valid()
      reads this, fs, disk, opens
    {
      && fs.disk == disk && fs.Valid()
      && AllBacked(disk.image, hdrs, slots, handles)
      && |opens| == |handles|
      && (forall i, j :: 0 <= i < j < |opens| ==> opens[i] != opens[j])
      && (forall i :: 0 <= i < |opens| ==> opens[i].disk == disk && opens[i].hdr == hdrs[i])
      && (forall i :: 0 <= i < |opens| && handles[i].Handle? ==> opens[i].seekPosition == handles[i].position)
    }

    ghost function Value(): (w: World)
      reads this, fs, disk, opens
      requires Valid()
    {
      World(Files(disk.image), handles)
    }

    /** Format the disk, whatever it holds. */
    constructor (disk: SynchDisk)
      modifies disk
      ensures Valid() && this.disk == disk && Value() == World(map[], []) && opens == []
    {
      this.disk := disk;
      fs := new FileSystem.Format(disk);
      opens, handles, slots, hdrs := [], [], [], [];
    }

    method DoCreate(name: seq<Byte>, size: nat) returns (reply: Reply)
      requires Valid()
      modifies disk
      ensures Valid() && Explained(old(Value()), Create(name, size), reply, Value())
    {
      if size > MAX_FILE_SIZE {
        return Refused;
      }
      ghost var d := disk.image;
      var ok, slot, x := fs.Create(name, size);
      if !ok {
        return Refused;
      }
      NotOnFreeEntry(d, hdrs, slots, handles, slot);
      BackedKept(d, disk.image, hdrs, slots, handles, slot, x);
      return Done;
    }

    method DoRemove(name: seq<Byte>) returns (reply: Reply)
      requires Valid()
      modifies disk, this`handles
      ensures Valid() && Explained(old(Value()), Remove(name), reply, Value())
    {
      ghost var d := disk.image;
      var ok, slot := fs.Remove(name);
      if !ok {
        return Refused;
      }
      BackedRemoved(d, disk.image, hdrs, slots, handles, slot, Key(name, FILE_NAME_MAX));
      handles := Without(handles, Key(name, FILE_NAME_MAX));
      return Done;
    }

    method DoOpen(name: seq<Byte>) returns (reply: Reply)
      requires Valid()
      modifies this
      ensures Valid() && Explained(old(Value()), Open(name), reply, Value())
      ensures old(opens) <= opens && forall i :: |old(opens)| <= i < |opens| ==> fresh(opens[i])
    {
      var file, slot := fs.Open(name);
      if file == null {
        return Refused;
      }
      var n := |opens|;
      Track(file, slot, Key(name, FILE_NAME_MAX));
      return Opened(n);
    }

    method Track(file: OpenFile, ghost slot: int, key: seq<Byte>)
      requires Valid() && file !in opens && file.disk == disk && file.seekPosition == 0
      requires Backed(disk.image, file.hdr, slot, key)
      modifies this`opens, this`handles, this`slots, this`hdrs
      ensures Valid() && opens == old(opens) + [file] && handles == old(handles) + [Handle(key, 0)]
    {
      BackedOpened(disk.image, hdrs, slots, handles, file.hdr, slot, key);
      opens := opens + [file];
      handles := handles + [Handle(key, 0)];
      slots, hdrs := slots + [slot], hdrs + [file.hdr];
    }

    method DoClose(id: nat) returns (reply: Reply)
      requires Valid()
      modifies this`handles
      ensures Valid() && Explained(old(Value()), Close(id), reply, Value())
    {
      if !Usable(handles, id, 0) {
        return Refused;
      }
      BackedMoved(disk.image, hdrs, slots, handles, id, Closed);
      handles := handles[id := Closed];
      return Done;
    }

    method DoSeek(id: nat, position: nat) returns (reply: Reply)
      requires Valid()
      modifies this`handles, opens
      ensures Valid() && Explained(old(Value()), Seek(id, position), reply, Value())
    {
      if !Usable(handles, id, 0) {
        return Refused;
      }
      opens[id].Seek(position);
      BackedMoved(disk.image, hdrs, slots, handles, id, Handle(handles[id].key, position));
      handles := handles[id := Handle(handles[id].key, position)];
      return Done;
    }

    method DoRead(id: nat, length: nat) returns (reply: Reply)
      requires Valid()
      modifies this`handles, opens
      ensures Valid() && Explained(old(Value()), Read(id, length), reply, Value())
    {
      if Usable(handles, id, length) {
        reply := ReadLive(id, length);
      } else {
        reply := Refused;
      }
    }

    method ReadLive(id: nat, length: nat) returns (reply: Reply)
      requires Valid() && Usable(handles, id, length)
      modifies this`handles, opens
      ensures Valid() && ReadExplained(old(Value()), id, length, reply, Value())
    {
      HandleIsFile(disk.image, slots[id]);
      var data := ReadNext(opens[id], length);
      BackedMoved(disk.image, hdrs, slots, handles, id, Advanced(handles, id, |data|)[id]);
      handles := Advanced(handles, id, |data|);
      return Bytes(data);
    }

    method DoWrite(id: nat, data: seq<Byte>) returns (reply: Reply)
      requires Valid()
      modifies this`handles, opens, disk
      ensures Valid() && Explained(old(Value()), Write(id, data), reply, Value())
    {
      if Usable(handles, id, |data|) {
        reply := WriteLive(id, data);
      } else {
        reply := Refused;
      }
    }

    method WriteLive(id: nat, data: seq<Byte>) returns (reply: Reply)
      requires Valid() && Usable(handles, id, |data|)
      modifies this`handles, opens, disk
      ensures Valid() && WriteExplained(old(Value()), id, data, reply, Value())
    {
      var k := WriteFile(id, data);
      assert forall i :: 0 <= i < |opens| && i != id ==> opens[i].seekPosition == old(opens[i].seekPosition);
      handles := Advanced(handles, id, k);
      return Count(k);
    }

    /** The write itself, before the handle moves on. */
    method WriteFile(id: nat, data: seq<Byte>) returns (k: nat)
      requires Valid() && Usable(handles, id, |data|)
      modifies disk, opens[id]
      ensures fs.Valid() && AllBacked(disk.image, hdrs, slots, Advanced(handles, id, k))
      ensures opens[id].seekPosition == handles[id].position + k
      ensures var files, h := old(Files(disk.image)), handles[id];
              && h.key in files && k == Transferred(|files[h.key]|, |data|, h.position)
              && Files(disk.image) == files[h.key := Written(files[h.key], data, |data|, h.position)]
    {
      ghost var d := disk.image;
      HandleIsFile(d, slots[id]);
      k := WriteData(fs, opens[id], slots[id], data);
      BackedWritten(d, disk.image, hdrs, slots, handles, id, k);
    }

    method DoRemount() returns (reply: Reply)
      requires Valid()
      modifies this
      ensures Valid() && opens == old(opens) && Explained(old(Value()), Op.Remount, reply, Value())
    {
      fs := new FileSystem.Mount(disk);
      handles := seq(|handles|, _ => Closed);
      return Done;
    }
  }

  method Step(session: Session, op: Op) returns (reply: Reply)
    requires session.Valid()
    modifies session, session.disk, session.opens
    ensures session.Valid()
    ensures old(session.opens) <= session.opens
    ensures forall i :: |old(session.opens)| <= i < |session.opens| ==> fresh(session.opens[i])
    ensures Explained(old(session.Value()), op, reply, session.Value())
  {
    match op {
      case Create(name, size) => reply := session.DoCreate(name, size);
      case Remove(name) => reply := session.DoRemove(name);
      case Open(name) => reply := session.DoOpen(name);
      case Close(id) => reply := session.DoClose(id);
      case Seek(id, position) => reply := session.DoSeek(id, position);
      case Read(id, length) => reply := session.DoRead(id, length);
      case Write(id, data) => reply := session.DoWrite(id, data);
      case Remount => reply := session.DoRemount();
    }
  }

  /** From any disk whatever: format it, then run any operations, with any number of files open
      across them.  The file system stays consistent, and every reply, the final contents and every
      handle are those of the abstract map and handles. */
  method Run(disk: SynchDisk, ops: seq<Op>) returns (session: Session, replies: seq<Reply>)
    modifies disk
    ensures session.Valid() && session.disk == disk
    ensures |replies| == |ops| && RunExplained(World(map[], []), ops, replies, session.Value())
  {
    session := new Session(disk);
    replies := CarryOn(session, ops);
  }

  /** Any operations, from any state of a session. */
  method CarryOn(session: Session, ops: seq<Op>) returns (replies: seq<Reply>)
    requires session.Valid()
    modifies session, session.disk, session.opens
    ensures session.Valid()
    ensures |replies| == |ops| && RunExplained(old(session.Value()), ops, replies, session.Value())
  {
    ghost var start := session.Value();
    replies := [];
    for n := 0 to |ops|
      invariant session.Valid() && old(session.opens) <= session.opens
      invariant forall i :: |old(session.opens)| <= i < |session.opens| ==> fresh(session.opens[i])
      invariant |replies| == n && RunExplained(start, ops[..n], replies, session.Value())
    {
      ghost var mid := session.Value();
      var reply := Step(session, ops[n]);
      RunExtended(start, ops, replies, reply, mid, session.Value());
      replies := replies + [reply];
    }
    assert ops[..|ops|] == ops;
  }

  lemma RunExtended(w: World, ops: seq<Op>, replies: seq<Reply>, reply: Reply, mid: World, w': World)
    requires |replies| < |ops| && RunExplained(w, ops[..|replies|], replies, mid)
    requires Explained(mid, ops[|replies|], reply, w')
    ensures RunExplained(w, ops[..|replies| + 1], replies + [reply], w')
  {
    var n := |replies|;
    assert ops[..n + 1][..n] == ops[..n] && (replies + [reply])[..n] == replies;
    assert RunExplained(w, ops[..n], replies, mid) && Explained(mid, ops[n], reply, w');
  }

  /** Which sectors are marked follows from who owns what. */
  lemma LayoutDeterminesMap(l: seq<Extent>, m: seq<bool>, n: seq<bool>)
    requires Accounted(l, m) && Accounted(l, n)
    ensures m == n
  {
    forall s | 0 <= s < NUM_SECTORS
      ensures m[s] == n[s]
    {
      assert m[s] <==> Owned(l, s);
    }
  }

  /** Removing a file just created gives back every sector and every name. */
  method CreateThenRemove(fs: FileSystem, name: seq<Byte>, size: int) returns (created: bool, removed: bool)
    requires fs.Valid() && 0 <= size <= MAX_FILE_SIZE && Admits(Files(fs.disk.image), name, size)
    modifies fs.disk
    ensures fs.Valid() && created && removed
    ensures Files(fs.disk.image) == old(Files(fs.disk.image))
    ensures FreeMap(fs.disk.image) == old(FreeMap(fs.disk.image))
  {
    ghost var d := fs.disk.image;
    ghost var i, j, x;
    created, i, x := fs.Create(name, size);
    ghost var e := fs.disk.image;
    removed, j := fs.Remove(name);
    RemoveUndoesCreate(d, e, fs.disk.image, i, j, x, name, Contents(e, x.hdr));
  }

  lemma RemoveUndoesCreate(d: Image, e: Image, g: Image, i: nat, j: nat, x: Extent, name: seq<Byte>, c: seq<Byte>)
    requires Consistent(d) && Consistent(e) && Consistent(g) && i < NUM_DIR_ENTRIES && j < NUM_DIR_ENTRIES
    requires Names(Table(e), i, name) && Names(Table(e), j, name)
    requires Sound(x) && ExtentTaken(Layout(d), FreeMap(d), Layout(e), FreeMap(e), i + 2, x)
    requires Layout(g) == Layout(e)[j + 2 := Unused]
    requires Key(name, FILE_NAME_MAX) !in Files(d) && Files(e) == Files(d)[Key(name, FILE_NAME_MAX) := c]
    requires Files(g) == Files(e) - {Key(name, FILE_NAME_MAX)}
    ensures FreeMap(g) == FreeMap(d) && Files(g) == Files(d)
  {
    SameSlot(e, i, j, name);
    SectorsRestored(Layout(d), FreeMap(d), Layout(g), FreeMap(g), i + 2, x);
    DropUndoesPut(Files(d), Key(name, FILE_NAME_MAX), c);
  }

  lemma DropUndoesPut(m: FileMap, k: seq<Byte>, c: seq<Byte>)
    requires k !in m
    ensures m[k := c] - {k} == m
  {
  }

  lemma SectorsRestored(l: seq<Extent>, m: seq<bool>, l': seq<Extent>, m': seq<bool>, f: nat, x: Extent)
    requires Accounted(l, m) && Accounted(l', m') && f < |l| && l[f].Unused?
    requires l' == l[f := x][f := Unused]
    ensures m' == m
  {
    assert l' == l;
    LayoutDeterminesMap(l, m, m');
  }
}
