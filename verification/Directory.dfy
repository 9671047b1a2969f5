/** The directory: a fixed table of (name, header sector) pairs, kept in memory exactly as the
    bytes that go to disk.  Names are told apart by their first nine characters. */
module Directories {
  import opened LittleEndian
  import opened DiskImage
  import opened FileHeaders
  import opened OpenFiles

  const FILE_NAME_MAX := 9
  const ENTRY_SIZE := 20   // inUse, 3 bytes of padding, sector, name[10], 2 bytes of padding
  const SECTOR_FIELD := 4
  const NAME_FIELD := 8

  // C strings

  /** The character at the front of a C string; a sequence that ends is a string that ends. */
  function Front(s: seq<Byte>): (c: Byte) {
    if s == [] then 0 else s[0]
  }

  /** What identifies a name: its first `n` characters, up to a NUL. */
  function Key(s: seq<Byte>, n: nat): (k: seq<Byte>)
    ensures |k| <= n
  {
    if n == 0 || Front(s) == 0 then [] else [s[0]] + Key(s[1..], n - 1)
  }

  /** strncmp(a, b, n) == 0. */
  predicate SameName(a: seq<Byte>, b: seq<Byte>, n: nat) {
    n == 0 || (Front(a) == Front(b) && (Front(a) == 0 || SameName(a[1..], b[1..], n - 1)))
  }

  /** The `n` bytes strncpy(dst, s, n) stores: the string, padded with NULs. */
  function StrNCpy(s: seq<Byte>, n: nat): (r: seq<Byte>)
    ensures |r| == n
    decreases n
  {
    if n == 0 then []
    else if Front(s) == 0 then [0] + StrNCpy([], n - 1)
    else [s[0]] + StrNCpy(s[1..], n - 1)
  }

  /** The character at index `i` of a C string. */
  function CharAt(s: seq<Byte>, i: nat): (c: Byte) {
    if i < |s| then s[i] else 0
  }

  /** Two C strings agree in their first `n` characters, as far as neither has ended. */
  ghost predicate SameCharacters(a: seq<Byte>, b: seq<Byte>, n: nat) {
    forall i :: 0 <= i < n && (forall j :: 0 <= j < i ==> CharAt(a, j) != 0 && CharAt(b, j) != 0) ==>
      CharAt(a, i) == CharAt(b, i)
  }

  /** A key is the string up to its end, or up to `n` characters. */
  lemma {:induction false} KeyIsPrefix(s: seq<Byte>, n: nat)
    ensures var k := Key(s, n);
            && k <= s && (forall i :: 0 <= i < |k| ==> k[i] != 0)
            && (|k| == n || CharAt(s, |k|) == 0)
  {
    if n > 0 && Front(s) != 0 {
      KeyIsPrefix(s[1..], n - 1);
    }
  }

  /** Names share a key exactly when their first `n` characters are the same. */
  lemma SameKeyExactly(a: seq<Byte>, b: seq<Byte>, n: nat)
    ensures Key(a, n) == Key(b, n) <==> SameCharacters(a, b, n)
  {
    var k, l := Key(a, n), Key(b, n);
    KeyIsPrefix(a, n);
    KeyIsPrefix(b, n);
    assert forall i :: 0 <= i < |k| ==> CharAt(a, i) == k[i];
    assert forall i :: 0 <= i < |l| ==> CharAt(b, i) == l[i];
    if SameCharacters(a, b, n) {
      SharedPrefix(a, b, n, k, l);
    } else {
      var i :| 0 <= i < n && (forall j :: 0 <= j < i ==> CharAt(a, j) != 0 && CharAt(b, j) != 0)
               && CharAt(a, i) != CharAt(b, i);
      assert i <= |k| && i <= |l|;
    }
  }

  lemma SharedPrefix(a: seq<Byte>, b: seq<Byte>, n: nat, k: seq<Byte>, l: seq<Byte>)
    requires SameCharacters(a, b, n) && |k| <= n && |l| <= n
    requires k <= a && (forall i :: 0 <= i < |k| ==> k[i] != 0) && (|k| == n || CharAt(a, |k|) == 0)
    requires l <= b && (forall i :: 0 <= i < |l| ==> l[i] != 0) && (|l| == n || CharAt(b, |l|) == 0)
    ensures k == l
  {
    var m := if |k| < |l| then |k| else |l|;
    forall i | 0 <= i < m
      ensures k[i] == l[i]
    {
      assert forall j :: 0 <= j < i ==> CharAt(a, j) == k[j] && CharAt(b, j) == l[j];
      assert CharAt(a, i) == CharAt(b, i);
    }
    if m < n {
      assert forall j :: 0 <= j < m ==> CharAt(a, j) == k[j] && CharAt(b, j) == l[j];
      assert CharAt(a, m) == CharAt(b, m);
    }
  }

  /** strncmp is equality of keys, and both are agreement of the characters. */
  lemma {:induction false} SameNameIsSameKey(a: seq<Byte>, b: seq<Byte>, n: nat)
    ensures SameName(a, b, n) <==> Key(a, n) == Key(b, n)
    ensures SameName(a, b, n) <==> SameCharacters(a, b, n)
  {
    if n > 0 && Front(a) != 0 && Front(b) != 0 {
      SameNameIsSameKey(a[1..], b[1..], n - 1);
      assert Key(a, n)[1..] == Key(a[1..], n - 1);
      assert Key(b, n)[1..] == Key(b[1..], n - 1);
    }
    SameKeyExactly(a, b, n);
  }

  /** A stored name is found again under the same key, whatever byte follows the field. */
  lemma {:induction false} KeyOfCopy(s: seq<Byte>, n: nat, rest: seq<Byte>)
    ensures Key(StrNCpy(s, n) + rest, n) == Key(s, n)
  {
    if n > 0 && Front(s) != 0 {
      KeyOfCopy(s[1..], n - 1, rest);
      assert (StrNCpy(s, n) + rest)[1..] == StrNCpy(s[1..], n - 1) + rest;
    }
  }

  // Entries

  predicate IsTable(t: seq<Byte>, n: nat) {
    |t| == n * ENTRY_SIZE
  }

  function Entry(t: seq<Byte>, i: nat): (e: seq<Byte>)
    requires (i + 1) * ENTRY_SIZE <= |t|
    ensures |e| == ENTRY_SIZE
  {
    t[i * ENTRY_SIZE..(i + 1) * ENTRY_SIZE]
  }

  predicate InUse(t: seq<Byte>, i: nat)
    requires (i + 1) * ENTRY_SIZE <= |t|
  {
    Entry(t, i)[0] != 0
  }

  function HeaderSector(t: seq<Byte>, i: nat): (s: int)
    requires (i + 1) * ENTRY_SIZE <= |t|
  {
    BytesInt(Entry(t, i)[SECTOR_FIELD..NAME_FIELD])
  }

  function NameKey(t: seq<Byte>, i: nat): (k: seq<Byte>)
    requires (i + 1) * ENTRY_SIZE <= |t|
  {
    Key(Entry(t, i)[NAME_FIELD..], FILE_NAME_MAX)
  }

  /** Entry `i` answers to `name`. */
  predicate Names(t: seq<Byte>, i: nat, name: seq<Byte>)
    requires (i + 1) * ENTRY_SIZE <= |t|
  {
    InUse(t, i) && NameKey(t, i) == Key(name, FILE_NAME_MAX)
  }

  /** An entry answers to exactly the names that share its first nine characters. */
  lemma NamesExactly(t: seq<Byte>, i: nat, name: seq<Byte>)
    requires (i + 1) * ENTRY_SIZE <= |t|
    ensures Names(t, i, name) <==> InUse(t, i) && SameCharacters(Entry(t, i)[NAME_FIELD..], name, 9)
  {
    SameKeyExactly(Entry(t, i)[NAME_FIELD..], name, FILE_NAME_MAX);
  }

  predicate Lists(t: seq<Byte>, n: nat, name: seq<Byte>)
    requires n * ENTRY_SIZE <= |t|
  {
    exists i :: 0 <= i < n && Names(t, i, name)
  }

  predicate HasRoom(t: seq<Byte>, n: nat)
    requires n * ENTRY_SIZE <= |t|
  {
    exists i :: 0 <= i < n && !InUse(t, i)
  }

  lemma FieldStored(t: seq<Byte>, i: nat, offset: nat, data: seq<Byte>, j: nat)
    requires (i + 1) * ENTRY_SIZE <= |t| && (j + 1) * ENTRY_SIZE <= |t| && offset + |data| <= ENTRY_SIZE
    ensures Entry(Splice(t, i * ENTRY_SIZE + offset, data), j)
         == if j == i then Splice(Entry(t, i), offset, data) else Entry(t, j)
  {
  }

  ghost predicate OthersKept(before: seq<Byte>, after: seq<Byte>, n: nat, slot: nat)
    requires IsTable(before, n) && IsTable(after, n)
  {
    forall j :: 0 <= j < n && j != slot ==> Entry(after, j) == Entry(before, j)
  }

  /** `after` is `before` with entry `slot` now naming `name` at `sector`. */
  ghost predicate Added(before: seq<Byte>, after: seq<Byte>, n: nat, slot: nat, name: seq<Byte>, sector: int) {
    && IsTable(before, n) && IsTable(after, n)
    && slot < n
    && !InUse(before, slot)
    && InUse(after, slot)
    && HeaderSector(after, slot) == sector
    && NameKey(after, slot) == Key(name, FILE_NAME_MAX)
    && OthersKept(before, after, n, slot)
  }

  /** `after` is `before` with entry `slot` no longer in use. */
  ghost predicate Dropped(before: seq<Byte>, after: seq<Byte>, n: nat, slot: nat) {
    && IsTable(before, n) && IsTable(after, n)
    && slot < n
    && !InUse(after, slot)
    && OthersKept(before, after, n, slot)
  }

  lemma EntryFilled(t0: seq<Byte>, t1: seq<Byte>, t2: seq<Byte>, t3: seq<Byte>, n: nat, slot: nat, name: seq<Byte>,
                    sector: int)
    requires IsTable(t0, n) && slot < n && !InUse(t0, slot)
    requires IntField(sector)
    requires t1 == Splice(t0, slot * ENTRY_SIZE, [1])
    requires t2 == Splice(t1, slot * ENTRY_SIZE + NAME_FIELD, StrNCpy(name, FILE_NAME_MAX))
    requires t3 == Splice(t2, slot * ENTRY_SIZE + SECTOR_FIELD, IntBytes(sector))
    ensures Added(t0, t3, n, slot, name, sector)
  {
    forall j | 0 <= j < n
      ensures Entry(t3, j) ==
              if j == slot
              then Splice(Splice(Splice(Entry(t0, j), 0, [1]), NAME_FIELD, StrNCpy(name, FILE_NAME_MAX)),
                  SECTOR_FIELD, IntBytes(sector))
              else Entry(t0, j)
    {
      FieldStored(t0, slot, 0, [1], j);
      FieldStored(t1, slot, NAME_FIELD, StrNCpy(name, FILE_NAME_MAX), j);
      FieldStored(t2, slot, SECTOR_FIELD, IntBytes(sector), j);
    }
    FieldsFilled(Entry(t0, slot), Entry(t3, slot), name, sector);
  }

  lemma FieldsFilled(e: seq<Byte>, f: seq<Byte>, name: seq<Byte>, sector: int)
    requires |e| == ENTRY_SIZE && IntField(sector)
    requires f == Splice(Splice(Splice(e, 0, [1]), NAME_FIELD, StrNCpy(name, FILE_NAME_MAX)), SECTOR_FIELD,
              IntBytes(sector))
    ensures f[0] == 1
    ensures BytesInt(f[SECTOR_FIELD..NAME_FIELD]) == sector
    ensures Key(f[NAME_FIELD..], FILE_NAME_MAX) == Key(name, FILE_NAME_MAX)
  {
    assert f[SECTOR_FIELD..NAME_FIELD] == IntBytes(sector);
    IntRoundTrip(sector);
    var rest := f[NAME_FIELD + FILE_NAME_MAX..];
    assert f[NAME_FIELD..] == StrNCpy(name, FILE_NAME_MAX) + rest;
    KeyOfCopy(name, FILE_NAME_MAX, rest);
  }

  class Directory {
    const tableSize: nat
    const table: array<Byte>

    ghost predicate Valid() {
      table.Length == tableSize * ENTRY_SIZE
    }

    /** Only the `inUse` flags of a new table are set; the rest is whatever the memory held. */
    constructor (size: nat)
      ensures Valid() && fresh(table) && tableSize == size
      ensures forall i :: 0 <= i < size ==> !InUse(table[..], i)
    {
      tableSize := size;
      table := new Byte[size * ENTRY_SIZE];
      new;
      for i := 0 to tableSize
        invariant forall j :: 0 <= j < i ==> !InUse(table[..], j)
      {
        ghost var before := table[..];
        StoreField(i * ENTRY_SIZE, [0]);
        forall j | 0 <= j <= i
          ensures !InUse(table[..], j)
        {
          FieldStored(before, i, 0, [0], j);
          assert j < i ==> !InUse(before, j);
        }
      }
    }

    method StoreField(at: nat, data: seq<Byte>)
      requires at + |data| <= table.Length
      modifies table
      ensures table[..] == Splice(old(table[..]), at, data)
    {
      forall p | at <= p < at + |data| {
        table[p] := data[p - at];
      }
    }

    method FetchFrom(file: OpenFile)
      requires Valid() && WellFormed(file.hdr) && file.hdr.numBytes == tableSize * ENTRY_SIZE
      modifies table
      ensures table[..] == Contents(file.disk.image, file.hdr)
    {
      var _ := file.ReadAt(table, 0, tableSize * ENTRY_SIZE, 0);
    }

    method WriteBack(file: OpenFile)
      requires Valid() && WellFormed(file.hdr) && file.hdr.numBytes == tableSize * ENTRY_SIZE
      modifies file.disk
      ensures Contents(file.disk.image, file.hdr) == table[..]
      ensures forall s :: 0 <= s < NUM_SECTORS && s !in Blocks(file.hdr) ==>
                file.disk.image[s] == old(file.disk.image)[s]
    {
      file.Overwrite(table);
    }

    method FindIndex(name: seq<Byte>) returns (r: int)
      requires Valid()
      ensures r == -1 <==> !Lists(table[..], tableSize, name)
      ensures r != -1 ==> 0 <= r < tableSize && Names(table[..], r, name)
    {
      var t := table[..];
      for i := 0 to tableSize
        invariant forall j :: 0 <= j < i ==> !Names(t, j, name)
      {
        SameNameIsSameKey(Entry(t, i)[NAME_FIELD..], name, FILE_NAME_MAX);
        if InUse(t, i) && SameName(Entry(t, i)[NAME_FIELD..], name, FILE_NAME_MAX) {
          assert Names(t, i, name);
          return i;
        }
      }
      return -1;
    }

    method Find(name: seq<Byte>) returns (sector: int, ghost slot: int)
      requires Valid()
      requires forall i :: 0 <= i < tableSize && InUse(table[..], i) ==> HeaderSector(table[..], i) >= 0
      ensures sector == -1 <==> !Lists(table[..], tableSize, name)
      ensures sector != -1 ==>
                0 <= slot < tableSize && Names(table[..], slot, name) && HeaderSector(table[..], slot) == sector
    {
      var i := FindIndex(name);
      slot := i;
      if i != -1 {
        sector := HeaderSector(table[..], i);
      } else {
        sector := -1;
      }
    }

    method Add(name: seq<Byte>, newSector: int) returns (ok: bool, ghost slot: int)
      requires Valid() && IntField(newSector)
      modifies table
      ensures ok <==> HasRoom(old(table[..]), tableSize) && !Lists(old(table[..]), tableSize, name)
      ensures !ok ==> table[..] == old(table[..])
      ensures ok ==> slot >= 0 && Added(old(table[..]), table[..], tableSize, slot, name, newSector)
    {
      slot := -1;
      var found := FindIndex(name);
      if found != -1 {
        return false, slot;
      }
      for i := 0 to tableSize
        invariant table[..] == old(table[..])
        invariant forall j :: 0 <= j < i ==> InUse(table[..], j)
      {
        if !InUse(table[..], i) {
          Fill(i, name, newSector);
          return true, i;
        }
      }
      return false, slot;
    }

    method Fill(i: nat, name: seq<Byte>, newSector: int)
      requires Valid() && i < tableSize && !InUse(table[..], i) && IntField(newSector)
      modifies table
      ensures Added(old(table[..]), table[..], tableSize, i, name, newSector)
    {
      ghost var t0 := table[..];
      StoreField(i * ENTRY_SIZE, [1]);
      ghost var t1 := table[..];
      StoreField(i * ENTRY_SIZE + NAME_FIELD, StrNCpy(name, FILE_NAME_MAX));
      ghost var t2 := table[..];
      StoreField(i * ENTRY_SIZE + SECTOR_FIELD, IntBytes(newSector));
      EntryFilled(t0, t1, t2, table[..], tableSize, i, name, newSector);
    }

    method Remove(name: seq<Byte>) returns (ok: bool, ghost slot: int)
      requires Valid()
      modifies table
      ensures ok <==> Lists(old(table[..]), tableSize, name)
      ensures !ok ==> table[..] == old(table[..])
      ensures ok ==>
                && 0 <= slot < tableSize
                && Names(old(table[..]), slot, name)
                && Dropped(old(table[..]), table[..], tableSize, slot)
    {
      var i := FindIndex(name);
      slot := i;
      if i == -1 {
        return false, slot;
      }
      ghost var before := table[..];
      StoreField(i * ENTRY_SIZE, [0]);
      forall j | 0 <= j < tableSize
        ensures Entry(table[..], j) == if j == i then Splice(Entry(before, j), 0, [0]) else Entry(before, j)
      {
        FieldStored(before, i, 0, [0], j);
      }
      return true, slot;
    }
  }
}
