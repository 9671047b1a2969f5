/** A bitmap packed into 32-bit words: the sector allocator of the file system, and the
    stack-slot allocator of user threads. */
module BitMaps {
  import opened LittleEndian
  import opened Bits
  import opened DiskImage
  import opened FileHeaders
  import opened OpenFiles

  /** The bits of a packed bitmap, in order. */
  function Marks(words: seq<Word>, n: nat): (m: seq<bool>)
    requires n <= |words| * WORD_BITS
    ensures |m| == n
  {
    if n == 0 then [] else Marks(words, n - 1) + [Bit(words[(n - 1) / WORD_BITS], (n - 1) % WORD_BITS)]
  }

  lemma {:induction false} MarkAt(words: seq<Word>, n: nat, i: nat)
    requires i < n <= |words| * WORD_BITS
    ensures Marks(words, n)[i] == Bit(words[i / WORD_BITS], i % WORD_BITS)
  {
    if i < n - 1 {
      MarkAt(words, n - 1, i);
    }
  }

  /** Changing one bit of one word changes that mark alone. */
  lemma {:induction false} OneMarkChanged(words: seq<Word>, w: Word, n: nat, which: nat)
    requires which < n <= |words| * WORD_BITS
    requires forall k :: 0 <= k < WORD_BITS && k != which % WORD_BITS ==> Bit(w, k) == Bit(words[which / WORD_BITS], k)
    ensures Marks(words[which / WORD_BITS := w], n) == Marks(words, n)[which := Bit(w, which % WORD_BITS)]
  {
    var after := words[which / WORD_BITS := w];
    forall i | 0 <= i < n
      ensures Marks(after, n)[i] == if i == which then Bit(w, which % WORD_BITS) else Marks(words, n)[i]
    {
      MarkAt(words, n, i);
      MarkAt(after, n, i);
      if i / WORD_BITS == which / WORD_BITS && i % WORD_BITS == which % WORD_BITS {
        assert i == which;
      }
    }
  }

  // Counting

  function CountClear(m: seq<bool>): (c: nat)
    ensures c <= |m|
  {
    if m == [] then 0 else CountClear(m[..|m| - 1]) + if m[|m| - 1] then 0 else 1
  }

  lemma {:induction false} CountAfterMark(m: seq<bool>, i: nat)
    requires i < |m| && !m[i]
    ensures CountClear(m[i := true]) == CountClear(m) - 1
  {
    var n := |m| - 1;
    if i < n {
      assert m[i := true][..n] == m[..n][i := true];
      CountAfterMark(m[..n], i);
    } else {
      assert m[i := true][..n] == m[..n];
    }
  }

  lemma {:induction false} NoneClear(m: seq<bool>)
    ensures CountClear(m) == 0 <==> forall i :: 0 <= i < |m| ==> m[i]
  {
    if m != [] {
      NoneClear(m[..|m| - 1]);
    }
  }

  lemma {:induction false} AllClear(m: seq<bool>)
    requires forall s :: 0 <= s < |m| ==> !m[s]
    ensures CountClear(m) == |m|
  {
    if m != [] {
      AllClear(m[..|m| - 1]);
    }
  }

  class BitMap {
    const numBits: nat
    const map_: array<Word>
    ghost var marks: seq<bool>

    ghost predicate Valid()
      reads this, map_
    {
      && map_.Length == DivRoundUp(numBits, WORD_BITS)
      && marks == Marks(map_[..], numBits)
    }

    constructor (nitems: nat)
      ensures Valid() && fresh(map_) && numBits == nitems
      ensures forall i :: 0 <= i < numBits ==> !marks[i]
    {
      numBits := nitems;
      map_ := new Word[DivRoundUp(nitems, WORD_BITS)];
      new;
      marks := Marks(map_[..], numBits);
      for i := 0 to numBits
        invariant Valid() && forall j :: 0 <= j < i ==> !marks[j]
      {
        Clear(i);
      }
    }

    method Mark(which: int)
      requires Valid() && 0 <= which < numBits
      modifies `marks, map_
      ensures Valid() && marks == old(marks)[which := true]
    {
      OneBit(which % WORD_BITS);
      var w := Or(map_[which / WORD_BITS], Shl(1, which % WORD_BITS));
      OneMarkChanged(map_[..], w, numBits, which);
      ghost var before := map_[..];
      map_[which / WORD_BITS] := w;
      assert map_[..] == before[which / WORD_BITS := w];
      marks := marks[which := true];
    }

    method Clear(which: int)
      requires Valid() && 0 <= which < numBits
      modifies `marks, map_
      ensures Valid() && marks == old(marks)[which := false]
    {
      OneBit(which % WORD_BITS);
      var w := And(map_[which / WORD_BITS], Not(Shl(1, which % WORD_BITS)));
      OneMarkChanged(map_[..], w, numBits, which);
      ghost var before := map_[..];
      map_[which / WORD_BITS] := w;
      assert map_[..] == before[which / WORD_BITS := w];
      marks := marks[which := false];
    }

    method Test(which: int) returns (b: bool)
      requires Valid() && 0 <= which < numBits
      ensures b == marks[which]
    {
      MarkAt(map_[..], numBits, which);
      SingleBit(map_[which / WORD_BITS], which % WORD_BITS);
      b := And(map_[which / WORD_BITS], Shl(1, which % WORD_BITS)) != 0;
    }

    /** Allocate the lowest clear bit. */
    method Find() returns (r: int)
      requires Valid()
      modifies `marks, map_
      ensures Valid()
      ensures r == -1 <==> CountClear(old(marks)) == 0
      ensures r == -1 ==> marks == old(marks)
      ensures r != -1 ==> 0 <= r < numBits && !old(marks)[r] && forall i :: 0 <= i < r ==> old(marks)[i]
      ensures r != -1 ==> marks == old(marks)[r := true]
    {
      NoneClear(marks);
      for i := 0 to numBits
        invariant Valid() && marks == old(marks) && forall j :: 0 <= j < i ==> marks[j]
      {
        var b := Test(i);
        if !b {
          Mark(i);
          return i;
        }
      }
      return -1;
    }

    method NumClear() returns (count: nat)
      requires Valid()
      ensures count == CountClear(marks)
    {
      count := 0;
      for i := 0 to numBits
        invariant count == CountClear(marks[..i])
      {
        var b := Test(i);
        assert marks[..i + 1][..i] == marks[..i];
        if !b {
          count := count + 1;
        }
      }
      assert marks[..numBits] == marks;
    }

    method BytesOfWords(words: seq<Word>) returns (raw: array<Byte>)
      ensures fresh(raw) && raw[..] == WordsToBytes(words)
    {
      var bytes := WordsToBytes(words);
      raw := new Byte[|bytes|](i requires 0 <= i < |bytes| => bytes[i]);
    }

    method FetchFrom(file: OpenFile)
      requires Valid() && WellFormed(file.hdr) && 4 * map_.Length == file.hdr.numBytes
      modifies `marks, map_
      ensures Valid() && map_[..] == BytesToWords(Contents(file.disk.image, file.hdr))
    {
      var raw := new Byte[4 * map_.Length];
      var _ := file.ReadAt(raw, 0, 4 * map_.Length, 0);
      assert raw[..] == Contents(file.disk.image, file.hdr);
      var words := BytesToWords(raw[..]);
      forall i | 0 <= i < map_.Length {
        map_[i] := words[i];
      }
      assert map_[..] == words;
      marks := Marks(map_[..], numBits);
    }

    method WriteBack(file: OpenFile)
      requires Valid() && WellFormed(file.hdr) && 4 * map_.Length == file.hdr.numBytes
      modifies file.disk
      ensures BytesToWords(Contents(file.disk.image, file.hdr)) == map_[..]
      ensures forall s :: 0 <= s < NUM_SECTORS && s !in Blocks(file.hdr) ==>
                file.disk.image[s] == old(file.disk.image)[s]
    {
      var raw := BytesOfWords(map_[..]);
      file.Overwrite(raw);
      WordsRoundTrip(map_[..]);
    }
  }
}
