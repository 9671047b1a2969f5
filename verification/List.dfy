/** The singly linked list with head and tail pointers behind the ready list, the semaphore
    queues and the pending interrupts, and the sequence it stands for. */
module Lists {

  datatype Entry<T> = Entry(item: T, key: int)

  /** Where SortedInsert puts a key: before the first strictly bigger one. */
  function InsertionPoint<T>(m: seq<Entry<T>>, key: int): (p: nat)
    ensures p <= |m|
    ensures forall i :: 0 <= i < p ==> m[i].key <= key
    ensures p < |m| ==> key < m[p].key
  {
    if m == [] || key < m[0].key then 0 else 1 + InsertionPoint(m[1..], key)
  }

  function Inserted<T>(m: seq<Entry<T>>, e: Entry<T>): (r: seq<Entry<T>>)
    ensures |r| == |m| + 1
  {
    var p := InsertionPoint(m, e.key);
    m[..p] + [e] + m[p..]
  }

  ghost predicate Sorted<T>(m: seq<Entry<T>>) {
    forall i, j :: 0 <= i < j < |m| ==> m[i].key <= m[j].key
  }

  lemma InsertedAt<T>(m: seq<Entry<T>>, e: Entry<T>, i: nat)
    requires i <= |m|
    ensures var p := InsertionPoint(m, e.key);
            Inserted(m, e)[i] == if i < p then m[i] else if i == p then e else m[i - 1]
  {
  }

  /** Insertion loses and invents nothing. */
  lemma InsertedMultiset<T>(m: seq<Entry<T>>, e: Entry<T>)
    ensures multiset(Inserted(m, e)) == multiset(m) + multiset{e}
  {
    var p := InsertionPoint(m, e.key);
    assert m == m[..p] + m[p..];
  }

  /** Insertion keeps a list sorted, and comes after equal keys. */
  lemma InsertedSorted<T>(m: seq<Entry<T>>, e: Entry<T>)
    requires Sorted(m)
    ensures Sorted(Inserted(m, e))
    ensures var p := InsertionPoint(m, e.key);
            && Inserted(m, e)[p] == e
            && (forall i :: 0 <= i < p ==> m[i].key <= e.key)
            && (forall i :: p <= i < |m| ==> e.key < m[i].key)
  {
    var r, p := Inserted(m, e), InsertionPoint(m, e.key);
    forall i | p <= i < |m|
      ensures e.key < m[i].key
    {
      assert m[p].key <= m[i].key;
    }
    forall i, j | 0 <= i < j < |r|
      ensures r[i].key <= r[j].key
    {
      InsertedAt(m, e, i);
      InsertedAt(m, e, j);
      InOrder(m, e, p, i, j);
    }
    InsertedAt(m, e, p);
  }

  lemma InOrder<T>(m: seq<Entry<T>>, e: Entry<T>, p: nat, i: nat, j: nat)
    requires Sorted(m) && p <= |m| && i < j <= |m|
    requires forall k :: 0 <= k < p ==> m[k].key <= e.key
    requires forall k :: p <= k < |m| ==> e.key < m[k].key
    ensures (if i < p then m[i] else if i == p then e else m[i - 1]).key
              <= (if j < p then m[j] else if j == p then e else m[j - 1]).key
  {
  }

  class ListElement<T> {
    const item: T
    const key: int
    var next: ListElement?<T>

    constructor (item: T, key: int)
      ensures this.item == item && this.key == key && next == null
    {
      this.item := item;
      this.key := key;
      next := null;
    }
  }

  ghost function Entries<T>(nodes: seq<ListElement<T>>): (m: seq<Entry<T>>)
    ensures |m| == |nodes|
  {
    seq(|nodes|, i requires 0 <= i < |nodes| => Entry(nodes[i].item, nodes[i].key))
  }

  function Successor<T>(nodes: seq<ListElement<T>>, i: nat): (n: ListElement?<T>)
    requires i < |nodes|
  {
    if i + 1 < |nodes| then nodes[i + 1] else null
  }

  lemma StillDistinct<T>(ns: seq<ListElement<T>>, p: nat, n: ListElement<T>)
    requires p <= |ns| && n !in ns && forall i, j :: 0 <= i < j < |ns| ==> ns[i] != ns[j]
    ensures var ms := ns[..p] + [n] + ns[p..];
            forall i, j :: 0 <= i < j < |ms| ==> ms[i] != ms[j]
  {
  }

  /** Elements and successors after linking `n` behind element `i`. */
  lemma SplicedAt<T>(ns: seq<ListElement<T>>, i: nat, n: ListElement<T>, j: nat)
    requires i + 1 < |ns| && j <= |ns|
    ensures var ms := ns[..i + 1] + [n] + ns[i + 1..];
            if j == i + 1 then ms[j] == n && Successor(ms, j) == Successor(ns, i)
            else
              var k := if j <= i then j else j - 1;
              ms[j] == ns[k] && Successor(ms, j) == if j == i then n else Successor(ns, k)
  {
  }

  class List<T> {
    var first: ListElement?<T>
    var last: ListElement?<T>
    ghost var nodes: seq<ListElement<T>>

    /** `nodes` are the elements reachable from `first`, in order, without repetition; the last of
        them is `last` and ends the chain. */
    ghost predicate Valid()
      reads this, nodes
    {
      && (forall i, j :: 0 <= i < j < |nodes| ==> nodes[i] != nodes[j])
      && (forall i :: 0 <= i < |nodes| ==> nodes[i].next == Successor(nodes, i))
      && first == (if nodes == [] then null else nodes[0])
      && last == (if nodes == [] then null else nodes[|nodes| - 1])
    }

    ghost function Model(): (m: seq<Entry<T>>)
      reads this
    {
      Entries(nodes)
    }

    constructor ()
      ensures Valid() && nodes == [] && Model() == []
    {
      first, last := null, null;
      nodes := [];
    }

    /** Link a new element in front. */
    method PushFront(element: ListElement<T>)
      requires Valid() && element !in nodes && element.next == null
      modifies this, element
      ensures Valid() && nodes == [element] + old(nodes)
    {
      if first == null {
        first := element;
        last := element;
      } else {
        element.next := first;
        first := element;
      }
      ghost var ns := nodes;
      nodes := [element] + nodes;
      forall i | 0 <= i < |nodes|
        ensures nodes[i].next == Successor(nodes, i)
      {
        if i > 0 {
          assert nodes[i] == ns[i - 1] && ns[i - 1].next == Successor(ns, i - 1);
        }
      }
    }

    /** Link a new element after the last. */
    method PushBack(element: ListElement<T>)
      requires Valid() && element !in nodes && element.next == null
      modifies this, nodes
      ensures Valid() && nodes == old(nodes) + [element]
    {
      if first == null {
        first := element;
        last := element;
      } else {
        last.next := element;
        last := element;
      }
      nodes := nodes + [element];
    }

    /** Link a new element between `ptr` and its successor. */
    method InsertAfter(ptr: ListElement<T>, ghost i: nat, element: ListElement<T>)
      requires Valid() && element !in nodes && i + 1 < |nodes| && ptr == nodes[i]
      modifies this, ptr, element
      ensures Valid() && nodes == old(nodes)[..i + 1] + [element] + old(nodes)[i + 1..]
    {
      element.next := ptr.next;
      ptr.next := element;
      ghost var ns := nodes;
      nodes := nodes[..i + 1] + [element] + nodes[i + 1..];
      StillDistinct(ns, i + 1, element);
      forall j | 0 <= j < |nodes|
        ensures nodes[j].next == Successor(nodes, j)
      {
        SplicedAt(ns, i, element, j);
      }
    }

    method Append(item: T)
      requires Valid()
      modifies this, nodes
      ensures Valid() && forall n :: n in nodes ==> n in old(nodes) || fresh(n)
      ensures Model() == old(Model()) + [Entry(item, 0)]
    {
      var element := new ListElement(item, 0);
      PushBack(element);
    }

    method Prepend(item: T)
      requires Valid()
      modifies this
      ensures Valid() && forall n :: n in nodes ==> n in old(nodes) || fresh(n)
      ensures Model() == [Entry(item, 0)] + old(Model())
    {
      var element := new ListElement(item, 0);
      PushFront(element);
    }

    method SortedInsert(item: T, sortKey: int)
      requires Valid()
      modifies this, nodes
      ensures Valid() && forall n :: n in nodes ==> n in old(nodes) || fresh(n)
      ensures Model() == Inserted(old(Model()), Entry(item, sortKey))
    {
      var element := new ListElement(item, sortKey);
      ghost var p := LinkByKey(element);
      InsertedEntries(old(nodes), element, p);
    }

    method LinkByKey(element: ListElement<T>) returns (ghost p: nat)
      requires Valid() && element !in nodes && element.next == null
      modifies this, nodes, element
      ensures Valid() && p <= |old(nodes)| && nodes == old(nodes)[..p] + [element] + old(nodes)[p..]
      ensures forall i :: 0 <= i < p ==> old(nodes)[i].key <= element.key
      ensures p < |old(nodes)| ==> element.key < old(nodes)[p].key
    {
      if first == null || element.key < first.key {
        PushFront(element);
        p := 0;
        return;
      }
      var ptr, i := Walk(element.key);
      p := i + 1;
      if ptr.next != null {
        InsertAfter(ptr, i, element);
      } else {
        PushBack(element);
      }
    }

    /** The walk of SortedInsert: stop at the element the new key goes after. */
    method Walk(sortKey: int) returns (ptr: ListElement<T>, ghost i: nat)
      requires Valid() && nodes != [] && first.key <= sortKey
      ensures i < |nodes| && ptr == nodes[i]
      ensures forall j :: 0 <= j <= i ==> nodes[j].key <= sortKey
      ensures if ptr.next == null then i + 1 == |nodes| else i + 1 < |nodes| && sortKey < nodes[i + 1].key
    {
      ptr := first;
      i := 0;
      while ptr.next != null
        invariant 0 <= i < |nodes| && ptr == nodes[i]
        invariant forall j :: 0 <= j <= i ==> nodes[j].key <= sortKey
        decreases |nodes| - i
      {
        assert nodes[i].next == Successor(nodes, i);
        if sortKey < ptr.next.key {
          return;
        }
        ptr := ptr.next;
        i := i + 1;
      }
      assert nodes[i].next == Successor(nodes, i);
    }

    /** Remove the first element, if any. */
    method SortedRemove() returns (removed: seq<Entry<T>>)
      requires Valid()
      modifies this
      ensures Valid() && forall n :: n in nodes ==> n in old(nodes)
      ensures removed == if old(Model()) == [] then [] else [old(Model())[0]]
      ensures Model() == if old(Model()) == [] then [] else old(Model())[1..]
    {
      if first == null {
        return [];
      }
      var element := first;
      removed := [Entry(element.item, element.key)];
      if first == last {
        first := null;
        last := null;
      } else {
        first := element.next;
      }
      ghost var ns := nodes;
      nodes := nodes[1..];
      forall i | 0 <= i < |nodes|
        ensures nodes[i].next == Successor(nodes, i)
      {
        assert nodes[i] == ns[i + 1] && ns[i + 1].next == Successor(ns, i + 1);
      }
    }
  }

  lemma InsertedEntries<T>(ns: seq<ListElement<T>>, n: ListElement<T>, p: nat)
    requires p <= |ns| && (forall i :: 0 <= i < p ==> ns[i].key <= n.key) && (p < |ns| ==> n.key < ns[p].key)
    ensures Entries(ns[..p] + [n] + ns[p..]) == Inserted(Entries(ns), Entry(n.item, n.key))
  {
    PointFound(Entries(ns), n.key, p);
  }

  lemma {:induction false} PointFound<T>(m: seq<Entry<T>>, key: int, p: nat)
    requires p <= |m| && (forall i :: 0 <= i < p ==> m[i].key <= key) && (p < |m| ==> key < m[p].key)
    ensures InsertionPoint(m, key) == p
  {
    if p > 0 {
      PointFound(m[1..], key, p - 1);
    }
  }
}
