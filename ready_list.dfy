// The scheduler's ready list: a singly linked list of elements, each holding
// a thread and a sort key, with `first` and `last` pointers. The ghost
// sequence `nodes` lists the elements in link order and is the abstraction
// the contracts speak about. The list's own source file is not part of this
// model: Append, Remove and SortedInsert are given the sequence-level
// behaviour the scheduler relies on, with a straightforward implementation.
module ReadyList {
  import opened Threads
  import opened Policy

  class ListElement {
    var next: ListElement?
    const item: Thread
    const key: real

    constructor (item: Thread, key: real)
      ensures this.item == item && this.key == key && next == null
    {
      this.item := item;
      this.key := key;
      next := null;
    }
  }

  /** The threads held by a run of elements, in order. */
  ghost function ItemsOf(ns: seq<ListElement>): (r: seq<Thread>)
    ensures |r| == |ns|
    ensures forall i :: 0 <= i < |ns| ==> r[i] == ns[i].item
  {
    seq(|ns|, i requires 0 <= i < |ns| => ns[i].item)
  }

  /** The sort keys of a run of elements, in order. */
  ghost function KeysOf(ns: seq<ListElement>): (r: seq<real>)
    ensures |r| == |ns|
    ensures forall i :: 0 <= i < |ns| ==> r[i] == ns[i].key
  {
    seq(|ns|, i requires 0 <= i < |ns| => ns[i].key)
  }

  /** Unlinking the k-th element drops exactly the k-th thread and key. */
  lemma ViewsOfRemoveAt(ns: seq<ListElement>, k: nat)
    requires k < |ns|
    ensures ItemsOf(RemoveAt(ns, k)) == RemoveAt(ItemsOf(ns), k)
    ensures KeysOf(RemoveAt(ns, k)) == RemoveAt(KeysOf(ns), k)
  {
  }

  /** Linking an element in at the tail adds its thread and key at the end. */
  lemma ViewsOfSnoc(ns: seq<ListElement>, e: ListElement)
    ensures ItemsOf(ns + [e]) == ItemsOf(ns) + [e.item]
    ensures KeysOf(ns + [e]) == KeysOf(ns) + [e.key]
  {
  }

  lemma ViewsOfTail(ns: seq<ListElement>)
    requires |ns| > 0
    ensures ItemsOf(ns[1..]) == ItemsOf(ns)[1..]
    ensures KeysOf(ns[1..]) == KeysOf(ns)[1..]
  {
  }

  /** Linking an element in at position i adds exactly its thread and key there. */
  lemma ViewsOfInsertAt(ns: seq<ListElement>, i: nat, e: ListElement)
    requires i <= |ns|
    ensures ItemsOf(InsertAt(ns, i, e)) == InsertAt(ItemsOf(ns), i, e.item)
    ensures KeysOf(InsertAt(ns, i, e)) == InsertAt(KeysOf(ns), i, e.key)
  {
  }

  /** Each element of the run links to the one after it; the final one links
      to nothing. */
  ghost predicate Linked(ns: seq<ListElement>)
    reads ns
  {
    forall i {:trigger ns[i].next} :: 0 <= i < |ns| ==> ns[i].next == Succ(ns, i)
  }

  /** The element that follows position i of a run, or null after the last. */
  function Succ(ns: seq<ListElement>, i: nat): ListElement?
    requires i < |ns|
  {
    if i + 1 < |ns| then ns[i + 1] else null
  }

  lemma LinkedAt(ns: seq<ListElement>, j: nat)
    requires Linked(ns) && j < |ns|
    ensures ns[j].next == Succ(ns, j)
  {
  }

  lemma LinkedTail(ns: seq<ListElement>)
    requires |ns| > 0 && Linked(ns) && Distinct(ns)
    ensures Linked(ns[1..]) && Distinct(ns[1..])
  {
    var t := ns[1..];
    forall i | 0 <= i < |t|
      ensures t[i].next == Succ(t, i)
    {
      var j := i + 1;
      assert t[i] == ns[j];
      LinkedAt(ns, j);
    }
    assert Linked(t);
  }

  /** Once the head of a duplicate-free run is dropped from its owner set,
      the owner set still holds the rest of the run. */
  lemma TailOwned(ns: seq<ListElement>, R: set<ListElement>)
    requires |ns| > 0 && Distinct(ns)
    requires forall i :: 0 <= i < |ns| ==> ns[i] in R
    ensures forall i :: 0 <= i < |ns| - 1 ==> ns[1..][i] in R - {ns[0]}
  {
    forall i | 0 <= i < |ns| - 1 ensures ns[1..][i] in R - {ns[0]} {
      var j := i + 1;
      assert ns[1..][i] == ns[j] && ns[j] != ns[0];
    }
  }

  /** What the links say once the element at k has been spliced out: its
      predecessor now links to its successor, every other link is as before. */
  lemma LinkedAfterUnlink(ns: seq<ListElement>, k: nat)
    requires 0 < k < |ns|
    requires forall q {:trigger ns[q].next} :: 0 <= q < |ns| && q != k - 1 ==> ns[q].next == Succ(ns, q)
    requires ns[k - 1].next == Succ(ns, k)
    ensures Linked(RemoveAt(ns, k))
  {
    var r := RemoveAt(ns, k);
    forall q | 0 <= q < |r|
      ensures r[q].next == Succ(r, q)
    {
      if q < k - 1 {
        var q' := q + 1;
        assert r[q] == ns[q] && r[q'] == ns[q'];
      } else if q >= k {
        var p := q + 1;
        assert r[q] == ns[p];
      }
    }
    assert Linked(r);
  }

  class List {
    var first: ListElement?
    var last: ListElement?
    ghost var nodes: seq<ListElement>
    /** The elements this list owns; every linked element is among them. */
    ghost var Repr: set<ListElement>

    /** `first` and `last` are the ends of `nodes`, each element links to the
        next one, the last links to nothing, and no element occurs twice
        (so the chain is acyclic). */
    ghost predicate Valid()
      reads this, Repr
    {
      (forall i :: 0 <= i < |nodes| ==> nodes[i] in Repr) &&
      Distinct(nodes) &&
      (|nodes| == 0 ==> first == null && last == null) &&
      (|nodes| > 0 ==> first == nodes[0] && last == nodes[|nodes| - 1]) &&
      Linked(nodes)
    }

    ghost function Items(): seq<Thread>
      reads this
    {
      ItemsOf(nodes)
    }

    ghost function Keys(): seq<real>
      reads this
    {
      KeysOf(nodes)
    }

    constructor ()
      ensures Valid() && Repr == {}
      ensures nodes == [] && Items() == []
    {
      first := null;
      last := null;
      nodes := [];
      Repr := {};
    }

    /** Adds a thread at the tail, with key 0. */
    method Append(item: Thread)
      requires Valid()
      modifies this, Repr
      ensures Valid() && fresh(Repr - old(Repr))
      ensures Items() == old(Items()) + [item]
      ensures Keys() == old(Keys()) + [0.0]
    {
      var element := new ListElement(item, 0.0);
      ghost var ns := nodes;
      if last == null {
        first := element;
        last := element;
      } else {
        last.next := element;
        last := element;
      }
      nodes := ns + [element];
      Repr := Repr + {element};
      forall q {:trigger nodes[q].next} | 0 <= q < |nodes|
        ensures nodes[q].next == Succ(nodes, q)
      {
        if q < |ns| - 1 {
          var q' := q + 1;
          assert nodes[q] == ns[q] && nodes[q'] == ns[q'] && ns[q] != ns[|ns| - 1];
          assert old(ns[q].next) == ns[q'];
        }
      }
      assert Linked(nodes);
      InsertAtKeepsDistinct(ns, |ns|, element);
      assert nodes == InsertAt(ns, |ns|, element);
      ViewsOfSnoc(ns, element);
    }

    /** Takes the head off the list, frees its element and returns its
        thread; returns null and changes nothing when the list is empty. */
    method Remove() returns (item: Thread?)
      requires Valid()
      modifies this
      ensures Valid()
      ensures old(nodes) == [] ==> item == null && nodes == old(nodes) && Repr == old(Repr)
      ensures old(nodes) != [] ==> item == old(Items())[0] && nodes == old(nodes)[1..]
      ensures old(nodes) != [] ==> Repr == old(Repr) - {old(nodes)[0]}
      ensures old(nodes) != [] ==> Items() == old(Items())[1..] && Keys() == old(Keys())[1..]
    {
      if first == null {
        return null;
      }
      var element := first;
      if first == last {
        first := null;
        last := null;
      } else {
        first := element.next;
      }
      item := element.item;
      ghost var ns := nodes;
      LinkedTail(ns);
      TailOwned(ns, Repr);
      nodes := ns[1..];
      // The unlinked element is freed.
      Repr := Repr - {element};
      ViewsOfTail(ns);
    }

    /** Inserts a thread in ascending order of key: every key before it is at
        most sortKey and the key after it, if any, is at least sortKey. The
        ghost result is the position it took. */
    method SortedInsert(item: Thread, sortKey: real) returns (ghost pos: nat)
      requires Valid()
      modifies this, Repr
      ensures Valid() && fresh(Repr - old(Repr))
      ensures OrderedSlot(old(Keys()), pos, sortKey)
      ensures Items() == InsertAt(old(Items()), pos, item)
      ensures Keys() == InsertAt(old(Keys()), pos, sortKey)
    {
      var element := new ListElement(item, sortKey);
      var prev;
      prev, pos := FindSlot(sortKey);
      if prev == null {
        LinkFirst(element);
      } else {
        LinkAfter(prev, pos, element);
      }
      ViewsOfInsertAt(old(nodes), pos, element);
    }

    /** Finds where a key goes in ascending order: the element to link the
        new one after (null for the head) and its position. */
    method FindSlot(sortKey: real) returns (prev: ListElement?, ghost pos: nat)
      requires Valid()
      ensures OrderedSlot(Keys(), pos, sortKey)
      ensures pos == 0 ==> prev == null
      ensures pos > 0 ==> prev == nodes[pos - 1]
    {
      if first == null || sortKey < first.key {
        return null, 0;
      }
      var ptr := first;
      ghost var p := 0;
      while ptr.next != null && !(sortKey < ptr.next.key)
        invariant 0 <= p < |nodes| && ptr == nodes[p]
        invariant forall j :: 0 <= j <= p ==> nodes[j].key <= sortKey
        decreases |nodes| - p
      {
        LinkedAt(nodes, p);
        ptr := ptr.next;
        p := p + 1;
      }
      LinkedAt(nodes, p);
      return ptr, p + 1;
    }

    /** Links a new element in at the head. */
    method LinkFirst(element: ListElement)
      requires Valid() && element !in Repr
      modifies this, element
      ensures Valid() && Repr == old(Repr) + {element}
      ensures nodes == InsertAt(old(nodes), 0, element)
    {
      ghost var ns := nodes;
      element.next := first;
      first := element;
      if last == null {
        last := element;
      }
      nodes := [element] + ns;
      Repr := Repr + {element};
      forall q {:trigger nodes[q].next} | 0 <= q < |nodes|
        ensures nodes[q].next == Succ(nodes, q)
      {
        if q > 0 {
          var p := q - 1;
          assert nodes[q] == ns[p] && ns[p] != element;
          assert old(ns[p].next) == Succ(ns, p);
        }
      }
      assert Linked(nodes);
      InsertAtKeepsDistinct(ns, 0, element);
      assert nodes == InsertAt(ns, 0, element);
    }

    /** Links a new element in right after prev, the element at position
        pos - 1. */
    method LinkAfter(prev: ListElement, ghost pos: nat, element: ListElement)
      requires Valid() && element !in Repr
      requires 0 < pos <= |nodes| && prev == nodes[pos - 1]
      modifies this, prev, element
      ensures Valid() && Repr == old(Repr) + {element}
      ensures nodes == InsertAt(old(nodes), pos, element)
    {
      ghost var ns := nodes;
      element.next := prev.next;
      prev.next := element;
      if prev == last {
        last := element;
      }
      nodes := InsertAt(ns, pos, element);
      Repr := Repr + {element};
      forall q {:trigger nodes[q].next} | 0 <= q < |nodes|
        ensures nodes[q].next == Succ(nodes, q)
      {
        if q < pos - 1 {
          var q' := q + 1;
          assert nodes[q] == ns[q] && nodes[q'] == ns[q'] && ns[q] != prev;
          assert old(ns[q].next) == ns[q'];
        } else if q > pos {
          var p := q - 1;
          assert nodes[q] == ns[p] && ns[p] != prev && ns[p] != element;
          assert old(ns[p].next) == Succ(ns, p);
        }
      }
      assert Linked(nodes);
      InsertAtKeepsDistinct(ns, pos, element);
    }
  }
}
