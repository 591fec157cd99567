/** Circular doubly linked lists on the heap, as sequences of nodes. */
module Rings {
  import opened Bytes

  /** A ListNode together with the structure it is part of. */
  class Node<T> {
    const value: T
    var next: Node?<T>
    var prev: Node?<T>

    constructor (value: T)
      ensures this.value == value && next == null && prev == null
    {
      this.value, next, prev := value, null, null;
    }
  }

  function Succ<T>(r: seq<Node<T>>, i: nat): Node<T>
    requires i < |r|
  {
    if i + 1 < |r| then r[i + 1] else r[0]
  }

  /** `next` and `prev` agree between place i and the following one. */
  ghost predicate Linked<T>(r: seq<Node<T>>, i: nat)
    requires i < |r|
    reads r
  {
    r[i].next == Succ(r, i) && Succ(r, i).prev == r[i]
  }

  ghost predicate Ring<T>(r: seq<Node<T>>)
    reads r
  {
    |r| > 0 && Distinct(r) && forall i :: 0 <= i < |r| ==> Linked(r, i)
  }

  function InsertAt<T>(r: seq<T>, at: nat, n: T): seq<T>
    requires at <= |r|
  {
    r[..at] + [n] + r[at..]
  }

  function RemoveAt<T>(r: seq<T>, at: nat): seq<T>
    requires at < |r|
  {
    r[..at] + r[at + 1..]
  }

  lemma Neighbours<T>(r: seq<Node<T>>, i: nat)
    requires Ring(r) && i < |r|
    ensures r[i].next == Succ(r, i)
    ensures r[i].prev == if i > 0 then r[i - 1] else r[|r| - 1]
  {
    assert Linked(r, i);
    assert Linked(r, if i > 0 then i - 1 else |r| - 1);
  }

  /** The sequence is determined by the heap and the node it starts from. */
  lemma RingUnique<T>(r: seq<Node<T>>, r': seq<Node<T>>)
    requires Ring(r) && Ring(r') && r[0] == r'[0]
    ensures r == r'
  {
    SamePlaces(r, r', if |r| < |r'| then |r| - 1 else |r'| - 1);
    if |r| < |r'| {
      Neighbours(r, |r| - 1);
      Neighbours(r', |r| - 1);
    } else if |r'| < |r| {
      Neighbours(r, |r'| - 1);
      Neighbours(r', |r'| - 1);
    }
  }

  lemma {:induction false} SamePlaces<T>(r: seq<Node<T>>, r': seq<Node<T>>, i: nat)
    requires Ring(r) && Ring(r') && r[0] == r'[0] && i < |r| && i < |r'|
    ensures forall j :: 0 <= j <= i ==> r[j] == r'[j]
  {
    if i > 0 {
      SamePlaces(r, r', i - 1);
      Neighbours(r, i - 1);
      Neighbours(r', i - 1);
    }
  }

  lemma RemovedDistinct<T>(r: seq<T>, at: nat)
    requires Distinct(r) && at < |r|
    ensures Distinct(RemoveAt(r, at)) && r[at] !in RemoveAt(r, at)
  {
    var r' := RemoveAt(r, at);
    assert forall i :: 0 <= i < |r'| ==> r'[i] == r[if i < at then i else i + 1];
  }

  lemma RemoveBehind<T>(first: T, s: seq<T>, at: nat)
    requires at < |s|
    ensures RemoveAt([first] + s, at + 1) == [first] + RemoveAt(s, at)
  {
  }

  // Lists with a sentinel: the ring is the sentinel followed by the entries.

  method ListInit<T>(list: Node<T>)
    modifies list
    ensures Ring([list])
  {
    list.next := list;
    list.prev := list;
  }

  method ListInsertHead<T>(ghost s: seq<Node<T>>, list: Node<T>, entry: Node<T>)
    requires Ring([list] + s) && entry !in [list] + s
    modifies entry, list, list.next
    ensures Ring([list, entry] + s)
  {
    ghost var r := [list] + s;
    Neighbours(r, 0);
    list.next.prev := entry;
    entry.next := list.next;
    entry.prev := list;
    list.next := entry;
    ghost var r' := InsertAt(r, 1, entry);
    forall i | 0 <= i < |r'|
      ensures Linked(r', i)
    {
      if i > 1 {
        assert old(Linked(r, i - 1));
      }
    }
    assert r' == [list, entry] + s;
  }

  method ListInsertTail<T>(ghost s: seq<Node<T>>, list: Node<T>, entry: Node<T>)
    requires Ring([list] + s) && entry !in [list] + s
    modifies entry, list, list.prev
    ensures Ring([list] + s + [entry])
  {
    ghost var r := [list] + s;
    Neighbours(r, 0);
    Neighbours(r, |s|);
    entry.next := list;
    entry.prev := list.prev;
    list.prev.next := entry;
    list.prev := entry;
    ghost var r' := InsertAt(r, |s| + 1, entry);
    forall i | 0 <= i < |r'|
      ensures Linked(r', i)
    {
      if i < |s| {
        assert old(Linked(r, i));
      }
    }
    assert r' == [list] + s + [entry];
  }

  method ListRemoveEntry<T>(ghost s: seq<Node<T>>, ghost at: nat, ghost list: Node<T>, entry: Node<T>)
    requires Ring([list] + s) && at < |s| && s[at] == entry
    modifies entry.prev, entry.next
    ensures Ring([list] + RemoveAt(s, at))
    ensures entry.next == old(entry.next) && entry.prev == old(entry.prev)
  {
    ghost var r := [list] + s;
    Neighbours(r, at + 1);
    entry.prev.next := entry.next;
    entry.next.prev := entry.prev;
    RemovedDistinct(r, at + 1);
    ghost var r' := RemoveAt(r, at + 1);
    forall i | 0 <= i < |r'|
      ensures Linked(r', i)
    {
      assert old(Linked(r, if i <= at then i else i + 1));
    }
    RemoveBehind(list, s, at);
  }

  method ListRemoveHead<T>(ghost s: seq<Node<T>>, list: Node<T>) returns (entry: Node?<T>)
    requires Ring([list] + s)
    modifies [list] + s
    ensures if s == [] then entry == null && Ring([list]) else entry == s[0] && Ring([list] + s[1..])
  {
    Neighbours([list] + s, 0);
    entry := null;
    if list != list.next {
      entry := list.next;
      Neighbours([list] + s, 1);
      ListRemoveEntry(s, 0, list, entry);
      assert RemoveAt(s, 0) == s[1..];
    }
  }

  method ListRemoveTail<T>(ghost s: seq<Node<T>>, list: Node<T>) returns (entry: Node?<T>)
    requires Ring([list] + s)
    modifies [list] + s
    ensures if s == [] then entry == null && Ring([list]) else entry == s[|s| - 1] && Ring([list] + s[..|s| - 1])
  {
    Neighbours([list] + s, 0);
    entry := null;
    if list != list.next {
      entry := list.prev;
      Neighbours([list] + s, |s|);
      ListRemoveEntry(s, |s| - 1, list, entry);
      assert RemoveAt(s, |s| - 1) == s[..|s| - 1];
    }
  }

  /** The entries that a sweep leaves on the list. */
  ghost function Kept<T>(s: seq<T>, drop: set<T>): seq<T>
  {
    if s == [] then [] else (if s[0] in drop then [] else [s[0]]) + Kept(s[1..], drop)
  }

  function FirstOr<T>(s: seq<T>, list: T): T { if s == [] then list else s[0] }

  /** Where a sweep stands, with `kept` behind it and `rest` ahead. */
  lemma Standing<T>(list: Node<T>, kept: seq<Node<T>>, rest: seq<Node<T>>)
    requires Ring([list] + (kept + rest))
    ensures rest != [] ==> rest[0] != list && rest[0].next == FirstOr(rest[1..], list)
    ensures kept == [] ==> list.next == FirstOr(rest, list)
    ensures rest != [] ==> kept + rest == (kept + [rest[0]]) + rest[1..]
  {
    var r := [list] + (kept + rest);
    Neighbours(r, if rest == [] then 0 else |kept| + 1);
    Neighbours(r, 0);
    assert rest != [] ==> r[|kept| + 1] == rest[0];
  }

  predicate Within<T(==)>(a: seq<T>, all: set<T>) { forall i :: 0 <= i < |a| ==> a[i] in all }

  /** Removing the current entry and giving it up: nobody may follow its pointers. */
  method Drop<T>(ghost list: Node<T>, ghost kept: seq<Node<T>>, ghost rest: seq<Node<T>>, pos: Node<T>,
                 ghost all: set<Node<T>>)
    requires Ring([list] + (kept + rest)) && rest != [] && pos == rest[0]
    requires list in all && Within(kept + rest, all)
    modifies all
    ensures Ring([list] + (kept + rest[1..]))
  {
    hide RemoveAt, Within;
    DropPlace(list, kept, rest, all);
    Neighbours([list] + (kept + rest), |kept| + 1);
    ListRemoveEntry(kept + rest, |kept|, list, pos);
    pos.next, pos.prev := null, null;
  }

  lemma DropPlace<T>(list: Node<T>, kept: seq<Node<T>>, rest: seq<Node<T>>, all: set<Node<T>>)
    requires Distinct([list] + (kept + rest)) && rest != [] && list in all && Within(kept + rest, all)
    ensures var r, at := [list] + (kept + rest), |kept| + 1;
            && r[at] == rest[0] && (kept + rest)[|kept|] == rest[0]
            && r[at - 1] in all && rest[0] in all && Succ(r, at) in all
            && RemoveAt(kept + rest, |kept|) == kept + rest[1..]
            && rest[0] !in [list] + (kept + rest[1..])
  {
    var r, at := [list] + (kept + rest), |kept| + 1;
    assert forall i :: 0 < i < |r| ==> r[i] == (kept + rest)[i - 1];
    assert RemoveAt(r, at) == [list] + (kept + rest[1..]);
  }

  lemma SweepStep<T>(s: seq<T>, visited: seq<T>, kept: seq<T>, rest: seq<T>, all: set<T>)
    requires rest != [] && visited + rest == s && Within(kept + rest, all)
    ensures visited + [rest[0]] + rest[1..] == s
    ensures Within(kept + rest[1..], all)
    ensures kept + [rest[0]] + rest[1..] == kept + rest
  {
    forall i | 0 <= i < |kept + rest[1..]|
      ensures (kept + rest[1..])[i] in all
    {
      assert (kept + rest[1..])[i] == (kept + rest)[if i < |kept| then i else i + 1];
    }
  }

  lemma {:induction false} KeptStep<T>(kept: seq<T>, rest: seq<T>, drop: set<T>)
    requires rest != []
    ensures kept + Kept(rest, drop) == (if rest[0] in drop then kept else kept + [rest[0]]) + Kept(rest[1..], drop)
  {
    var more := Kept(rest[1..], drop);
    assert Kept(rest, drop) == (if rest[0] in drop then [] else [rest[0]]) + more;
    hide Kept;
    assert [] + more == more;
    assert kept + ([rest[0]] + more) == kept + [rest[0]] + more;
  }

  /** LIST_FOR_EACH_SAFE over a body that removes the current entry and gives it up.
      It visits every entry once, in order. */
  method ForEachSafe<T>(ghost s: seq<Node<T>>, list: Node<T>, drop: set<Node<T>>) returns (ghost visited: seq<Node<T>>)
    requires Ring([list] + s)
    modifies [list] + s
    ensures visited == s && Ring([list] + Kept(s, drop))
  {
    hide Ring, Kept;
    ghost var kept: seq<Node<T>>, rest, all := [], s, set n | n in [list] + s;
    visited := [];
    assert kept + rest == s && kept + Kept(rest, drop) == Kept(s, drop);
    Standing(list, kept, rest);
    var pos := list.next;
    while pos != list
      invariant visited + rest == s && Within(kept + rest, all)
      invariant Ring([list] + (kept + rest))
      invariant pos == FirstOr(rest, list)
      invariant kept + Kept(rest, drop) == Kept(s, drop)
      decreases |rest|
    {
      Standing(list, kept, rest);
      SweepStep(s, visited, kept, rest, all);
      KeptStep(kept, rest, drop);
      var n := pos.next;
      if pos in drop {
        Drop(list, kept, rest, pos, all);
      } else {
        kept := kept + [pos];
      }
      visited, rest := visited + [pos], rest[1..];
      pos := n;
    }
    Standing(list, kept, rest);
    SweepEnd(visited, kept, drop);
    assert kept + rest == Kept(s, drop);
  }

  lemma SweepEnd<T>(visited: seq<T>, kept: seq<T>, drop: set<T>)
    ensures visited + [] == visited && kept + [] == kept && kept + Kept([], drop) == kept
  {
  }
}
