/** Temporary packages of the posix proxy: reference-counted buffers on a list, found
    by (fd, teeIndex), borrowed and returned by several threads. */
module Packages {
  import opened Bytes

  type Handle = nat

  datatype Key = Key(fd: int, teeIndex: nat)

  datatype Pkg = Pkg(key: Key, buff: seq<byte>, refCnt: nat, createdUs: nat)

  /** `heap` is what is allocated, `list` the order of the list; `freed` is history and
      `next` the handle of the next allocation. */
  datatype Store = Store(heap: map<Handle, Pkg>, list: seq<Handle>, freed: seq<Handle>, next: Handle)

  /** What is true of the store under every use: handles are never reused, the list
      holds each allocated package once, and keys on it are pairwise distinct. */
  ghost predicate WellFormed(s: Store)
  {
    && (forall h :: h in s.heap ==> h < s.next)
    && (forall h :: h in s.heap <==> h in s.list)
    && Distinct(s.list)
    && (forall h :: h in s.heap ==> s.heap[h].refCnt >= 1)
    && (forall h, g :: h in s.heap && g in s.heap && s.heap[h].key == s.heap[g].key ==> h == g)
    && (forall h :: h in s.freed ==> h < s.next && h !in s.heap)
    && Distinct(s.freed)
    && (forall h :: 0 <= h < s.next ==> h in s.heap || h in s.freed)
  }

  datatype Found = Nowhere | At(h: Handle)

  function Search(heap: map<Handle, Pkg>, list: seq<Handle>, key: Key): (f: Found)
    ensures f.At? ==> f.h in list && f.h in heap && heap[f.h].key == key
    ensures f.Nowhere? ==> forall h :: h in list && h in heap ==> heap[h].key != key
  {
    if list == [] then Nowhere
    else if list[0] in heap && heap[list[0]].key == key then At(list[0])
    else Search(heap, list[1..], key)
  }

  function RemoveEntry(list: seq<Handle>, h: Handle): (r: seq<Handle>)
    ensures forall g :: g in r ==> g in list
    ensures forall g :: g in list && g != h ==> g in r
  {
    if list == [] then [] else if list[0] == h then list[1..] else [list[0]] + RemoveEntry(list[1..], h)
  }

  /** DerefPkg: the last reference unlinks and frees. */
  function Deref(s: Store, h: Handle): Store
    requires h in s.heap
  {
    var p := s.heap[h];
    if p.refCnt <= 1 then s.(heap := s.heap - {h}, list := RemoveEntry(s.list, h), freed := s.freed + [h])
    else s.(heap := s.heap[h := p.(refCnt := p.refCnt - 1)])
  }

  function PutPkg(s: Store, key: Key, buff: seq<byte>, nowUs: nat): (r: (Store, bool))
  {
    if Search(s.heap, s.list, key).At? then (s, false)
    else (Store(s.heap[s.next := Pkg(key, buff, 1, nowUs)], s.list + [s.next], s.freed, s.next + 1), true)
  }

  function RefPkg(s: Store, h: Handle): Store
    requires h in s.heap
  {
    s.(heap := s.heap[h := s.heap[h].(refCnt := s.heap[h].refCnt + 1)])
  }

  function TimeoutUs(buffLen: nat): nat
  {
    (buffLen / 0x4000_0000 + if buffLen % 0x4000_0000 != 0 then 1 else 0) * 10000000
  }

  /** The unsigned difference wraps when the clock went backwards. */
  predicate Expired(p: Pkg, nowUs: nat)
  {
    (nowUs - p.createdUs) % 0x1_0000_0000_0000_0000 > TimeoutUs(|p.buff|)
  }

  /** Ten seconds for every GiB begun; a clock that went backwards counts as 2^64 us ahead. */
  lemma ExpiredExact(p: Pkg, nowUs: nat, gib: nat)
    requires p.createdUs < 0x1_0000_0000_0000_0000 && nowUs < 0x1_0000_0000_0000_0000
    requires |p.buff| <= 0x4000_0000 * gib && (gib > 0 ==> 0x4000_0000 * (gib - 1) < |p.buff|)
    ensures Expired(p, nowUs) <==>
              nowUs - p.createdUs + (if nowUs < p.createdUs then 0x1_0000_0000_0000_0000 else 0) > 10000000 * gib
  {
    hide TimeoutUs;
    TimeoutIs(|p.buff|, gib);
    Wraps(nowUs - p.createdUs);
  }

  lemma TimeoutIs(len: nat, gib: nat)
    requires len <= 0x4000_0000 * gib && (gib > 0 ==> 0x4000_0000 * (gib - 1) < len)
    ensures TimeoutUs(len) == 10000000 * gib
  {
  }

  lemma Wraps(n: int)
    requires -0x1_0000_0000_0000_0000 < n < 0x1_0000_0000_0000_0000
    ensures n % 0x1_0000_0000_0000_0000 == n + if n < 0 then 0x1_0000_0000_0000_0000 else 0
  {
  }

  // The heap part proved against the above: lists of handles, updated in place.

  lemma {:induction false} RemoveAt(list: seq<Handle>, k: nat)
    requires k < |list| && forall i :: 0 <= i < k ==> list[i] != list[k]
    ensures RemoveEntry(list, list[k]) == list[..k] + list[k + 1..]
  {
    hide RemoveEntry;
    RemoveFirst(list, list[k]);
    if k > 0 {
      RemoveAt(list[1..], k - 1);
      CutBehind(list, k);
    }
  }

  lemma {:induction false} RemoveFirst(list: seq<Handle>, h: Handle)
    requires list != []
    ensures RemoveEntry(list, h) == if list[0] == h then list[1..] else [list[0]] + RemoveEntry(list[1..], h)
  {
  }

  lemma DistinctRemove(list: seq<Handle>, h: Handle)
    requires h in list && Distinct(list)
    ensures var r := RemoveEntry(list, h);
            && (forall g :: g in r <==> g in list && g != h)
            && Distinct(r)
  {
    var k :| 0 <= k < |list| && list[k] == h;
    RemoveAt(list, k);
  }

  lemma DerefWellFormed(s: Store, h: Handle)
    requires WellFormed(s) && h in s.heap
    ensures WellFormed(Deref(s, h))
  {
    hide RemoveEntry;
    if s.heap[h].refCnt == 1 {
      LastWellFormed(s, h);
    }
  }

  lemma LastWellFormed(s: Store, h: Handle)
    requires WellFormed(s) && h in s.heap
    ensures WellFormed(s.(heap := s.heap - {h}, list := RemoveEntry(s.list, h), freed := s.freed + [h]))
  {
    hide RemoveEntry;
    DistinctRemove(s.list, h);
    FreedMore(s.freed, h);
    Unlinked(s, h, RemoveEntry(s.list, h), s.freed + [h]);
  }

  lemma FreedMore(freed: seq<Handle>, h: Handle)
    requires h !in freed && Distinct(freed)
    ensures Distinct(freed + [h]) && forall g :: g in freed + [h] <==> g in freed || g == h
  {
  }

  lemma Unlinked(s: Store, h: Handle, list: seq<Handle>, freed: seq<Handle>)
    requires WellFormed(s) && h in s.heap && Distinct(list) && Distinct(freed)
    requires forall g :: g in list <==> g in s.list && g != h
    requires forall g :: g in freed <==> g in s.freed || g == h
    ensures WellFormed(s.(heap := s.heap - {h}, list := list, freed := freed))
  {
  }

  lemma PutWellFormed(s: Store, key: Key, buff: seq<byte>, nowUs: nat)
    requires WellFormed(s)
    ensures WellFormed(PutPkg(s, key, buff, nowUs).0)
    ensures !PutPkg(s, key, buff, nowUs).1 <==> exists h :: h in s.heap && s.heap[h].key == key
  {
    var s' := PutPkg(s, key, buff, nowUs).0;
    if s'.next != s.next {
      forall i | 0 <= i < |s.list|
        ensures s'.list[i] != s.next
      {
        assert s.list[i] in s.heap;
      }
    }
  }

  lemma RefWellFormed(s: Store, h: Handle)
    requires WellFormed(s) && h in s.heap
    ensures WellFormed(RefPkg(s, h))
  {
  }

  lemma Bounds(s: Store)
    requires WellFormed(s)
    ensures forall h :: h in s.heap ==> h < s.next
    ensures forall h :: h in s.heap ==> s.heap[h].refCnt >= 1
  {
  }

  lemma SearchUnique(s: Store, h: Handle)
    requires WellFormed(s) && h in s.heap
    ensures Search(s.heap, s.list, s.heap[h].key) == At(h)
  {
  }

  // Lifetimes: who holds which reference.

  /** `borrows` counts what FdListGetPkg handed out and is not yet returned; `dropped`
      holds the packages whose list reference has been given up. `fault` is a use of
      freed memory. */
  datatype Life = Life(store: Store, borrows: multiset<Handle>, dropped: set<Handle>, fault: bool)

  /** One critical section each. Drop is every release that is not a return: by index,
      by the second release of a send, by one hit of the timeout sweep or the teardown. */
  datatype Event =
    | Put(key: Key, buff: seq<byte>, nowUs: nat)
    | Get(key: Key)
    | Return(h: Handle)
    | Drop(h: Handle)

  function GetStep(l: Life, h: Handle): Life
    requires h in l.store.heap
  {
    l.(store := RefPkg(l.store, h), borrows := l.borrows + multiset{h})
  }

  function ReturnStep(l: Life, h: Handle): Life
  {
    if h !in l.store.heap then l.(fault := true)
    else l.(store := Deref(l.store, h), borrows := l.borrows - multiset{h})
  }

  function DropStep(l: Life, h: Handle): Life
  {
    if h !in l.store.heap then l.(fault := true)
    else l.(store := Deref(l.store, h), dropped := l.dropped + {h})
  }

  function Apply(l: Life, e: Event): Life
  {
    match e
    case Put(key, buff, now) => l.(store := PutPkg(l.store, key, buff, now).0)
    case Get(key) =>
      var f := Search(l.store.heap, l.store.list, key);
      if f.Nowhere? then l else GetStep(l, f.h)
    case Return(h) => if h in l.borrows then ReturnStep(l, h) else l
    case Drop(h) => if h < l.store.next then DropStep(l, h) else l
  }

  function Exec(l: Life, es: seq<Event>): Life
  {
    if es == [] then l else Apply(Exec(l, es[..|es| - 1]), es[|es| - 1])
  }

  const EMPTY := Life(Store(map[], [], [], 0), multiset{}, {}, false)

  function ListRef(l: Life, h: Handle): nat { if h in l.dropped then 0 else 1 }

  /** Every count is exactly the references that exist. */
  ghost predicate Counted(l: Life)
  {
    && !l.fault
    && WellFormed(l.store)
    && (forall h :: h in l.store.heap ==> l.store.heap[h].refCnt == l.borrows[h] + ListRef(l, h))
    && (forall h :: h in l.borrows ==> h in l.store.heap)
    && (forall h :: h in l.dropped ==> h < l.store.next)
  }

  /** The list reference of `h` is not there any more. */
  predicate DropsTwice(l: Life, e: Event)
  {
    e.Drop? && e.h < l.store.next && (e.h !in l.store.heap || e.h in l.dropped)
  }

  /** Only the count of `h` changes, and `h` goes when it was the last. */
  lemma DerefCounts(s: Store, h: Handle)
    requires h in s.heap && s.heap[h].refCnt >= 1
    ensures var s' := Deref(s, h);
            && s'.next == s.next
            && (forall g :: g in s'.heap <==> g in s.heap && (g != h || s.heap[h].refCnt > 1))
            && (forall g :: g in s'.heap ==>
                  s'.heap[g] == s.heap[g].(refCnt := s.heap[g].refCnt - if g == h then 1 else 0))
            && (s.heap[h].refCnt == 1 ==> h in s'.freed)
  {
  }

  lemma PutCounted(l: Life, key: Key, buff: seq<byte>, now: nat)
    requires Counted(l)
    ensures Counted(l.(store := PutPkg(l.store, key, buff, now).0))
  {
    hide WellFormed;
    PutWellFormed(l.store, key, buff, now);
    Bounds(l.store);
  }

  lemma GetCounted(l: Life, h: Handle)
    requires Counted(l) && h in l.store.heap
    ensures Counted(GetStep(l, h))
  {
    hide WellFormed;
    RefWellFormed(l.store, h);
  }

  lemma ReturnCounted(l: Life, h: Handle)
    requires Counted(l) && h in l.borrows
    ensures Counted(ReturnStep(l, h))
  {
    hide WellFormed, Deref;
    DerefWellFormed(l.store, h);
    Bounds(l.store);
    DerefCounts(l.store, h);
    OneLess(l.borrows, h);
  }

  lemma OneLess(b: multiset<Handle>, h: Handle)
    requires h in b
    ensures forall g :: (b - multiset{h})[g] == b[g] - if g == h then 1 else 0
    ensures forall g :: g in b - multiset{h} ==> g in b
  {
  }

  lemma DropCounted(l: Life, h: Handle)
    requires Counted(l) && h in l.store.heap && h !in l.dropped
    ensures Counted(DropStep(l, h))
  {
    hide WellFormed, Deref;
    DerefWellFormed(l.store, h);
    Bounds(l.store);
    DerefCounts(l.store, h);
  }

  lemma SafeStep(l: Life, e: Event)
    requires Counted(l) && !DropsTwice(l, e)
    ensures Counted(Apply(l, e))
  {
    hide Counted, GetStep, ReturnStep, DropStep, PutPkg;
    match e
    case Put(key, buff, now) => PutCounted(l, key, buff, now);
    case Get(key) =>
      var f := Search(l.store.heap, l.store.list, key);
      if f.At? { GetCounted(l, f.h); }
    case Return(h) => if h in l.borrows { ReturnCounted(l, h); }
    case Drop(h) => if h < l.store.next { DropCounted(l, h); }
  }

  /** A step keeps the counts right exactly when it does not give up a list reference
      that is already gone. */
  lemma StepExact(l: Life, e: Event)
    requires Counted(l)
    ensures Counted(Apply(l, e)) <==> !DropsTwice(l, e)
  {
    if !DropsTwice(l, e) {
      SafeStep(l, e);
    }
  }

  ghost predicate AlwaysCounted(es: seq<Event>)
  {
    Counted(Exec(EMPTY, es)) && (es == [] || AlwaysCounted(es[..|es| - 1]))
  }

  ghost predicate NeverDropsTwice(es: seq<Event>)
  {
    es == [] || (!DropsTwice(Exec(EMPTY, es[..|es| - 1]), es[|es| - 1]) && NeverDropsTwice(es[..|es| - 1]))
  }

  /** Over whole runs, from the empty list. */
  lemma {:induction false} RunExact(es: seq<Event>)
    ensures AlwaysCounted(es) <==> NeverDropsTwice(es)
  {
    if es != [] {
      hide Counted, DropsTwice, Apply;
      RunExact(es[..|es| - 1]);
      if AlwaysCounted(es[..|es| - 1]) {
        StepExact(Exec(EMPTY, es[..|es| - 1]), es[|es| - 1]);
      }
    }
  }

  /** What such a run guarantees: a borrowed package is allocated and listed, no buffer
      is freed twice, and every package ever put is either listed or freed. */
  lemma Lifetimes(es: seq<Event>)
    requires NeverDropsTwice(es)
    ensures var l := Exec(EMPTY, es);
            && !l.fault
            && (forall h :: h in l.borrows ==> h in l.store.heap && h in l.store.list && h !in l.store.freed)
            && (forall h :: h in l.store.heap ==> l.store.heap[h].refCnt == l.borrows[h] + ListRef(l, h) >= 1)
            && Distinct(l.store.freed)
            && (forall h :: 0 <= h < l.store.next ==> (h in l.store.freed <==> h !in l.store.list))
            && (forall h, g :: h in l.store.heap && g in l.store.heap && h != g ==>
                  l.store.heap[h].key != l.store.heap[g].key)
  {
    hide Exec;
    RunExact(es);
  }

  function Returns(h: Handle, n: nat): (es: seq<Event>)
  {
    if n == 0 then [] else Returns(h, n - 1) + [Return(h)]
  }

  /** Why the condition is needed: after a second drop of a package that somebody still
      holds, as soon as the other holders have returned it, it is freed under the last. */
  lemma {:induction false} SecondDropFreesBorrowed(l: Life, h: Handle)
    requires Counted(l) && h in l.store.heap && h in l.dropped
    ensures var l' := Exec(Apply(l, Drop(h)), Returns(h, l.borrows[h] - 1));
            h in l'.borrows && h !in l'.store.heap && h in l'.store.freed
  {
    hide WellFormed, Apply, Deref, Exec, Returns;
    Bounds(l.store);
    DropOf(l, h);
    ReturnsCountDown(Apply(l, Drop(h)), h, l.borrows[h] - 1);
  }

  lemma DropOf(l: Life, h: Handle)
    requires h in l.store.heap && h < l.store.next && l.store.heap[h].refCnt >= 1
    ensures var l' := Apply(l, Drop(h));
            && l'.borrows == l.borrows
            && (l.store.heap[h].refCnt > 1 ==>
                  h in l'.store.heap && l'.store.heap[h].refCnt == l.store.heap[h].refCnt - 1)
            && (l.store.heap[h].refCnt == 1 ==> h !in l'.store.heap && h in l'.store.freed)
  {
    hide Deref;
    DerefCounts(l.store, h);
  }

  lemma ReturnOf(l: Life, h: Handle)
    requires h in l.store.heap && l.store.heap[h].refCnt >= 1 && h in l.borrows
    ensures var l' := Apply(l, Return(h));
            && l'.borrows[h] == l.borrows[h] - 1
            && (l.store.heap[h].refCnt > 1 ==>
                  h in l'.store.heap && l'.store.heap[h].refCnt == l.store.heap[h].refCnt - 1)
            && (l.store.heap[h].refCnt == 1 ==> h !in l'.store.heap && h in l'.store.freed)
  {
    hide Deref;
    DerefCounts(l.store, h);
  }

  lemma OneReturn(l: Life, h: Handle, k: nat)
    ensures Exec(l, Returns(h, 0)) == l
    ensures Exec(l, Returns(h, k + 1)) == Apply(Exec(l, Returns(h, k)), Return(h))
  {
    var es := Returns(h, k);
    assert (es + [Return(h)])[..|es|] == es;
  }

  /** As many returns as there are counts bring the package down. */
  lemma {:induction false} ReturnsCountDown(l: Life, h: Handle, n: nat)
    requires if n == 0 then h !in l.store.heap && h in l.store.freed
             else h in l.store.heap && l.store.heap[h].refCnt == n
    requires l.borrows[h] > n
    ensures var l' := Exec(l, Returns(h, n));
            && l'.borrows[h] == l.borrows[h] - n
            && h !in l'.store.heap && h in l'.store.freed
  {
    hide Exec, Returns, Apply;
    OneReturn(l, h, if n == 0 then 0 else n - 1);
    if n > 0 {
      CountingReturns(l, h, n, n - 1);
      ReturnOf(Exec(l, Returns(h, n - 1)), h);
    }
  }

  lemma {:induction false} CountingReturns(l: Life, h: Handle, n: nat, k: nat)
    requires h in l.store.heap && l.store.heap[h].refCnt == n && l.borrows[h] > n && k < n
    ensures var l' := Exec(l, Returns(h, k));
            && h in l'.store.heap && l'.store.heap[h].refCnt == n - k
            && l'.borrows[h] == l.borrows[h] - k
  {
    hide Exec, Returns, Apply;
    OneReturn(l, h, if k == 0 then 0 else k - 1);
    if k > 0 {
      CountingReturns(l, h, n, k - 1);
      ReturnOf(Exec(l, Returns(h, k - 1)), h);
    }
  }
}
