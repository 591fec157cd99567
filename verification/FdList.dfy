/** The package list itself, with the loops of fd_list.c, and what the timeout sweep
    and the teardown mean for the references. */
module FdList {
  import opened Bytes
  import opened Packages

  /** Dropping the list reference of several packages in turn. */
  function DropList(s: Store, hs: seq<Handle>): Store
  {
    if hs == [] then s
    else
      var t, h := DropList(s, hs[..|hs| - 1]), hs[|hs| - 1];
      if h in t.heap then Deref(t, h) else t
  }

  /** The packages a sweep hits; it reads the clock once a package and ends early when
      the clock fails. */
  function ExpiredOf(heap: map<Handle, Pkg>, list: seq<Handle>, clock: seq<nat>): (hs: seq<Handle>)
    ensures forall h :: h in hs ==> h in list
  {
    if list == [] then []
    else
      var i, h := |list| - 1, list[|list| - 1];
      ExpiredOf(heap, list[..i], clock) + if i < |clock| && h in heap && Expired(heap[h], clock[i]) then [h] else []
  }

  lemma {:induction false} ExpiredDistinct(heap: map<Handle, Pkg>, list: seq<Handle>, clock: seq<nat>)
    requires Distinct(list)
    ensures Distinct(ExpiredOf(heap, list, clock))
  {
    if list != [] {
      var i := |list| - 1;
      ExpiredDistinct(heap, list[..i], clock);
      var hs := ExpiredOf(heap, list[..i], clock);
      forall k | 0 <= k < |hs|
        ensures hs[k] != list[i]
      {
        assert hs[k] in list[..i];
      }
    }
  }

  /** A sweep hits exactly the packages that are expired at their own reading of the clock,
      as far as the clock was read. */
  lemma {:induction false} SweepHits(heap: map<Handle, Pkg>, list: seq<Handle>, clock: seq<nat>, h: Handle)
    requires h in heap
    ensures h in ExpiredOf(heap, list, clock) <==>
              exists i :: 0 <= i < |list| && i < |clock| && list[i] == h && Expired(heap[h], clock[i])
  {
    hide Expired;
    if list != [] {
      var n := |list| - 1;
      SweepHits(heap, list[..n], clock, h);
      if i :| 0 <= i < |list| && i < |clock| && list[i] == h && Expired(heap[h], clock[i]) {
        assert i < n ==> list[..n][i] == h;
      }
    }
  }

  /** `t` is `s` with one reference taken from each of `hs`. */
  ghost predicate TakesOneEach(s: Store, t: Store, hs: seq<Handle>)
  {
    && WellFormed(t) && t.next == s.next
    && (forall g :: g in t.heap <==> g in s.heap && (g !in hs || s.heap[g].refCnt > 1))
    && (forall g :: g in t.heap ==> t.heap[g] == s.heap[g].(refCnt := s.heap[g].refCnt - if g in hs then 1 else 0))
  }

  lemma TakesOneMore(s: Store, t: Store, hs: seq<Handle>, h: Handle)
    requires TakesOneEach(s, t, hs) && h in t.heap && h !in hs
    ensures TakesOneEach(s, Deref(t, h), hs + [h])
  {
    hide WellFormed, Deref;
    Bounds(t);
    DerefWellFormed(t, h);
    DerefCounts(t, h);
  }

  /** A batch of drops takes one reference from each of them and touches nothing else. */
  lemma {:induction false} DropListEffect(s: Store, hs: seq<Handle>)
    requires WellFormed(s) && Distinct(hs) && forall h :: h in hs ==> h in s.heap
    ensures TakesOneEach(s, DropList(s, hs), hs)
  {
    hide Deref, WellFormed;
    if hs == [] {
      Bounds(s);
    } else {
      var n := |hs| - 1;
      assert hs == hs[..n] + [hs[n]];
      assert hs[n] !in hs[..n];
      DropListEffect(s, hs[..n]);
      TakesOneMore(s, DropList(s, hs[..n]), hs[..n], hs[n]);
    }
  }

  function Drops(hs: seq<Handle>): seq<Event>
  {
    if hs == [] then [] else Drops(hs[..|hs| - 1]) + [Drop(hs[|hs| - 1])]
  }

  lemma OneDrop(l: Life, es: seq<Event>, h: Handle)
    requires h in Exec(l, es).store.heap && h < Exec(l, es).store.next
    ensures Exec(l, es + [Drop(h)]) ==
              Exec(l, es).(store := Deref(Exec(l, es).store, h), dropped := Exec(l, es).dropped + {h})
  {
    hide Deref;
    assert (es + [Drop(h)])[..|es|] == es;
  }

  /** A sweep or a teardown is a run of drops. */
  lemma {:induction false} BatchIsDrops(l: Life, hs: seq<Handle>)
    requires WellFormed(l.store) && Distinct(hs) && forall h :: h in hs ==> h in l.store.heap
    ensures Exec(l, Drops(hs)) == l.(store := DropList(l.store, hs), dropped := l.dropped + set h | h in hs)
  {
    hide Deref, WellFormed, Apply;
    if hs != [] {
      var n := |hs| - 1;
      assert hs == hs[..n] + [hs[n]];
      assert hs[n] !in hs[..n];
      BatchIsDrops(l, hs[..n]);
      DropListEffect(l.store, hs[..n]);
      Bounds(l.store);
      OneDrop(l, Drops(hs[..n]), hs[n]);
      assert l.dropped + (set h | h in hs) == l.dropped + (set h | h in hs[..n]) + {hs[n]};
    } else {
      assert l.dropped + {} == l.dropped;
    }
  }

  /** A whole sweep keeps every count right exactly when none of the packages it hits has
      lost its list reference before, in particular when no earlier sweep hit it. */
  lemma SweepExact(l: Life, hs: seq<Handle>)
    requires Counted(l) && Distinct(hs) && forall h :: h in hs ==> h in l.store.heap
    ensures Counted(Exec(l, Drops(hs))) <==> forall h :: h in hs ==> h !in l.dropped
  {
    hide WellFormed, DropList, Drops, Exec;
    BatchIsDrops(l, hs);
    DropListEffect(l.store, hs);
    Bounds(l.store);
    var l' := Exec(l, Drops(hs));
    if h :| h in hs && h in l.dropped {
      assert l.borrows[h] >= 1;
      assert !Counted(l');
    }
  }

  /** One sweep with the clock at `nowUs` for every package. */
  function Sweep(l: Life, nowUs: nat): Life
  {
    Exec(l, Drops(ExpiredOf(l.store.heap, l.store.list, seq(|l.store.list|, i => nowUs))))
  }

  const ONE_KEY := Key(3, 1)

  /** A package of one byte, put at time 0 and borrowed. */
  function Borrowed(): Life { Apply(Apply(EMPTY, Put(ONE_KEY, [7], 0)), Get(ONE_KEY)) }

  function OnlyPackage(refCnt: nat): Store { Store(map[0 := Pkg(ONE_KEY, [7], refCnt, 0)], [0], [], 1) }

  lemma BorrowedIs()
    ensures Borrowed() == Life(OnlyPackage(2), multiset{0}, {}, false)
  {
  }

  lemma SweepOfOne(l: Life, refCnt: nat, nowUs: nat)
    requires l.store == OnlyPackage(refCnt) && refCnt > 0 && 10000000 < nowUs < 0x1_0000_0000_0000_0000
    ensures Sweep(l, nowUs) == Apply(l, Drop(0))
  {
    hide Apply;
    var clock := seq(1, i => nowUs);
    assert ExpiredOf(l.store.heap, [0][..0], clock) == [];
    assert Expired(l.store.heap[0], nowUs);
    assert ExpiredOf(l.store.heap, [0], clock) == [0];
    assert Drops([0][..0]) == [] && Drops([0]) == [Drop(0)];
    assert Exec(l, [Drop(0)][..0]) == l;
  }

  /** Two sweeps while a package is borrowed: the borrower is left with freed memory. */
  lemma TwoSweepsExample()
    ensures var l := Sweep(Sweep(Borrowed(), 10000001), 20000002);
            0 in l.borrows && l.store.heap == map[] && l.store.freed == [0] && !l.fault && Apply(l, Return(0)).fault
  {
    hide Sweep, Expired, Borrowed, Apply;
    BorrowedIs();
    DropsDown();
    SweepOfOne(Borrowed(), 2, 10000001);
    SweepOfOne(Apply(Borrowed(), Drop(0)), 1, 20000002);
    ReturnFaults(Sweep(Sweep(Borrowed(), 10000001), 20000002), 0);
  }

  lemma ReturnFaults(l: Life, h: Handle)
    requires h in l.borrows && h !in l.store.heap
    ensures Apply(l, Return(h)).fault
  {
  }

  lemma DropsDown()
    ensures Apply(Borrowed(), Drop(0)) == Life(OnlyPackage(1), multiset{0}, {0}, false)
    ensures Apply(Apply(Borrowed(), Drop(0)), Drop(0)) == Life(Store(map[], [], [0], 1), multiset{0}, {0}, false)
    ensures Apply(Apply(Borrowed(), Drop(0)), Return(0)) == Life(Store(map[], [], [0], 1), multiset{}, {0}, false)
  {
    hide Borrowed, Search, Expired;
    BorrowedIs();
    assert RemoveEntry([0], 0) == [];
  }

  /** One sweep while a send has borrowed the package: of its two releases the first frees
      the package and the second touches freed memory. */
  lemma SweepInSendExample()
    ensures var l := Apply(Sweep(Borrowed(), 10000001), Return(0));
            l.store.freed == [0] && !l.fault && Apply(l, Drop(0)).fault
  {
    hide Sweep, Expired, Borrowed, Deref;
    BorrowedIs();
    DropsDown();
    SweepOfOne(Borrowed(), 2, 10000001);
  }

  /** The teardown leaves a package that was not swept before as long as anybody holds it,
      and a swept one only while two do. So it frees nothing under a holder exactly when
      each swept package has two of them, and keeps the counts right exactly when none is. */
  lemma TeardownExact(l: Life)
    requires Counted(l)
    ensures var l' := Exec(l, Drops(l.store.list));
            && (forall h :: h in l'.store.heap <==> h in l.store.heap && l.borrows[h] + ListRef(l, h) > 1)
            && ((forall h :: h in l.borrows ==> h in l'.store.heap) <==>
                  forall h :: h in l.store.heap && h in l.dropped ==> l.borrows[h] > 1)
            && (Counted(l') <==> forall h :: h in l.store.heap ==> h !in l.dropped)
  {
    hide Drops, Exec, WellFormed, DropList, TakesOneEach;
    var list := l.store.list;
    ListIsHeap(l.store);
    BatchIsDrops(l, list);
    DropListEffect(l.store, list);
    SweepExact(l, list);
    SurvivesTeardown(l, DropList(l.store, list));
  }

  lemma ListIsHeap(s: Store)
    requires WellFormed(s)
    ensures Distinct(s.list) && forall h :: h in s.list <==> h in s.heap
  {
  }

  lemma SurvivesTeardown(l: Life, t: Store)
    requires Counted(l) && TakesOneEach(l.store, t, l.store.list)
    ensures forall h :: h in t.heap <==> h in l.store.heap && l.borrows[h] + ListRef(l, h) > 1
    ensures (forall h :: h in l.borrows ==> h in t.heap) <==>
              forall h :: h in l.store.heap && h in l.dropped ==> l.borrows[h] > 1
  {
    hide WellFormed;
    ListIsHeap(l.store);
    Bounds(l.store);
  }

  /** How far the teardown is: `k` original entries visited, `i` of them still listed. */
  ghost predicate Freeing(s0: Store, s: Store, k: nat, i: nat)
  {
    && k <= |s0.list| && i <= |s.list| && s.list[i..] == s0.list[k..]
    && s == DropList(s0, s0.list[..k]) && TakesOneEach(s0, s, s0.list[..k])
  }

  lemma FreeingStarts(s: Store)
    requires WellFormed(s)
    ensures Freeing(s, s, 0, 0)
  {
    hide WellFormed;
    Bounds(s);
  }

  lemma FreeingVisits(s0: Store, s: Store, k: nat, i: nat)
    requires WellFormed(s0) && Freeing(s0, s, k, i) && i < |s.list|
    ensures k < |s0.list| && s.list[i] == s0.list[k] && s.list[i] in s.heap && s0.list[k] !in s0.list[..k]
  {
    assert s.list[i..][0] == s.list[i];
    assert s0.list[k] !in s0.list[..k];
  }

  lemma FreeingGoesOn(s0: Store, s: Store, k: nat, i: nat)
    requires WellFormed(s0) && Freeing(s0, s, k, i) && i < |s.list| && s.list[i] in s.heap
    ensures var h := s.list[i];
            Freeing(s0, Deref(s, h), k + 1, if s.heap[h].refCnt > 1 then i + 1 else i)
  {
    hide WellFormed, Deref, DropList;
    FreeingVisits(s0, s, k, i);
    var h := s.list[i];
    assert s0.list[..k + 1] == s0.list[..k] + [h];
    TakesOneMore(s0, s, s0.list[..k], h);
    DropMore(s0, s0.list[..k], h);
    NextAfterDeref(s, i);
    SuffixSteps(s.list, i, s0.list, k);
  }

  lemma SuffixSteps(a: seq<Handle>, i: nat, b: seq<Handle>, k: nat)
    requires i < |a| && k < |b| && a[i..] == b[k..]
    ensures a[i + 1..] == b[k + 1..]
  {
    assert a[i..][1..] == a[i + 1..] && b[k..][1..] == b[k + 1..];
  }

  /** How far a sweep is: `k` original entries visited, `i` of them still listed. */
  ghost predicate Sweeping(s0: Store, clock: seq<nat>, s: Store, k: nat, i: nat)
  {
    && k <= |s0.list| && k <= |clock| && i <= |s.list| && s.list[i..] == s0.list[k..]
    && s == DropList(s0, ExpiredOf(s0.heap, s0.list[..k], clock))
    && TakesOneEach(s0, s, ExpiredOf(s0.heap, s0.list[..k], clock))
  }

  lemma SweepStarts(s: Store, clock: seq<nat>)
    requires WellFormed(s)
    ensures Sweeping(s, clock, s, 0, 0)
  {
    hide WellFormed;
    Bounds(s);
  }

  lemma SweepVisits(s0: Store, clock: seq<nat>, s: Store, k: nat, i: nat)
    requires WellFormed(s0) && Sweeping(s0, clock, s, k, i) && i < |s.list|
    ensures k < |s0.list|
    ensures var h := s.list[i];
            && h == s0.list[k] && h in s0.heap && h in s.heap && s.heap[h] == s0.heap[h]
            && h !in ExpiredOf(s0.heap, s0.list[..k], clock)
  {
    var h := s.list[i];
    assert s.list[i..][0] == h;
    assert h !in s0.list[..k];
  }

  lemma ExpiredMore(heap: map<Handle, Pkg>, list: seq<Handle>, clock: seq<nat>, k: nat)
    requires k < |list| && k < |clock| && list[k] in heap
    ensures ExpiredOf(heap, list[..k + 1], clock) ==
              ExpiredOf(heap, list[..k], clock) + if Expired(heap[list[k]], clock[k]) then [list[k]] else []
  {
    hide Expired;
    assert list[..k + 1][..k] == list[..k];
  }

  lemma DropMore(s: Store, hs: seq<Handle>, h: Handle)
    requires h in DropList(s, hs).heap
    ensures DropList(s, hs + [h]) == Deref(DropList(s, hs), h)
  {
    hide Deref;
    assert (hs + [h])[..|hs|] == hs;
  }

  /** Where the saved next entry is once the visited one has been released. */
  lemma NextAfterDeref(s: Store, i: nat)
    requires WellFormed(s) && i < |s.list| && s.list[i] in s.heap
    ensures var h, t := s.list[i], Deref(s, s.list[i]);
            var j := if s.heap[h].refCnt > 1 then i + 1 else i;
            j <= |t.list| && t.list[j..] == s.list[i + 1..]
  {
    ListedOnce(s, i);
    hide WellFormed;
    RemoveAt(s.list, i);
    assert (s.list[..i] + s.list[i + 1..])[i..] == s.list[i + 1..];
  }

  lemma SweepGoesOn(s0: Store, clock: seq<nat>, s: Store, k: nat, i: nat)
    requires WellFormed(s0) && Sweeping(s0, clock, s, k, i) && i < |s.list| && k < |clock|
    requires s.list[i] in s.heap
    ensures var h := s.list[i];
            if Expired(s.heap[h], clock[k])
            then Sweeping(s0, clock, Deref(s, h), k + 1, if s.heap[h].refCnt > 1 then i + 1 else i)
            else Sweeping(s0, clock, s, k + 1, i + 1)
  {
    hide Expired, WellFormed, Deref, DropList, ExpiredOf;
    SweepVisits(s0, clock, s, k, i);
    var h := s.list[i];
    var hs := ExpiredOf(s0.heap, s0.list[..k], clock);
    ExpiredMore(s0.heap, s0.list, clock, k);
    SuffixSteps(s.list, i, s0.list, k);
    if Expired(s.heap[h], clock[k]) {
      assert ExpiredOf(s0.heap, s0.list[..k + 1], clock) == hs + [h];
      TakesOneMore(s0, s, hs, h);
      DropMore(s0, hs, h);
      NextAfterDeref(s, i);
    } else {
      assert ExpiredOf(s0.heap, s0.list[..k + 1], clock) == hs;
    }
  }

  lemma ListedOnce(s: Store, i: nat)
    requires WellFormed(s) && i < |s.list|
    ensures forall j :: 0 <= j < i ==> s.list[j] != s.list[i]
  {
  }

  class FdList {
    var heap: map<Handle, Pkg>
    var list: seq<Handle>
    var next: Handle
    ghost var freed: seq<Handle>

    ghost function View(): Store
      reads this
    {
      Store(heap, list, freed, next)
    }

    constructor ()
      ensures View() == EMPTY.store
    {
      heap, list, next, freed := map[], [], 0, [];
    }

    method SearchPkg(key: Key) returns (f: Found)
      ensures f == Search(heap, list, key)
    {
      var i := 0;
      while i < |list|
        invariant i <= |list| && Search(heap, list, key) == Search(heap, list[i..], key)
      {
        if list[i] in heap && heap[list[i]].key == key {
          return At(list[i]);
        }
        i := i + 1;
      }
      f := Nowhere;
    }

    method DerefPkg(h: Handle)
      requires WellFormed(View()) && h in heap
      modifies this
      ensures View() == Deref(old(View()), h) && WellFormed(View())
    {
      hide WellFormed, RemoveEntry;
      DerefWellFormed(View(), h);
      Bounds(View());
      ghost var before := heap;
      heap := heap[h := heap[h].(refCnt := heap[h].refCnt - 1)];
      if heap[h].refCnt == 0 {
        list := RemoveEntry(list, h);
        heap := heap - {h};
        freed := freed + [h];
        assert heap == before - {h};
      }
    }

    method PutPkg(key: Key, buff: seq<byte>, nowUs: nat) returns (ok: bool)
      requires WellFormed(View())
      modifies this
      ensures (View(), ok) == Packages.PutPkg(old(View()), key, buff, nowUs) && WellFormed(View())
    {
      PutWellFormed(View(), key, buff, nowUs);
      var tmp := SearchPkg(key);
      if tmp.At? {
        return false;
      }
      heap := heap[next := Pkg(key, buff, 1, nowUs)];
      list := list + [next];
      next := next + 1;
      ok := true;
    }

    method GetPkg(key: Key) returns (f: Found)
      requires WellFormed(View())
      modifies this
      ensures f == Search(old(heap), old(list), key) && WellFormed(View())
      ensures View() == if f.At? then RefPkg(old(View()), f.h) else old(View())
    {
      hide WellFormed;
      f := SearchPkg(key);
      if f.At? {
        RefWellFormed(View(), f.h);
        heap := heap[f.h := heap[f.h].(refCnt := heap[f.h].refCnt + 1)];
      }
    }

    method ReleasePkgByIndex(key: Key)
      requires WellFormed(View())
      modifies this
      ensures var f := Search(old(heap), old(list), key);
              View() == if f.At? then Deref(old(View()), f.h) else old(View())
      ensures WellFormed(View())
    {
      var f := SearchPkg(key);
      if f.At? {
        DerefPkg(f.h);
      }
    }

    /** FdListFreePkgList: one reference less for every package. */
    method FreePkgList()
      requires WellFormed(View())
      modifies this
      ensures View() == DropList(old(View()), old(list)) && WellFormed(View())
    {
      hide WellFormed, Deref, DropList, TakesOneEach;
      ghost var s0, k := View(), 0;
      FreeingStarts(s0);
      var i: nat := 0;
      while i < |list|
        invariant WellFormed(View()) && Freeing(s0, View(), k, i)
        decreases |list| - i
      {
        FreeingVisits(s0, View(), k, i);
        FreeingGoesOn(s0, View(), k, i);
        var tmp := list[i];
        var last := heap[tmp].refCnt <= 1;
        DerefPkg(tmp);
        k := k + 1;
        if !last {
          i := i + 1;
        }
      }
      assert s0.list[..k] == s0.list;
    }

    /** LIST_FOR_EACH_SAFE over the list while the visited entry may go away: every
        original entry is visited once, and the sweep is the batch of drops. */
    method DelTimeoutPkg(clock: seq<nat>) returns (clockOk: bool)
      requires WellFormed(View())
      modifies this
      ensures View() == DropList(old(View()), ExpiredOf(old(heap), old(list), clock))
      ensures clockOk <==> |clock| >= |old(list)|
    {
      hide WellFormed, Deref, DropList, ExpiredOf, Expired, TakesOneEach;
      ghost var s0 := View();
      var i, ticks: nat := 0, 0;
      SweepStarts(s0, clock);
      while i < |list|
        invariant WellFormed(View()) && Sweeping(s0, clock, View(), ticks, i)
        decreases |list| - i
      {
        SweepVisits(s0, clock, View(), ticks, i);
        var tmp := list[i];
        if ticks == |clock| {
          NoMoreExpired(s0.heap, s0.list, clock, ticks);
          return false;
        }
        SweepGoesOn(s0, clock, View(), ticks, i);
        var expired, last := Expired(heap[tmp], clock[ticks]), heap[tmp].refCnt <= 1;
        ticks := ticks + 1;
        if expired {
          DerefPkg(tmp);
        }
        if !expired || !last {
          i := i + 1;
        }
      }
      assert s0.list[..ticks] == s0.list;
      clockOk := true;
    }
  }

  lemma {:induction false} NoMoreExpired(heap: map<Handle, Pkg>, list: seq<Handle>, clock: seq<nat>, k: nat)
    requires |clock| == k <= |list|
    ensures ExpiredOf(heap, list, clock) == ExpiredOf(heap, list[..k], clock)
    decreases |list|
  {
    if k < |list| {
      NoMoreExpired(heap, list[..|list| - 1], clock, k);
      assert list[..|list| - 1][..k] == list[..k];
    } else {
      assert list[..k] == list;
    }
  }
}
