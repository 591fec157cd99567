/** What one call leaves behind: the last put closes and frees, a get and its put cancel,
    and a context that is opened and finalized leaves nothing but its record. */
module ContextLife {
  import opened Contexts

  lemma LastMoves(acts: multiset<Act>, c: nat)
    requires Holding(c) in acts
    ensures var last := Move(acts, Holding(c), multiset{Last(c)});
            && Move(last, Last(c), multiset{Closed(c)}) == acts - multiset{Holding(c)} + multiset{Closed(c)}
            && Move(Move(last, Last(c), multiset{Closed(c)}), Closed(c), multiset{}) == acts - multiset{Holding(c)}
            && Move(acts, Holding(c), multiset{}) == acts - multiset{Holding(c)}
  {
    var rest := acts - multiset{Holding(c)};
    assert rest + multiset{Last(c)} - multiset{Last(c)} == rest;
    assert rest + multiset{Closed(c)} - multiset{Closed(c)} == rest;
    assert rest + multiset{} == rest;
  }

  /** A put gives up one reference; exactly the last one closes the descriptor and frees. */
  lemma PutExact(s: Library, c: nat)
    requires Inv(s) && Holding(c) in s.acts && c < |s.ctxs|
    ensures var t, last := PutWhole(s, c), s.ctxs[c].ops == 1;
            && t.listed == s.listed && t.lock == s.lock && t.acts == s.acts - multiset{Holding(c)}
            && t.ctxs == s.ctxs[c := Ctx(if last then -1 else s.ctxs[c].fd, s.ctxs[c].ops - 1)]
            && t.open == (if last then s.open - {s.ctxs[c].fd} else s.open)
            && t.frees == if last then s.frees + multiset{c} else s.frees
  {
    hide Inv, Move, PutWhole;
    PutCall(s, c);
    LastMoves(s.acts, c);
    if s.ctxs[c].ops == 1 {
      assert s.ctxs[c := Ctx(s.ctxs[c].fd, 0)][c := Ctx(-1, 0)] == s.ctxs[c := Ctx(-1, 0)];
    }
  }

  lemma GotIs(s: Library, fd: int)
    requires Inv(s) && s.lock.Unlocked? && Lookup(s, fd, 0) < |s.listed|
    ensures var c := s.listed[Lookup(s, fd, 0)];
            && c < |s.ctxs| && s.ctxs[c].ops >= 1 && Inv(Apply(Apply(s, Find(fd)), Got))
            && Apply(Apply(s, Find(fd)), Got) ==
               s.(ctxs := s.ctxs[c := Ctx(s.ctxs[c].fd, s.ctxs[c].ops + 1)], acts := s.acts + multiset{Holding(c)})
  {
    hide Inv, Lookup;
    var c := s.listed[Lookup(s, fd, 0)];
    ListedIs(s, c);
    StepInv(s, Find(fd));
    StepInv(Apply(s, Find(fd)), Got);
  }

  /** Getting a listed context and putting it again changes nothing. */
  lemma GetThenPut(s: Library, fd: int)
    requires Inv(s) && s.lock.Unlocked? && Lookup(s, fd, 0) < |s.listed|
    ensures var c := s.listed[Lookup(s, fd, 0)]; PutWhole(Apply(Apply(s, Find(fd)), Got), c) == s
  {
    hide Inv, Apply, PutWhole, Lookup;
    var c, acts := s.listed[Lookup(s, fd, 0)], s.acts;
    GotIs(s, fd);
    PutExact(Apply(Apply(s, Find(fd)), Got), c);
    assert s.ctxs[c := Ctx(s.ctxs[c].fd, s.ctxs[c].ops + 1)][c := s.ctxs[c]] == s.ctxs;
    assert acts + multiset{Holding(c)} - multiset{Holding(c)} == acts;
  }

  lemma ListedIs(s: Library, c: nat)
    requires Inv(s) && c in s.listed
    ensures c < |s.ctxs| && s.ctxs[c].ops >= 1
  {
    assert Counted(s, c);
  }

  /** A context that is opened and then finalized with nobody using it is off the list,
      closed and freed. */
  lemma OpenThenFinalize(s: Library, fd: int)
    requires Inv(s) && s.lock.Unlocked? && fd >= 0 && fd !in s.open
    ensures var n := |s.ctxs|;
            var lib := Apply(Apply(Apply(Apply(s, Init(fd)), Insert(n)), Inserted), Put(n));
            PutWhole(Apply(lib, Remove(fd)), n) ==
            Library(s.ctxs + [Ctx(-1, 0)], s.listed, Unlocked, s.acts, s.open, s.frees + multiset{n})
  {
    hide Inv, Lookup;
    var n := |s.ctxs|;
    Initialized(s, fd);
    var lib := Library(s.ctxs + [Ctx(fd, 1)], s.listed + [n], Unlocked, s.acts, s.open + {fd}, s.frees);
    FoundLast(lib, fd, n);
    StepInv(lib, Remove(fd));
    var removed := Apply(lib, Remove(fd));
    assert (s.listed + [n])[..|s.listed|] + (s.listed + [n])[|s.listed| + 1..] == s.listed;
    assert removed.acts == s.acts + multiset{Holding(n)};
    PutExact(removed, n);
    assert (s.ctxs + [Ctx(fd, 1)])[n := Ctx(-1, 0)] == s.ctxs + [Ctx(-1, 0)];
    assert s.acts + multiset{Holding(n)} - multiset{Holding(n)} == s.acts;
    assert s.open + {fd} - {fd} == s.open;
  }

  lemma FoundLast(s: Library, fd: int, n: nat)
    requires Inv(s) && fd >= 0 && s.listed != [] && s.listed[|s.listed| - 1] == n && FdOf(s, n) == fd
    ensures Lookup(s, fd, 0) == |s.listed| - 1
  {
    hide Lookup;
    LookupFirst(s, fd, 0);
    ListedNamed(s);
    OnlyOne(s, fd, Lookup(s, fd, 0));
  }

  lemma OnlyOne(s: Library, fd: int, k: nat)
    requires Inv(s) && fd >= 0 && k < |s.listed| && FdOf(s, s.listed[k]) == fd
    ensures forall j :: 0 <= j < |s.listed| && FdOf(s, s.listed[j]) == fd ==> j == k
  {
    forall j | 0 <= j < |s.listed| && FdOf(s, s.listed[j]) == fd
      ensures j == k
    {
      ListedNamed(s);
      SameFd(s, s.listed[j], s.listed[k]);
    }
  }
}
