/** Lifetimes of TEE contexts: the global list under its lock, the operation count of
    every context, and the file descriptors that name them. */
module Contexts {
  import opened Bytes

  /** `fd` is -1 once the descriptor is closed. A context is named by its place in
      `ctxs`, the order of allocation. */
  datatype Ctx = Ctx(fd: int, ops: int)

  /** What a thread still has to do: add the context it made to the list, put its
      reference, or, having brought the count to zero, close and then free. */
  datatype Act = Made(c: nat) | Holding(c: nat) | Last(c: nat) | Closed(c: nat)

  /** Who is inside g_mutexTeecContext between the list access and the increment. */
  datatype Lock = Unlocked | Getting(c: nat) | Inserting(c: nat)

  datatype Library = Library(ctxs: seq<Ctx>, listed: seq<nat>, lock: Lock, acts: multiset<Act>,
                             open: set<int>, frees: multiset<nat>)

  datatype Event =
    | Init(fd: int) | Insert(c: nat) | Inserted
    | Find(fd: int) | Got | Remove(fd: int)
    | Put(c: nat) | Close(c: nat) | Free(c: nat)

  /** FindBnContext: the place of the first listed context with this descriptor. */
  function Lookup(s: Library, fd: int, k: nat): (r: nat)
    requires k <= |s.listed|
    ensures k <= r <= |s.listed|
    decreases |s.listed| - k
  {
    if k == |s.listed| || FdOf(s, s.listed[k]) == fd then k else Lookup(s, fd, k + 1)
  }

  function FdOf(s: Library, c: nat): int { if c < |s.ctxs| then s.ctxs[c].fd else -1 }

  function Ops(s: Library, c: nat): int { if c < |s.ctxs| then s.ctxs[c].ops else 0 }

  function SetOps(s: Library, c: nat, ops: int): Library
    requires c < |s.ctxs|
  {
    s.(ctxs := s.ctxs[c := s.ctxs[c].(ops := ops)])
  }

  function Move(acts: multiset<Act>, a: Act, b: multiset<Act>): multiset<Act> { acts - multiset{a} + b }

  // The steps, each of which is one atomic action.

  function InitStep(s: Library, fd: int): Library
  {
    s.(ctxs := s.ctxs + [Ctx(fd, 1)], acts := s.acts + multiset{Made(|s.ctxs|)}, open := s.open + {fd})
  }

  function InsertStep(s: Library, c: nat): Library
  {
    s.(listed := s.listed + [c], lock := Inserting(c))
  }

  function InsertedStep(s: Library, c: nat): Library
    requires c < |s.ctxs|
  {
    SetOps(s, c, s.ctxs[c].ops + 1).(lock := Unlocked, acts := Move(s.acts, Made(c), multiset{Holding(c)}))
  }

  function FindStep(s: Library, fd: int): Library
  {
    var k := Lookup(s, fd, 0);
    if k == |s.listed| then s else s.(lock := Getting(s.listed[k]))
  }

  function GotStep(s: Library, c: nat): Library
    requires c < |s.ctxs|
  {
    SetOps(s, c, s.ctxs[c].ops + 1).(lock := Unlocked, acts := s.acts + multiset{Holding(c)})
  }

  /** FindAndRemoveBnContext hands the reference of the list to the caller. */
  function RemoveStep(s: Library, fd: int): Library
  {
    var k := Lookup(s, fd, 0);
    if k == |s.listed| then s
    else RemoveAt(s, k)
  }

  function RemoveAt(s: Library, k: nat): Library
    requires k < |s.listed|
  {
    s.(listed := s.listed[..k] + s.listed[k + 1..], acts := s.acts + multiset{Holding(s.listed[k])})
  }

  function PutStep(s: Library, c: nat): Library
    requires c < |s.ctxs|
  {
    var n := s.ctxs[c].ops - 1;
    SetOps(s, c, n).(acts := Move(s.acts, Holding(c), if n == 0 then multiset{Last(c)} else multiset{}))
  }

  function CloseStep(s: Library, c: nat): Library
    requires c < |s.ctxs|
  {
    s.(ctxs := s.ctxs[c := s.ctxs[c].(fd := -1)], open := s.open - {s.ctxs[c].fd},
       acts := Move(s.acts, Last(c), multiset{Closed(c)}))
  }

  function FreeStep(s: Library, c: nat): Library
  {
    s.(frees := s.frees + multiset{c}, acts := Move(s.acts, Closed(c), multiset{}))
  }

  /** An event that is not possible leaves everything as it is. The kernel returns a
      descriptor that is not open. */
  function Apply(s: Library, e: Event): Library
  {
    match e
    case Init(fd) => if fd >= 0 && fd !in s.open then InitStep(s, fd) else s
    case Insert(c) => if s.lock.Unlocked? && Made(c) in s.acts then InsertStep(s, c) else s
    case Inserted => if s.lock.Inserting? && s.lock.c < |s.ctxs| then InsertedStep(s, s.lock.c) else s
    case Find(fd) => if s.lock.Unlocked? then FindStep(s, fd) else s
    case Got => if s.lock.Getting? && s.lock.c < |s.ctxs| then GotStep(s, s.lock.c) else s
    case Remove(fd) => if s.lock.Unlocked? then RemoveStep(s, fd) else s
    case Put(c) => if Holding(c) in s.acts && c < |s.ctxs| then PutStep(s, c) else s
    case Close(c) => if Last(c) in s.acts && c < |s.ctxs| then CloseStep(s, c) else s
    case Free(c) => if Closed(c) in s.acts then FreeStep(s, c) else s
  }

  const EMPTY := Library([], [], Unlocked, multiset{}, {}, multiset{})

  function Exec(es: seq<Event>): Library
  {
    if es == [] then EMPTY else Apply(Exec(es[..|es| - 1]), es[|es| - 1])
  }

  // The invariant.

  function Listed(s: Library, c: nat): nat { if c in s.listed then 1 else 0 }

  /** References outside the list. The creator's counts until the list takes it over. */
  function Holders(s: Library, c: nat): nat
  {
    s.acts[Holding(c)] + (if s.lock == Inserting(c) then 0 else s.acts[Made(c)])
  }

  predicate Alive(s: Library, c: nat) { Ops(s, c) > 0 || Last(c) in s.acts }

  /** The count is exact, and once it is zero the context is on its way to the one free. */
  predicate Counted(s: Library, c: nat)
  {
    && Ops(s, c) == Listed(s, c) + Holders(s, c)
    && s.frees[c] + s.acts[Last(c)] + s.acts[Closed(c)] == (if c < |s.ctxs| && Ops(s, c) == 0 then 1 else 0)
    && s.acts[Made(c)] <= 1
    && (Made(c) in s.acts ==> (c in s.listed <==> s.lock == Inserting(c)))
  }

  predicate Named(s: Library, c: nat)
  {
    if Alive(s, c) then FdOf(s, c) in s.open else FdOf(s, c) == -1
  }

  predicate LockOk(s: Library)
  {
    match s.lock
    case Unlocked => true
    case Getting(c) => c in s.listed
    case Inserting(c) => c in s.listed && Made(c) in s.acts
  }

  ghost predicate FdsOk(s: Library)
  {
    && (forall c: nat :: Named(s, c))
    && (forall c: nat, d: nat :: Alive(s, c) && Alive(s, d) && FdOf(s, c) == FdOf(s, d) ==> c == d)
    && (forall fd :: fd in s.open ==> fd >= 0 && exists c: nat :: Alive(s, c) && FdOf(s, c) == fd)
  }

  ghost predicate CountsOk(s: Library) { forall c: nat :: Counted(s, c) }

  ghost predicate Inv(s: Library) { CountsOk(s) && LockOk(s) && Distinct(s.listed) && FdsOk(s) }

  lemma LookupFirst(s: Library, fd: int, k: nat)
    requires k <= |s.listed|
    ensures var r := Lookup(s, fd, k);
            && (forall j :: k <= j < r ==> FdOf(s, s.listed[j]) != fd)
            && (r < |s.listed| ==> FdOf(s, s.listed[r]) == fd)
    decreases |s.listed| - k
  {
  }

  // Every step keeps the invariant.

  lemma InitCounts(s: Library, fd: int)
    requires CountsOk(s) && LockOk(s)
    ensures CountsOk(InitStep(s, fd))
  {
    var s' := InitStep(s, fd);
    forall c: nat
      ensures Counted(s', c)
    {
      assert Counted(s, c);
    }
  }

  lemma InsertCounts(s: Library, c: nat)
    requires CountsOk(s) && s.lock.Unlocked? && Made(c) in s.acts
    ensures CountsOk(InsertStep(s, c))
  {
    var s' := InsertStep(s, c);
    forall d: nat
      ensures Counted(s', d)
    {
      assert Counted(s, d);
    }
  }

  lemma InsertedCounts(s: Library, c: nat)
    requires CountsOk(s) && LockOk(s) && s.lock == Inserting(c) && c < |s.ctxs|
    ensures CountsOk(InsertedStep(s, c))
  {
    var s' := InsertedStep(s, c);
    forall d: nat
      ensures Counted(s', d)
    {
      assert Counted(s, d);
    }
  }

  lemma GotCounts(s: Library, c: nat)
    requires CountsOk(s) && LockOk(s) && s.lock == Getting(c) && c < |s.ctxs|
    ensures CountsOk(GotStep(s, c))
  {
    var s' := GotStep(s, c);
    forall d: nat
      ensures Counted(s', d)
    {
      assert Counted(s, d);
    }
  }

  lemma RemoveCounts(s: Library, k: nat)
    requires CountsOk(s) && Distinct(s.listed) && k < |s.listed| && s.lock.Unlocked?
    ensures CountsOk(RemoveAt(s, k))
  {
    var s' := RemoveAt(s, k);
    forall d: nat
      ensures Counted(s', d)
    {
      assert Counted(s, d);
    }
  }

  lemma PutCounts(s: Library, c: nat)
    requires CountsOk(s) && Holding(c) in s.acts && c < |s.ctxs|
    ensures CountsOk(PutStep(s, c))
  {
    var s' := PutStep(s, c);
    forall d: nat
      ensures Counted(s', d)
    {
      assert Counted(s, d);
    }
  }

  lemma CloseCounts(s: Library, c: nat)
    requires CountsOk(s) && Last(c) in s.acts && c < |s.ctxs|
    ensures CountsOk(CloseStep(s, c))
  {
    var s' := CloseStep(s, c);
    forall d: nat
      ensures Counted(s', d)
    {
      assert Counted(s, d);
    }
  }

  lemma FreeCounts(s: Library, c: nat)
    requires CountsOk(s) && Closed(c) in s.acts
    ensures CountsOk(FreeStep(s, c))
  {
    var s' := FreeStep(s, c);
    forall d: nat
      ensures Counted(s', d)
    {
      assert Counted(s, d);
    }
  }

  ghost predicate SameNames(s: Library, s': Library)
  {
    s'.open == s.open && forall c: nat :: Alive(s', c) == Alive(s, c) && FdOf(s', c) == FdOf(s, c)
  }

  lemma NamesStay(s: Library, s': Library)
    requires FdsOk(s) && SameNames(s, s')
    ensures FdsOk(s')
  {
    hide Alive, FdOf;
    forall c: nat
      ensures Named(s', c)
    {
      assert Named(s, c);
    }
    forall fd | fd in s'.open
      ensures fd >= 0 && exists c: nat :: Alive(s', c) && FdOf(s', c) == fd
    {
      var c: nat :| Alive(s, c) && FdOf(s, c) == fd;
      assert Alive(s', c);
    }
  }

  lemma InitNames(s: Library, fd: int)
    requires Inv(s) && fd >= 0 && fd !in s.open
    ensures FdsOk(InitStep(s, fd))
  {
    var s', n := InitStep(s, fd), |s.ctxs|;
    assert Counted(s, n);
    assert FdOf(s', n) == fd && Alive(s', n);
    assert forall c: nat :: c != n ==> Alive(s', c) == Alive(s, c) && FdOf(s', c) == FdOf(s, c);
    OneMoreName(s, s', n, fd);
  }

  lemma OneMoreName(s: Library, s': Library, n: nat, fd: int)
    requires FdsOk(s) && fd >= 0 && fd !in s.open && s'.open == s.open + {fd} && !Alive(s, n)
    requires Alive(s', n) && FdOf(s', n) == fd
    requires forall c: nat :: c != n ==> Alive(s', c) == Alive(s, c) && FdOf(s', c) == FdOf(s, c)
    ensures FdsOk(s')
  {
    hide Alive, FdOf;
    forall f | f in s'.open
      ensures f >= 0 && exists c: nat :: Alive(s', c) && FdOf(s', c) == f
    {
      if f in s.open {
        var c: nat :| Alive(s, c) && FdOf(s, c) == f;
        assert Alive(s', c) && FdOf(s', c) == f;
      } else {
        assert Alive(s', n) && FdOf(s', n) == f;
      }
    }
    forall c: nat
      ensures Named(s', c)
    {
      assert c != n ==> Named(s, c);
    }
    forall c: nat, d: nat | Alive(s', c) && Alive(s', d) && FdOf(s', c) == FdOf(s', d)
      ensures c == d
    {
      assert Named(s, c) && Named(s, d) && (c == n || d == n || FdOf(s, c) == FdOf(s, d));
      assert c != n ==> Alive(s, c);
      assert d != n ==> Alive(s, d);
    }
  }

  lemma OneNameLess(s: Library, s': Library, n: nat)
    requires FdsOk(s) && Alive(s, n) && s'.open == s.open - {FdOf(s, n)}
    requires !Alive(s', n) && FdOf(s', n) == -1
    requires forall c: nat :: c != n ==> Alive(s', c) == Alive(s, c) && FdOf(s', c) == FdOf(s, c)
    ensures FdsOk(s')
  {
    hide Alive, FdOf;
    forall f | f in s'.open
      ensures f >= 0 && exists c: nat :: Alive(s', c) && FdOf(s', c) == f
    {
      var c: nat :| Alive(s, c) && FdOf(s, c) == f;
      assert Alive(s', c);
    }
    forall c: nat
      ensures Named(s', c)
    {
      assert Named(s, c);
      if c != n && Alive(s, c) {
        assert FdOf(s, c) != FdOf(s, n);
      }
    }
    forall c: nat, d: nat | Alive(s', c) && Alive(s', d) && FdOf(s', c) == FdOf(s', d)
      ensures c == d
    {
      assert c != n && d != n && Alive(s, c) && Alive(s, d);
    }
  }

  lemma CloseNames(s: Library, c: nat)
    requires Inv(s) && Last(c) in s.acts && c < |s.ctxs|
    ensures FdsOk(CloseStep(s, c))
  {
    var s' := CloseStep(s, c);
    assert Counted(s, c);
    assert forall d: nat :: d != c ==> Alive(s', d) == Alive(s, d) && FdOf(s', d) == FdOf(s, d);
    OneNameLess(s, s', c);
  }

  lemma PutNames(s: Library, c: nat)
    requires Inv(s) && Holding(c) in s.acts && c < |s.ctxs|
    ensures SameNames(s, PutStep(s, c))
  {
    var s' := PutStep(s, c);
    assert Counted(s, c);
    forall d: nat
      ensures Alive(s', d) == Alive(s, d) && FdOf(s', d) == FdOf(s, d)
    {
    }
  }

  lemma InsertedNames(s: Library, c: nat)
    requires CountsOk(s) && LockOk(s) && s.lock == Inserting(c) && c < |s.ctxs|
    ensures SameNames(s, InsertedStep(s, c))
  {
    assert Counted(s, c);
  }

  lemma GotNames(s: Library, c: nat)
    requires CountsOk(s) && LockOk(s) && s.lock == Getting(c) && c < |s.ctxs|
    ensures SameNames(s, GotStep(s, c))
  {
    assert Counted(s, c);
  }

  lemma OtherNames(s: Library, e: Event)
    requires e.Insert? || e.Find? || e.Remove? || e.Free?
    ensures SameNames(s, Apply(s, e))
  {
    hide Lookup, SetOps;
    SameParts(s, Apply(s, e));
  }

  lemma SameParts(s: Library, s': Library)
    requires s'.open == s.open && s'.ctxs == s.ctxs && forall c: nat :: s'.acts[Last(c)] == s.acts[Last(c)]
    ensures SameNames(s, s')
  {
  }

  lemma NamesStep(s: Library, e: Event)
    requires Inv(s)
    ensures FdsOk(Apply(s, e))
  {
    hide InitStep, InsertStep, InsertedStep, FindStep, GotStep, RemoveStep, PutStep, CloseStep, FreeStep, CountsOk,
      FdsOk, LockOk, Distinct;
    if Apply(s, e) != s {
      match e
      case Init(fd) => InitNames(s, fd);
      case Close(c) => CloseNames(s, c);
      case Put(c) =>
        PutNames(s, c);
        NamesStay(s, Apply(s, e));
      case Inserted =>
        InsertedNames(s, s.lock.c);
        NamesStay(s, Apply(s, e));
      case Got =>
        GotNames(s, s.lock.c);
        NamesStay(s, Apply(s, e));
      case _ =>
        OtherNames(s, e);
        NamesStay(s, Apply(s, e));
    }
  }

  lemma CountsStep(s: Library, e: Event)
    requires Inv(s)
    ensures CountsOk(Apply(s, e))
  {
    hide InitStep, InsertStep, InsertedStep, GotStep, PutStep, CloseStep, FreeStep, CountsOk, FdsOk, LockOk, Distinct;
    if Apply(s, e) != s {
      match e
      case Init(fd) => InitCounts(s, fd);
      case Insert(c) => InsertCounts(s, c);
      case Inserted => InsertedCounts(s, s.lock.c);
      case Find(fd) => FindCounts(s, fd);
      case Got => GotCounts(s, s.lock.c);
      case Remove(fd) => RemoveCounts(s, Lookup(s, fd, 0));
      case Put(c) => PutCounts(s, c);
      case Close(c) => CloseCounts(s, c);
      case Free(c) => FreeCounts(s, c);
    }
  }

  lemma FindCounts(s: Library, fd: int)
    requires CountsOk(s) && s.lock.Unlocked?
    ensures CountsOk(FindStep(s, fd))
  {
    forall d: nat
      ensures Counted(FindStep(s, fd), d)
    {
      assert Counted(s, d);
    }
  }

  lemma InsertList(s: Library, c: nat)
    requires Inv(s) && s.lock.Unlocked? && Made(c) in s.acts
    ensures LockOk(InsertStep(s, c)) && Distinct(InsertStep(s, c).listed)
  {
    assert Counted(s, c);
  }

  lemma RemoveList(s: Library, fd: int)
    requires Inv(s) && s.lock.Unlocked?
    ensures LockOk(RemoveStep(s, fd)) && Distinct(RemoveStep(s, fd).listed)
  {
    hide CountsOk, FdsOk;
  }

  predicate SameList(s: Library, s': Library)
  {
    s'.listed == s.listed && s'.lock == s.lock
    && (s.lock.Inserting? ==> s'.acts[Made(s.lock.c)] >= s.acts[Made(s.lock.c)])
  }

  lemma QuietList(s: Library, c: nat, fd: int)
    ensures SameList(s, InitStep(s, fd))
    ensures SameList(s, FreeStep(s, c))
    ensures c < |s.ctxs| ==> SameList(s, PutStep(s, c)) && SameList(s, CloseStep(s, c))
  {
  }

  lemma UnlockedList(s: Library, c: nat, fd: int)
    ensures LockOk(FindStep(s, fd)) || FindStep(s, fd) == s
    ensures FindStep(s, fd).listed == s.listed
    ensures c < |s.ctxs| ==> LockOk(InsertedStep(s, c)) && InsertedStep(s, c).listed == s.listed
    ensures c < |s.ctxs| ==> LockOk(GotStep(s, c)) && GotStep(s, c).listed == s.listed
  {
  }

  /** The lock keeps what its holder found on the list. */
  lemma ListStep(s: Library, e: Event)
    requires Inv(s)
    ensures LockOk(Apply(s, e)) && Distinct(Apply(s, e).listed)
  {
    hide CountsOk, FdsOk, Distinct, InitStep, InsertStep, InsertedStep, FindStep, GotStep, RemoveStep, PutStep,
      CloseStep, FreeStep;
    match e
    case Insert(c) =>
      if s.lock.Unlocked? && Made(c) in s.acts {
        InsertList(s, c);
      }
    case Remove(fd) =>
      if s.lock.Unlocked? {
        RemoveList(s, fd);
      }
    case Init(fd) => QuietList(s, 0, fd);
    case Put(c) => QuietList(s, c, 0);
    case Close(c) => QuietList(s, c, 0);
    case Free(c) => QuietList(s, c, 0);
    case Find(fd) => UnlockedList(s, 0, fd);
    case Inserted =>
      if s.lock.Inserting? {
        UnlockedList(s, s.lock.c, 0);
      }
    case Got =>
      if s.lock.Getting? {
        UnlockedList(s, s.lock.c, 0);
      }
  }

  lemma StepInv(s: Library, e: Event)
    requires Inv(s)
    ensures Inv(Apply(s, e))
  {
    hide Apply;
    CountsStep(s, e);
    ListStep(s, e);
    NamesStep(s, e);
  }

  lemma {:induction false} RunInv(es: seq<Event>)
    ensures Inv(Exec(es))
  {
    hide Apply;
    if es != [] {
      RunInv(es[..|es| - 1]);
      StepInv(Exec(es[..|es| - 1]), es[|es| - 1]);
    }
  }

  // What follows for every reachable state.

  predicate Pending(s: Library, c: nat)
  {
    || Made(c) in s.acts || Holding(c) in s.acts || Last(c) in s.acts || Closed(c) in s.acts
    || s.lock == Getting(c) || s.lock == Inserting(c)
  }

  /** A context is freed at most once, and then nobody can reach it any more: it is off
      the list and no thread still has anything to do with it. */
  lemma FreedOnce(es: seq<Event>, c: nat)
    ensures var s := Exec(es);
            s.frees[c] <= 1 && (c in s.frees ==> c < |s.ctxs| && c !in s.listed && !Pending(s, c))
  {
    hide Apply;
    RunInv(es);
    assert Counted(Exec(es), c);
  }

  /** No context is forgotten: one that is off the list and that no thread is busy with
      has been freed, exactly once, and its descriptor is closed. */
  lemma NothingLeaks(es: seq<Event>, c: nat)
    ensures var s := Exec(es);
            c < |s.ctxs| && c !in s.listed && !Pending(s, c) ==> s.frees[c] == 1 && s.ctxs[c].fd == -1
  {
    hide Apply;
    RunInv(es);
    assert Counted(Exec(es), c) && Named(Exec(es), c);
  }

  /** As long as it is listed or somebody holds a reference, it is not closed or freed. */
  lemma HeldIsUsable(es: seq<Event>, c: nat)
    ensures var s := Exec(es);
            c in s.listed || Holding(c) in s.acts || Made(c) in s.acts ==>
              c < |s.ctxs| && c !in s.frees && s.ctxs[c].fd in s.open && Last(c) !in s.acts && Closed(c) !in s.acts
  {
    hide Apply;
    RunInv(es);
    assert Counted(Exec(es), c) && Named(Exec(es), c);
  }

  /** Looking a descriptor up is unambiguous, however often the kernel reuses numbers:
      it finds the one listed context with that descriptor, or there is none. */
  lemma LookupExact(es: seq<Event>, fd: int)
    ensures var s := Exec(es);
            var k := Lookup(s, fd, 0);
            forall c :: c in s.listed && FdOf(s, c) == fd <==> k < |s.listed| && c == s.listed[k]
  {
    hide Apply;
    var s := Exec(es);
    RunInv(es);
    LookupFirst(s, fd, 0);
    var k := Lookup(s, fd, 0);
    if k < |s.listed| {
      forall c | c in s.listed && FdOf(s, c) == fd
        ensures c == s.listed[k]
      {
        SameFd(s, c, s.listed[k]);
      }
    }
  }

  /** After a finalize the caller's handle says -1; finalizing it again does nothing. */
  lemma FinalizeAgain(es: seq<Event>)
    ensures Apply(Exec(es), Remove(-1)) == Exec(es) && Apply(Exec(es), Find(-1)) == Exec(es)
  {
    var s := Exec(es);
    RunInv(es);
    LookupFirst(s, -1, 0);
    ListedNamed(s);
  }

  lemma ListedNamed(s: Library)
    requires Inv(s)
    ensures forall k :: 0 <= k < |s.listed| ==> s.listed[k] < |s.ctxs| && FdOf(s, s.listed[k]) >= 0
  {
    forall k | 0 <= k < |s.listed|
      ensures s.listed[k] < |s.ctxs| && FdOf(s, s.listed[k]) >= 0
    {
      assert Counted(s, s.listed[k]) && Named(s, s.listed[k]);
    }
  }

  /** Open descriptors and contexts not yet closed match one to one, so closing one
      context never takes the descriptor of another. */
  lemma DescriptorsMatch(es: seq<Event>, c: nat, d: nat)
    ensures var s := Exec(es);
            && (Alive(s, c) <==> FdOf(s, c) in s.open)
            && (Alive(s, c) && Alive(s, d) && FdOf(s, c) == FdOf(s, d) ==> c == d)
            && (forall fd :: fd in s.open ==> exists b: nat :: Alive(s, b) && FdOf(s, b) == fd)
  {
    hide Apply, Alive, FdOf;
    RunInv(es);
    assert Named(Exec(es), c);
  }

  // The calls, for a thread that nobody interrupts.

  class TeecLibrary {
    var ctxs: seq<Ctx>
    var listed: seq<nat>
    ghost var acts: multiset<Act>
    var open: set<int>
    ghost var frees: multiset<nat>

    ghost function View(): Library
      reads this
    {
      Library(ctxs, listed, Unlocked, acts, open, frees)
    }

    constructor ()
      ensures View() == Exec([])
    {
      ctxs, listed, acts, open, frees := [], [], multiset{}, {}, multiset{};
    }

    /** FindBnContext. */
    method FindBnContext(fd: int) returns (k: nat)
      requires forall j :: 0 <= j < |listed| ==> listed[j] < |ctxs|
      ensures k == Lookup(View(), fd, 0)
    {
      k := 0;
      while k < |listed| && ctxs[listed[k]].fd != fd
        invariant k <= |listed| && Lookup(View(), fd, k) == Lookup(View(), fd, 0)
      {
        k := k + 1;
      }
    }

    method GetBnContext(fd: int) returns (found: bool, c: nat)
      requires Inv(View())
      modifies this
      ensures Inv(View()) && View() == Apply(Apply(old(View()), Find(fd)), Got)
      ensures found <==> exists d :: d in old(listed) && old(FdOf(View(), d)) == fd
      ensures found ==> c in old(listed) && old(FdOf(View(), c)) == fd && Holding(c) in acts
    {
      ListedNamed(View());
      LookupFirst(View(), fd, 0);
      StepInv(View(), Find(fd));
      StepInv(Apply(View(), Find(fd)), Got);
      var k := FindBnContext(fd);
      if k == |listed| {
        return false, 0;
      }
      found, c := true, listed[k];
      ctxs := ctxs[c := ctxs[c].(ops := ctxs[c].ops + 1)];
      acts := acts + multiset{Holding(c)};
    }

    /** The last put closes the descriptor and frees the context. */
    method PutBnContext(c: nat) returns (last: bool)
      requires Inv(View()) && Holding(c) in acts && c < |ctxs|
      modifies this
      ensures Inv(View()) && listed == old(listed) && last == (old(ctxs[c].ops) == 1)
      ensures View() == PutWhole(old(View()), c)
    {
      hide Inv, PutWhole, Move;
      PutCall(View(), c);
      ghost var s1 := PutStep(View(), c);
      ctxs := ctxs[c := ctxs[c].(ops := ctxs[c].ops - 1)];
      acts := s1.acts;
      last := ctxs[c].ops == 0;
      if last {
        ghost var s3 := FreeStep(CloseStep(s1, c), c);
        open := open - {ctxs[c].fd};
        ctxs := ctxs[c := ctxs[c].(fd := -1)];
        acts, frees := s3.acts, s3.frees;
      }
    }

    method FindAndRemoveBnContext(fd: int) returns (found: bool, c: nat)
      requires Inv(View())
      modifies this
      ensures Inv(View()) && View() == Apply(old(View()), Remove(fd))
      ensures found <==> old(Lookup(View(), fd, 0) < |listed|)
      ensures found ==> c == old(listed[Lookup(View(), fd, 0)]) && Holding(c) in acts && c < |ctxs|
    {
      ListedNamed(View());
      StepInv(View(), Remove(fd));
      var k := FindBnContext(fd);
      if k == |listed| {
        return false, 0;
      }
      found, c := true, listed[k];
      listed := listed[..k] + listed[k + 1..];
      acts := acts + multiset{Holding(c)};
    }

    /** `room` says whether malloc finds memory, `fd` is what connecting returned, `locks`
        says whether the list lock was obtained. A failure leaves nothing behind; otherwise
        the handle gets the new descriptor, and the put at the end leaves the context to the
        list alone. */
    method InitializeContext(room: bool, fd: int, locks: bool) returns (ok: bool, handle: int)
      requires Inv(View()) && fd !in open
      modifies this
      ensures Inv(View()) && ok == (room && fd >= 0 && locks) && (ok ==> handle == fd)
      ensures !ok ==> View() == old(View())
      ensures ok ==>
                && listed == old(listed) + [|old(ctxs)|] && open == old(open) + {fd}
                && ctxs == old(ctxs) + [Ctx(fd, 1)] && acts == old(acts) && frees == old(frees)
    {
      handle := -1;
      if !room || fd < 0 {
        return false, handle;
      }
      hide Apply, Inv;
      Initialized(View(), fd);
      open := open + {fd};
      if !locks {
        open := open - {fd};
        return false, handle;
      }
      var c := |ctxs|;
      ctxs := ctxs + [Ctx(fd, 1)];
      listed := listed + [c];
      ctxs := ctxs[c := ctxs[c].(ops := ctxs[c].ops + 1)];
      ctxs := ctxs[c := ctxs[c].(ops := ctxs[c].ops - 1)];
      return true, fd;
    }

    /** FinalizeContext, with the new value of the caller's handle. */
    method FinalizeContext(handle: int) returns (handle': int)
      requires Inv(View())
      modifies this
      ensures Inv(View()) && handle' == -1
      ensures var s := old(View());
              && (forall c: nat :: c in listed <==> c in s.listed && FdOf(s, c) != handle)
              && (handle == -1 ==> View() == s)
      ensures var s, k := old(View()), Lookup(old(View()), handle, 0);
              View() == if k == |s.listed| then s else PutWhole(Apply(s, Remove(handle)), s.listed[k])
    {
      hide Apply, Inv, Lookup, PutWhole;
      Found(View(), handle);
      var found, c := FindAndRemoveBnContext(handle);
      if found {
        var _ := PutBnContext(c);
      }
      return -1;
    }
  }

  /** A put and, after the last one, the close and the free. */
  function PutWhole(s: Library, c: nat): Library
  {
    var s1 := Apply(s, Put(c));
    if Last(c) in s1.acts then Apply(Apply(s1, Close(c)), Free(c)) else s1
  }

  lemma PutCall(s: Library, c: nat)
    requires Inv(s) && Holding(c) in s.acts && c < |s.ctxs|
    ensures Inv(PutWhole(s, c))
    ensures PutWhole(s, c) ==
            if s.ctxs[c].ops == 1 then FreeStep(CloseStep(PutStep(s, c), c), c) else PutStep(s, c)
  {
    hide Inv, PutStep, CloseStep, FreeStep;
    PutActs(s, c);
    StepInv(s, Put(c));
    if s.ctxs[c].ops == 1 {
      CloseActs(PutStep(s, c), c);
      StepInv(PutStep(s, c), Close(c));
      StepInv(CloseStep(PutStep(s, c), c), Free(c));
    }
  }

  lemma PutActs(s: Library, c: nat)
    requires Inv(s) && Holding(c) in s.acts && c < |s.ctxs|
    ensures Last(c) in PutStep(s, c).acts <==> s.ctxs[c].ops == 1
    ensures |PutStep(s, c).ctxs| == |s.ctxs|
  {
    assert Counted(s, c);
  }

  lemma CloseActs(s: Library, c: nat)
    requires c < |s.ctxs| && Last(c) in s.acts
    ensures Closed(c) in CloseStep(s, c).acts
  {
  }

  /** What the four steps of an initialization come to. */
  lemma Initialized(s: Library, fd: int)
    requires Inv(s) && s.lock.Unlocked? && fd >= 0 && fd !in s.open
    ensures var n, s' := |s.ctxs|, Apply(Apply(Apply(Apply(s, Init(fd)), Insert(|s.ctxs|)), Inserted), Put(|s.ctxs|));
            Inv(s') && s' == Library(s.ctxs + [Ctx(fd, 1)], s.listed + [n], Unlocked, s.acts, s.open + {fd}, s.frees)
  {
    hide Inv;
    var n := |s.ctxs|;
    assert s.acts[Made(n)] == 0 by {
      NewIsUnused(s);
    }
    var s1 := InitStep(s, fd);
    var s2 := InsertStep(s1, n);
    var s3 := InsertedStep(s2, n);
    StepInv(s, Init(fd));
    StepInv(s1, Insert(n));
    StepInv(s2, Inserted);
    StepInv(s3, Put(n));
    assert PutStep(s3, n).ctxs == s.ctxs + [Ctx(fd, 1)];
  }

  lemma NewIsUnused(s: Library)
    requires Inv(s)
    ensures s.acts[Made(|s.ctxs|)] == 0
  {
    assert Counted(s, |s.ctxs|);
  }

  lemma Found(s: Library, fd: int)
    requires Inv(s)
    ensures forall c: nat :: c in RemoveStep(s, fd).listed <==> c in s.listed && FdOf(s, c) != fd
    ensures fd == -1 ==> RemoveStep(s, fd) == s
    ensures s.lock.Unlocked? ==> Apply(s, Remove(fd)) == RemoveStep(s, fd)
    ensures RemoveStep(s, fd) == s || Lookup(s, fd, 0) < |s.listed|
  {
    var k := Lookup(s, fd, 0);
    LookupFirst(s, fd, 0);
    ListedNamed(s);
    if k < |s.listed| {
      forall c: nat | c in s.listed && FdOf(s, c) == fd
        ensures c == s.listed[k]
      {
        SameFd(s, c, s.listed[k]);
      }
    }
  }

  lemma SameFd(s: Library, c: nat, d: nat)
    requires Inv(s) && c in s.listed && d in s.listed && FdOf(s, c) == FdOf(s, d)
    ensures c == d
  {
    assert Counted(s, c) && Counted(s, d);
    assert Alive(s, c) && Alive(s, d);
  }
}
