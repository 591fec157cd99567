/** The session pool: a counting semaphore of keys, a first-fit bitmap and two
    counters under a mutex, a background opener and any number of invokers. */
module SessionPool {
  import opened Bitmaps

  type Tid = nat

  /** `usage` holds the set bits of the bitmap, `dead` the raised isDead flags; both
      start as whatever the allocator left there. */
  datatype Pool = Pool(size: nat, openCnt: nat, inuse: int, keys: nat, usage: set<nat>, dead: set<nat>)

  /** Where an invoker is: past sem_wait, holding a session during the command, told
      that its session died, or past the unlock and about to post. */
  datatype Invoker = HasKey | Holding(index: nat) | Died(index: nat) | Posting | NoSession

  /** Where the opener is, with the loop index. */
  datatype Opener = Opening(i: nat) | GotSession(i: nat) | KeyDue(i: nat) | Stopped

  datatype State = State(pool: Pool, opener: Opener, invokers: map<Tid, Invoker>)

  datatype Event =
    | OpenOk | OpenFails | OpenLocked | OpenPost
    | Wait(t: Tid) | Take(t: Tid) | Put(t: Tid) | Post(t: Tid)
    | TargetDead(t: Tid) | MarkDead(t: Tid) | GiveUp(t: Tid)

  /** GetAndCleartBit: the least set bit, if there is one. */
  ghost predicate IsLeast(s: set<nat>, i: nat)
  {
    i in s && forall j :: j in s ==> i <= j
  }

  lemma LeastExists(s: set<nat>)
    requires s != {}
    ensures exists i :: IsLeast(s, i)
  {
    var x :| x in s;
    if forall j :: j in s ==> x <= j {
      assert IsLeast(s, x);
    } else {
      var z :| z in s && z < x;
      assert z in s - {x};
      LeastExists(s - {x});
      var y :| IsLeast(s - {x}, y);
      assert forall j :: j in s ==> j == x || j in s - {x};
      assert IsLeast(s, if x <= y then x else y);
    }
  }

  ghost function Least(s: set<nat>): (i: nat)
    requires s != {}
    ensures IsLeast(s, i)
  {
    LeastExists(s);
    var i :| IsLeast(s, i);
    i
  }

  // The three critical sections.

  ghost function TakeSection(p: Pool): Pool
    requires p.usage != {}
  {
    p.(usage := p.usage - {Least(p.usage)}, inuse := p.inuse + 1)
  }

  function PutSection(p: Pool, index: nat): Pool
  {
    p.(usage := p.usage + {index}, inuse := p.inuse - 1)
  }

  function OpenSection(p: Pool, i: nat): Pool
  {
    p.(usage := p.usage + {i}, openCnt := p.openCnt + 1)
  }

  /** The loop of CreateSessionsFn moves on to the next session, or ends. */
  function NextOpening(size: nat, i: nat): Opener
  {
    if i + 1 < size then Opening(i + 1) else Stopped
  }

  predicate At(s: State, t: Tid, pc: Invoker)
  {
    t in s.invokers && s.invokers[t] == pc
  }

  predicate Holds(s: State, t: Tid)
  {
    t in s.invokers && s.invokers[t].Holding?
  }

  function Leave(s: State, t: Tid): State { s.(invokers := s.invokers - {t}) }

  function Enter(s: State, t: Tid, pc: Invoker): State { s.(invokers := s.invokers[t := pc]) }

  // The steps, each of which is one atomic action.

  function OpenOkStep(s: State): State
    requires s.opener.Opening?
  {
    s.(opener := GotSession(s.opener.i), pool := s.pool.(dead := s.pool.dead - {s.opener.i}))
  }

  function OpenLockedStep(s: State): State
    requires s.opener.GotSession?
  {
    s.(opener := KeyDue(s.opener.i), pool := OpenSection(s.pool, s.opener.i))
  }

  function OpenPostStep(s: State): State
    requires s.opener.KeyDue?
  {
    s.(opener := NextOpening(s.pool.size, s.opener.i), pool := s.pool.(keys := s.pool.keys + 1))
  }

  function WaitStep(s: State, t: Tid): State
    requires s.pool.keys > 0
  {
    Enter(s.(pool := s.pool.(keys := s.pool.keys - 1)), t, HasKey)
  }

  ghost function TakeStep(s: State, t: Tid): State
  {
    if s.pool.usage == {} then Enter(s, t, NoSession)
    else Enter(s.(pool := TakeSection(s.pool)), t, Holding(Least(s.pool.usage)))
  }

  function PutStep(s: State, t: Tid): State
    requires Holds(s, t)
  {
    Enter(s.(pool := PutSection(s.pool, s.invokers[t].index)), t, Posting)
  }

  /** sem_post, after a return or after the branch that should not happen. */
  function PostStep(s: State, t: Tid): State
  {
    Leave(s.(pool := s.pool.(keys := s.pool.keys + 1)), t)
  }

  function TargetDeadStep(s: State, t: Tid): State
    requires Holds(s, t)
  {
    Enter(s, t, Died(s.invokers[t].index))
  }

  /** The flag is raised; neither the bit nor the key comes back. */
  function MarkDeadStep(s: State, t: Tid): State
    requires t in s.invokers && s.invokers[t].Died?
  {
    Leave(s.(pool := s.pool.(dead := s.pool.dead + {s.invokers[t].index})), t)
  }

  /** An event that is not enabled leaves the state alone. */
  ghost function Apply(s: State, e: Event): State
  {
    match e
    case OpenOk => if s.opener.Opening? then OpenOkStep(s) else s
    case OpenFails => if s.opener.Opening? then s.(opener := Stopped) else s
    case OpenLocked => if s.opener.GotSession? then OpenLockedStep(s) else s
    case OpenPost => if s.opener.KeyDue? then OpenPostStep(s) else s
    case Wait(t) => if t !in s.invokers && s.pool.keys > 0 then WaitStep(s, t) else s
    case Take(t) => if At(s, t, HasKey) then TakeStep(s, t) else s
    case Put(t) => if Holds(s, t) then PutStep(s, t) else s
    case Post(t) => if At(s, t, Posting) then PostStep(s, t) else s
    case TargetDead(t) => if Holds(s, t) then TargetDeadStep(s, t) else s
    case MarkDead(t) => if t in s.invokers && s.invokers[t].Died? then MarkDeadStep(s, t) else s
    case GiveUp(t) => if At(s, t, NoSession) then PostStep(s, t) else s
  }

  ghost function Exec(s: State, es: seq<Event>): State
  {
    if es == [] then s else Apply(Exec(s, es[..|es| - 1]), es[|es| - 1])
  }

  /** After AllocSessionPool: the bitmap and the flags hold anything. */
  predicate IsInit(s: State)
  {
    && s.pool.size > 0 && s.pool.openCnt == 0 && s.pool.inuse == 0 && s.pool.keys == 0
    && s.opener == Opening(0) && s.invokers == map[]
  }

  // The invariant.

  /** Sessions free to be taken. */
  ghost function Free(s: State): set<nat>
  {
    set i | i in s.pool.usage && i < s.pool.openCnt
  }

  /** Invokers between their semaphore operation and their critical section. */
  function Between(s: State): set<Tid>
  {
    set t | t in s.invokers && (s.invokers[t].HasKey? || s.invokers[t].Posting?)
  }

  predicate HasSession(s: State, t: Tid)
  {
    t in s.invokers && (s.invokers[t].Holding? || s.invokers[t].Died?)
  }

  /** Every opened session is free, held by exactly one invoker, or dead. */
  ghost predicate Partition(s: State)
  {
    && (forall t :: HasSession(s, t) ==>
          var i := s.invokers[t].index;
          i < s.pool.openCnt && i !in s.pool.usage && i !in s.pool.dead)
    && (forall t, u :: HasSession(s, t) && HasSession(s, u) && t != u ==> s.invokers[t].index != s.invokers[u].index)
    && (forall i :: i in s.pool.dead && i < s.pool.openCnt ==> i !in s.pool.usage)
  }

  predicate OpenerInv(s: State)
  {
    match s.opener
    case Opening(i) => i == s.pool.openCnt < s.pool.size
    case GotSession(i) => i == s.pool.openCnt < s.pool.size && i !in s.pool.dead
    case KeyDue(i) => i + 1 == s.pool.openCnt <= s.pool.size
    case Stopped => s.pool.openCnt <= s.pool.size
  }

  ghost predicate Inv(s: State)
  {
    && OpenerInv(s)
    && Partition(s)
    && (forall t :: t in s.invokers ==> !s.invokers[t].NoSession?)
    && |Free(s)| == s.pool.keys + |Between(s)| + (if s.opener.KeyDue? then 1 else 0)
    && s.pool.openCnt == |Free(s)| + s.pool.inuse
  }

  // Each step keeps it.

  lemma InitInv(s: State)
    requires IsInit(s)
    ensures Inv(s)
  {
    assert Free(s) == {};
    assert Between(s) == {};
  }

  /** An invoker with a key always finds a free session, and first fit never reaches
      past the opened ones, whatever stale bits lie there. */
  lemma KeyMeansFree(s: State, t: Tid)
    requires Inv(s) && At(s, t, HasKey)
    ensures s.pool.usage != {} && Least(s.pool.usage) < s.pool.openCnt
  {
    assert t in Between(s);
    assert |Between(s)| > 0;
    assert |Free(s)| > 0;
    var i :| i in Free(s);
  }

  lemma OneElement<T>(a: set<T>, x: T)
    ensures |a + {x}| == |a| + if x in a then 0 else 1
    ensures |a - {x}| == |a| - if x in a then 1 else 0
  {
    assert x in a ==> a + {x} == a;
    assert x !in a ==> a - {x} == a;
  }

  lemma BetweenIs(s: State, s': State, t: Tid, pc: Invoker)
    requires s'.invokers == s.invokers[t := pc]
    ensures Between(s') == if pc.HasKey? || pc.Posting? then Between(s) + {t} else Between(s) - {t}
    ensures t in Between(s) <==> At(s, t, HasKey) || At(s, t, Posting)
  {
  }

  lemma BetweenChanges(s: State, s': State, t: Tid, pc: Invoker)
    requires s'.invokers == s.invokers[t := pc]
    ensures var was := if At(s, t, HasKey) || At(s, t, Posting) then 1 else 0;
            |Between(s')| == |Between(s)| - was + if pc.HasKey? || pc.Posting? then 1 else 0
  {
    hide Between;
    BetweenIs(s, s', t, pc);
    OneElement(Between(s), t);
  }

  lemma SameFree(s: State, s': State)
    requires s'.pool.usage == s.pool.usage && s'.pool.openCnt == s.pool.openCnt
    ensures Free(s') == Free(s)
  {
  }

  /** No invoker gets a session, and no bit or flag of an opened one changes. */
  lemma SamePartition(s: State, s': State, t: Tid)
    requires Partition(s) && s'.pool.usage == s.pool.usage && s'.pool.openCnt == s.pool.openCnt
    requires s'.pool.dead == s.pool.dead && !HasSession(s', t)
    requires forall u :: u != t ==> (u in s'.invokers <==> u in s.invokers)
    requires forall u :: u != t && u in s'.invokers ==> s'.invokers[u] == s.invokers[u]
    ensures Partition(s')
  {
    assert forall u :: HasSession(s', u) ==> u != t && HasSession(s, u);
  }

  lemma TakePartition(s: State, t: Tid)
    requires Partition(s) && At(s, t, HasKey) && s.pool.usage != {} && Least(s.pool.usage) < s.pool.openCnt
    ensures Partition(TakeStep(s, t)) && |Free(TakeStep(s, t))| == |Free(s)| - 1
  {
    assert Least(s.pool.usage) in Free(s) && Free(TakeStep(s, t)) == Free(s) - {Least(s.pool.usage)};
    assert forall u :: u != t ==> (HasSession(TakeStep(s, t), u) <==> HasSession(s, u));
  }

  lemma PutPartition(s: State, t: Tid)
    requires Partition(s) && Holds(s, t)
    ensures Partition(PutStep(s, t)) && |Free(PutStep(s, t))| == |Free(s)| + 1
  {
    assert HasSession(s, t);
    assert forall u :: HasSession(PutStep(s, t), u) <==> u != t && HasSession(s, u);
    assert Free(PutStep(s, t)) == Free(s) + {s.invokers[t].index};
  }

  lemma BetweenLeaves(s: State, s': State, t: Tid)
    requires s'.invokers == s.invokers - {t}
    ensures Between(s') == Between(s) - {t}
  {
  }

  lemma OpenInv(s: State)
    requires Inv(s)
    ensures s.opener.Opening? ==> Inv(OpenOkStep(s)) && Inv(s.(opener := Stopped))
    ensures s.opener.KeyDue? ==> Inv(OpenPostStep(s))
  {
    if s.opener.Opening? {
      assert Free(OpenOkStep(s)) == Free(s) == Free(s.(opener := Stopped));
      assert Between(OpenOkStep(s)) == Between(s) == Between(s.(opener := Stopped));
    } else if s.opener.KeyDue? {
      assert Free(OpenPostStep(s)) == Free(s);
      assert Between(OpenPostStep(s)) == Between(s);
    }
  }

  lemma OpenLockedInv(s: State)
    requires Inv(s) && s.opener.GotSession?
    ensures Inv(OpenLockedStep(s))
  {
    assert Free(OpenLockedStep(s)) == Free(s) + {s.opener.i};
    assert Between(OpenLockedStep(s)) == Between(s);
  }

  lemma WaitInv(s: State, t: Tid)
    requires Inv(s) && t !in s.invokers && s.pool.keys > 0
    ensures Inv(WaitStep(s, t))
  {
    hide Partition, Free, Between;
    var s' := WaitStep(s, t);
    SameFree(s, s');
    BetweenChanges(s, s', t, HasKey);
    SamePartition(s, s', t);
  }

  lemma TakeInv(s: State, t: Tid)
    requires Inv(s) && At(s, t, HasKey)
    ensures Inv(TakeStep(s, t)) && Holds(TakeStep(s, t), t)
  {
    hide Partition, Free, Between;
    KeyMeansFree(s, t);
    BetweenChanges(s, TakeStep(s, t), t, Holding(Least(s.pool.usage)));
    TakePartition(s, t);
  }

  lemma PutInv(s: State, t: Tid)
    requires Inv(s) && Holds(s, t)
    ensures Inv(PutStep(s, t))
  {
    hide Partition, Free, Between;
    BetweenChanges(s, PutStep(s, t), t, Posting);
    PutPartition(s, t);
  }

  lemma PostInv(s: State, t: Tid)
    requires Inv(s) && At(s, t, Posting)
    ensures Inv(PostStep(s, t))
  {
    var s' := PostStep(s, t);
    assert t in Between(s);
    assert Free(s') == Free(s);
    BetweenLeaves(s, s', t);
    assert forall u :: HasSession(s', u) <==> HasSession(s, u);
  }

  lemma TargetDeadInv(s: State, t: Tid)
    requires Inv(s) && Holds(s, t)
    ensures Inv(TargetDeadStep(s, t))
  {
    var s' := TargetDeadStep(s, t);
    assert Free(s') == Free(s);
    assert Between(s') == Between(s);
    assert forall u :: HasSession(s', u) <==> HasSession(s, u);
  }

  lemma MarkDeadInv(s: State, t: Tid)
    requires Inv(s) && t in s.invokers && s.invokers[t].Died?
    ensures Inv(MarkDeadStep(s, t))
  {
    var s' := MarkDeadStep(s, t);
    assert Free(s') == Free(s);
    assert Between(s') == Between(s);
    assert HasSession(s, t);
    assert forall u :: HasSession(s', u) <==> u != t && HasSession(s, u);
  }

  lemma StepInv(s: State, e: Event)
    requires Inv(s)
    ensures Inv(Apply(s, e))
  {
    OpenInv(s);
    hide Partition, Free, Between, OpenOkStep, OpenPostStep, OpenLockedStep, WaitStep, TakeStep, PutStep, PostStep,
      TargetDeadStep, MarkDeadStep, OpenerInv;
    match e
    case OpenOk =>
    case OpenFails =>
    case OpenPost =>
    case OpenLocked => if s.opener.GotSession? { OpenLockedInv(s); }
    case Wait(t) => if t !in s.invokers && s.pool.keys > 0 { WaitInv(s, t); }
    case Take(t) => if At(s, t, HasKey) { TakeInv(s, t); }
    case Put(t) => if Holds(s, t) { PutInv(s, t); }
    case Post(t) => if At(s, t, Posting) { PostInv(s, t); }
    case TargetDead(t) => if Holds(s, t) { TargetDeadInv(s, t); }
    case MarkDead(t) => if t in s.invokers && s.invokers[t].Died? { MarkDeadInv(s, t); }
    case GiveUp(t) =>
  }

  lemma {:induction false} RunInv(s: State, es: seq<Event>)
    requires Inv(s)
    ensures Inv(Exec(s, es))
  {
    if es != [] {
      RunInv(s, es[..|es| - 1]);
      StepInv(Exec(s, es[..|es| - 1]), es[|es| - 1]);
    }
  }

  // What every run guarantees.

  /** From any initial bitmap and flags, in every interleaving: the branch that
      should not happen does not, no session has two holders, a held session is
      neither free nor marked dead, and the header's "keys equals opened minus inuse" holds up to the
      invokers and the opener that are between a semaphore operation and the lock. */
  lemma PoolSafety(s0: State, es: seq<Event>)
    requires IsInit(s0)
    ensures var s := Exec(s0, es);
            && (forall t :: t in s.invokers ==> !s.invokers[t].NoSession?)
            && (forall t :: HasSession(s, t) ==>
                  var i := s.invokers[t].index;
                  i < s.pool.openCnt <= s.pool.size && i !in s.pool.usage && i !in s.pool.dead)
            && (forall t, u :: HasSession(s, t) && HasSession(s, u) && t != u ==>
                  s.invokers[t].index != s.invokers[u].index)
            && s.pool.keys + |Between(s)| + (if s.opener.KeyDue? then 1 else 0) == s.pool.openCnt - s.pool.inuse
            && 0 <= s.pool.inuse <= s.pool.openCnt
  {
    InitInv(s0);
    RunInv(s0, es);
    FreeIsBounded(Exec(s0, es));
  }

  lemma FreeIsBounded(s: State)
    ensures |Free(s)| <= s.pool.openCnt
  {
    assert Free(s) <= Below(s.pool.openCnt);
    SubsetSize(Free(s), Below(s.pool.openCnt));
  }

  function Below(n: nat): (s: set<nat>)
    ensures |s| == n && forall i :: i in s <==> 0 <= i < n
  {
    if n == 0 then {} else Below(n - 1) + {n - 1}
  }

  lemma {:induction false} SubsetSize<T>(a: set<T>, b: set<T>)
    requires a <= b
    ensures |a| <= |b|
  {
    if a != {} {
      var x :| x in a;
      SubsetSize(a - {x}, b - {x});
    }
  }

  /** Each opened session is free, held, or dead: none is lost. */
  lemma NothingLost(s0: State, es: seq<Event>, i: nat)
    requires IsInit(s0) && i < Exec(s0, es).pool.openCnt
    ensures var s := Exec(s0, es);
            i in s.pool.usage || i in s.pool.dead || exists t :: HasSession(s, t) && s.invokers[t].index == i
    decreases |es|
  {
    if es != [] {
      var p, e := Exec(s0, es[..|es| - 1]), es[|es| - 1];
      InitInv(s0);
      RunInv(s0, es[..|es| - 1]);
      if i < p.pool.openCnt {
        NothingLost(s0, es[..|es| - 1], i);
      }
      StepLosesNothing(p, e, i);
    }
  }

  ghost predicate Accounted(s: State, i: nat)
  {
    i in s.pool.usage || i in s.pool.dead || exists t :: HasSession(s, t) && s.invokers[t].index == i
  }

  lemma StepLosesNothing(s: State, e: Event, i: nat)
    requires Inv(s) && (i < s.pool.openCnt ==> Accounted(s, i))
    ensures i < Apply(s, e).pool.openCnt ==> Accounted(Apply(s, e), i)
  {
    hide Free, Between;
    var s' := Apply(s, e);
    if t :| HasSession(s, t) && s.invokers[t].index == i {
      if !HasSession(s', t) {
        assert i in s'.pool.usage || i in s'.pool.dead;
      }
    }
    if e.Take? && At(s, e.t, HasKey) {
      KeyMeansFree(s, e.t);
      assert HasSession(s', e.t);
    }
  }

  /** A dead session is never handed out again, whatever happens later. */
  lemma {:induction false} DeadStaysDead(s: State, es: seq<Event>, i: nat)
    requires Inv(s) && i in s.pool.dead && i < s.pool.openCnt
    ensures var s' := Exec(s, es);
            && i in s'.pool.dead && i < s'.pool.openCnt && i !in s'.pool.usage
            && forall t :: HasSession(s', t) ==> s'.invokers[t].index != i
    decreases |es|
  {
    hide Apply, Free, Between, OpenerInv;
    if es != [] {
      DeadStaysDead(s, es[..|es| - 1], i);
      RunInv(s, es[..|es| - 1]);
      StepInv(Exec(s, es[..|es| - 1]), es[|es| - 1]);
      FlagsStay(Exec(s, es[..|es| - 1]), es[|es| - 1], i);
    }
  }

  lemma FlagsStay(s: State, e: Event, i: nat)
    requires OpenerInv(s) && i in s.pool.dead && i < s.pool.openCnt
    ensures i in Apply(s, e).pool.dead && i < Apply(s, e).pool.openCnt
  {
  }

  function Flags(f: seq<bool>): set<nat>
  {
    set i: nat | i < |f| && f[i]
  }

  lemma FirstIsLeast(m: seq<bv8>, r: int)
    requires IsFirstEligible(m, false, r)
    ensures r == -1 <==> Bits(m) == {}
    ensures r != -1 ==> r == Least(Bits(m))
  {
    if r == -1 {
      assert forall k: nat :: k in Bits(m) ==> !Eligible(m, k, false);
    } else {
      var i := Least(Bits(m));
      assert r in Bits(m);
      assert i < r ==> !Eligible(m, i, false);
    }
  }

  /** The pool's own record, with the mutex-protected updates of the three threads. */
  class Sessions {
    const usage: array<bv8>
    const isDead: array<bool>
    var openCnt: nat
    var inuse: int
    var keys: nat

    ghost predicate Valid() { usage as object != isDead as object }

    ghost function View(): Pool
      reads this, usage, isDead
    {
      Pool(isDead.Length, openCnt, inuse, keys, Bits(usage[..]), Flags(isDead[..]))
    }

    /** AllocSessionPool: one bitmap byte for every session, and no memset of either array. */
    constructor (poolSize: nat, leftBits: seq<bv8>, leftFlags: seq<bool>)
      requires 0 < poolSize == |leftBits| == |leftFlags|
      ensures Valid() && IsInit(State(View(), Opening(0), map[])) && fresh(usage) && fresh(isDead)
      ensures View().usage == Bits(leftBits) && usage.Length == poolSize
    {
      usage := new bv8[poolSize](i requires 0 <= i < |leftBits| => leftBits[i]);
      isDead := new bool[poolSize](i requires 0 <= i < |leftFlags| => leftFlags[i]);
      openCnt, inuse, keys := 0, 0, 0;
      new;
      assert usage[..] == leftBits;
    }

    method TakeSession() returns (used: int)
      requires Valid()
      modifies usage, this`inuse
      ensures used == -1 <==> old(View().usage) == {}
      ensures used == -1 ==> View() == old(View())
      ensures used != -1 ==> used == old(Least(View().usage)) && View() == old(TakeSection(View()))
    {
      ghost var m := usage[..];
      used := IterateBitmap(usage, false);
      FirstIsLeast(m, used);
      if used != -1 {
        inuse := inuse + 1;
      }
      assert isDead[..] == old(isDead[..]);
    }

    method PutSession(index: nat)
      requires Valid() && index < 8 * usage.Length
      modifies usage, this`inuse
      ensures View() == old(PutSection(View(), index))
    {
      SetBit(index, usage);
      inuse := inuse - 1;
      assert isDead[..] == old(isDead[..]);
    }

    method AddSession(i: nat)
      requires Valid() && i < 8 * usage.Length
      modifies usage, this`openCnt
      ensures View() == old(OpenSection(View(), i))
    {
      SetBit(i, usage);
      openCnt := openCnt + 1;
      assert isDead[..] == old(isDead[..]);
    }
  }
}
