/** What the executor guarantees over whole runs, and how its shutdown ends. */
module Shutdown {
  import opened Executor

  /** Conservation: every task taken from the task queue is in a worker's hand, has a
      result, was dropped at an interrupt, was malformed, or has a result refused as too
      large. */
  lemma TasksConserved(n: nat, es: seq<Event>, t: Task)
    ensures var s := Exec(n, es);
            s.taken[t] ==
            InHand(s.workers, t) + multiset(s.results)[t] + s.dropped[t] + s.malformed[t] + s.refused[t]
  {
    hide Exec;
    RunInv(n, es);
  }

  predicate CarriesRight(pc: Pc)
  {
    && (pc.Run? ==> pc.t.wellFormed)
    && (pc.Enq? ==> pc.t.wellFormed && pc.t.fits)
  }

  /** Where a task ends depends only on its magic and the size of its result. */
  ghost predicate FatesOk(s: State)
  {
    && (forall t :: t in s.results || t in s.dropped ==> t.wellFormed && t.fits)
    && (forall t :: t in s.malformed ==> !t.wellFormed)
    && (forall t :: t in s.refused ==> t.wellFormed && !t.fits)
  }

  predicate AllCarryRight(s: State) { forall w :: 0 <= w < |s.workers| ==> CarriesRight(s.workers[w]) }

  lemma {:induction false} FatesExact(n: nat, es: seq<Event>)
    ensures FatesOk(Exec(n, es)) && AllCarryRight(Exec(n, es))
  {
    hide Apply;
    if es != [] {
      FatesExact(n, es[..|es| - 1]);
      FatesStep(Exec(n, es[..|es| - 1]), es[|es| - 1]);
    }
  }

  lemma FatesStep(s: State, e: Event)
    requires FatesOk(s) && AllCarryRight(s)
    ensures FatesOk(Apply(s, e)) && AllCarryRight(Apply(s, e))
  {
    hide DeqStep, EnqStep, RunStep, BossStep, FatesOk, AllCarryRight, OneCarries;
    var s' := Apply(s, e);
    if !e.Work? {
      OthersFate(s, e);
    } else if e.w < |s.workers| == |s.drops| && !s.workers[e.w].Exited? {
      assert CarriesRight(s.workers[e.w]) by {
        CarriesAt(s, e.w);
      }
      match s.workers[e.w] {
        case Deq(_, _) => DeqFate(s, e.w, e.stuck);
        case Enq(_, _, _) => EnqFate(s, e.w, e.stuck);
        case Run(t) => RunFate(s, e.w);
        case Top => TopFate(s, e.w);
      }
      OneCarriesAll(s, s', e.w);
    }
  }

  lemma CarriesAt(s: State, w: nat)
    requires AllCarryRight(s) && w < |s.workers|
    ensures CarriesRight(s.workers[w])
  {
  }

  lemma OneCarriesAll(s: State, s': State, w: nat)
    requires AllCarryRight(s) && OneCarries(s, s', w)
    ensures AllCarryRight(s')
  {
    hide CarriesRight;
  }

  lemma OthersFate(s: State, e: Event)
    requires !e.Work? && FatesOk(s) && AllCarryRight(s)
    ensures FatesOk(Apply(s, e)) && AllCarryRight(Apply(s, e))
  {
    hide CarriesRight, BossStep;
    BossFate(s);
  }

  lemma BossFate(s: State)
    ensures var s' := BossStep(s);
            && s'.workers == s.workers && s'.results == s.results && s'.dropped == s.dropped
            && s'.malformed == s.malformed && s'.refused == s.refused
  {
    hide DropRef;
  }

  lemma TopFate(s: State, w: nat)
    requires FatesOk(s) && w < |s.workers| == |s.drops| && s.workers[w].Top?
    ensures FatesOk(WorkStep(s, w, false)) && WorkStep(s, w, true) == WorkStep(s, w, false)
    ensures OneCarries(s, WorkStep(s, w, false), w)
  {
  }

  predicate OneCarries(s: State, s': State, w: nat)
  {
    w < |s.workers| == |s'.workers| && CarriesRight(s'.workers[w]) && s'.workers == s.workers[w := s'.workers[w]]
  }

  lemma DeqCarries(s: State, p: Phase, got: Got, stuck: bool)
    ensures CarriesRight(DeqNext(s, p, got, stuck))
  {
  }

  lemma DeqFate(s: State, w: nat, stuck: bool)
    requires FatesOk(s) && w < |s.workers| && s.workers[w].Deq?
    ensures FatesOk(DeqStep(s, w, stuck)) && OneCarries(s, DeqStep(s, w, stuck), w)
  {
    hide CallStep, Takes, DeqNext, CarriesRight;
    DeqCarries(s, s.workers[w].p, s.workers[w].got, stuck);
  }

  lemma EnqCarries(s: State, pc: Pc, stuck: bool)
    requires CarriesRight(pc) && pc.Enq?
    ensures CarriesRight(EnqNext(s, pc.p, pc.t, pc.out, stuck)) && pc.t.wellFormed && pc.t.fits
  {
  }

  lemma EnqFate(s: State, w: nat, stuck: bool)
    requires FatesOk(s) && w < |s.workers| == |s.drops| && s.workers[w].Enq? && CarriesRight(s.workers[w])
    ensures FatesOk(EnqStep(s, w, stuck)) && OneCarries(s, EnqStep(s, w, stuck), w)
  {
    hide CallStep, Drops, Sends, EnqNext, CarriesRight;
    EnqCarries(s, s.workers[w], stuck);
  }

  lemma RunFate(s: State, w: nat)
    requires FatesOk(s) && w < |s.workers| && s.workers[w].Run? && CarriesRight(s.workers[w])
    ensures FatesOk(RunStep(s, w, s.workers[w].t)) && OneCarries(s, RunStep(s, w, s.workers[w].t), w)
  {
  }

  function Total(ns: seq<nat>): nat { if ns == [] then 0 else Total(ns[..|ns| - 1]) + ns[|ns| - 1] }

  lemma {:induction false} TotalUpdate(ns: seq<nat>, i: nat, x: nat)
    requires i < |ns|
    ensures Total(ns[i := x]) == Total(ns) - ns[i] + x
  {
    var n := |ns| - 1;
    if i < n {
      TotalUpdate(ns[..n], i, x);
      assert ns[i := x][..n] == ns[..n][i := x];
    } else {
      assert ns[i := x][..n] == ns[..n];
    }
  }

  lemma {:induction false} TotalBound(ns: seq<nat>)
    requires forall i :: 0 <= i < |ns| ==> ns[i] <= 1
    ensures Total(ns) <= |ns|
  {
    if ns != [] {
      TotalBound(ns[..|ns| - 1]);
    }
  }

  lemma {:induction false} TotalZeros(n: nat)
    ensures Total(seq(n, i => 0)) == 0
  {
    var zs: seq<nat> := seq(n, i => 0);
    if n > 0 {
      TotalZeros(n - 1);
      assert zs[..n - 1] == seq(n - 1, i => 0);
    }
  }

  lemma DropsStep(s: State, e: Event)
    ensures |Apply(s, e).dropped| - |s.dropped| == Total(Apply(s, e).drops) - Total(s.drops)
  {
    hide DeqNext, EnqNext, CallStep, Takes, Rejects, Sends, Total;
    if e.Work? && e.w < |s.workers| == |s.drops| && s.workers[e.w].Enq? && Drops(s, s.workers[e.w]) {
      TotalUpdate(s.drops, e.w, s.drops[e.w] + 1);
    }
  }

  lemma {:induction false} DropsTotal(n: nat, es: seq<Event>)
    ensures |Exec(n, es).dropped| == Total(Exec(n, es).drops)
  {
    hide Apply;
    if es == [] {
      TotalZeros(n);
    } else {
      DropsTotal(n, es[..|es| - 1]);
      DropsStep(Exec(n, es[..|es| - 1]), es[|es| - 1]);
    }
  }

  /** No worker drops more than one result, so at most one for each is lost in all, and
      only once the shutdown has begun. */
  lemma OneDropEach(n: nat, es: seq<Event>, w: nat)
    requires w < n
    ensures var s := Exec(n, es);
            |s.drops| == n && s.drops[w] <= 1 && (s.drops[w] == 1 ==> s.terminated) && |s.dropped| <= n
  {
    hide Exec, Total, PcOk;
    RunInv(n, es);
    DropsTotal(n, es);
    var s := Exec(n, es);
    assert DropOk(s, w);
    forall v | 0 <= v < n
      ensures s.drops[v] <= 1
    {
      assert DropOk(s, v);
    }
    TotalBound(s.drops);
  }

  /** Each queue object is freed at most once, and never while a worker may still use it;
      when it is destroyed nobody else has a reference. */
  lemma QueuesSafe(n: nat, es: seq<Event>)
    ensures var s := Exec(n, es);
            && s.taskQ.frees <= 1 && s.resQ.frees <= 1
            && (forall w :: 0 <= w < |s.workers| && !s.workers[w].Exited? ==>
                  s.taskQ.frees == 0 && s.resQ.frees == 0 && s.taskQ.ref >= 1 && s.resQ.ref >= 1)
            && (s.boss.Joined? ==> s.taskQ.ref == 1 && s.resQ.ref == 1)
            && (s.boss.ResultsGone? ==> s.taskQ.ref == 1 && s.resQ.frees == 1)
            && (s.boss.Finished? ==> s.taskQ.frees == 1 && s.resQ.frees == 1)
  {
    hide Exec, CountInside;
    RunInv(n, es);
    var s := Exec(n, es);
    if AllExited(s.workers, |s.workers|) {
      NobodyInside(s.workers, false);
      NobodyInside(s.workers, true);
    }
  }

  // The end of the shutdown.

  /** How many steps a worker has left once both queues are interrupted. */
  function Left(pc: Pc): nat
  {
    match pc
    case Exited => 0
    case Top => 1
    case Enq(p, _, _) => CallLeft(p)
    case Run(_) => 7
    case Deq(p, _) => 6 + CallLeft(p)
  }

  function CallLeft(p: Phase): nat
  {
    match p case Ref => 6 case Lock => 5 case Look => 5 case Check => 4 case Unlock => 3 case Deref => 2
  }

  predicate WindingDown(s: State) { s.terminated && s.taskQ.interrupt && s.resQ.interrupt }

  predicate Blocked(s: State, w: nat)
    requires w < |s.workers|
  {
    || (s.workers[w].Deq? && s.workers[w].p.Lock? && !s.taskQ.holder.Free?)
    || (s.workers[w].Enq? && s.workers[w].p.Lock? && !s.resQ.holder.Free?)
  }

  lemma DeqShortens(s: State, p: Phase, got: Got, stuck: bool)
    requires s.taskQ.interrupt && (p.Lock? ==> s.taskQ.holder.Free?)
    ensures Left(DeqNext(s, p, got, stuck)) < Left(Deq(p, got))
  {
  }

  lemma EnqShortens(s: State, p: Phase, t: Task, out: Outcome, stuck: bool)
    requires s.resQ.interrupt && (p.Lock? ==> s.resQ.holder.Free?)
    ensures Left(EnqNext(s, p, t, out, stuck)) < Left(Enq(p, t, out))
  {
  }

  /** Every step of a worker that need not wait for a mutex takes it closer to its end. */
  lemma WorkShortens(s: State, w: nat, stuck: bool)
    requires w < |s.workers| == |s.drops| && WindingDown(s) && !Blocked(s, w) && !s.workers[w].Exited?
    ensures var s' := WorkStep(s, w, stuck);
            s'.workers == s.workers[w := s'.workers[w]] && Left(s'.workers[w]) < Left(s.workers[w]) && WindingDown(s')
  {
    hide DeqStep, EnqStep, CallLeft, Blocked;
    StillWindingDown(s, Work(w, stuck));
    match s.workers[w]
    case Deq(p, got) => DeqWorks(s, w, stuck);
    case Enq(p, t, out) => EnqWorks(s, w, stuck);
    case _ => RunLeft();
  }

  lemma DeqWorks(s: State, w: nat, stuck: bool)
    requires w < |s.workers| && s.taskQ.interrupt && !Blocked(s, w) && s.workers[w].Deq?
    ensures Moved(s, DeqStep(s, w, stuck), w) && Left(DeqStep(s, w, stuck).workers[w]) < Left(s.workers[w])
  {
    hide DeqNext, CallStep, Takes, Rejects;
    DeqShortens(s, s.workers[w].p, s.workers[w].got, stuck);
  }

  lemma EnqWorks(s: State, w: nat, stuck: bool)
    requires w < |s.workers| == |s.drops| && s.resQ.interrupt && !Blocked(s, w) && s.workers[w].Enq?
    ensures Moved(s, EnqStep(s, w, stuck), w) && Left(EnqStep(s, w, stuck).workers[w]) < Left(s.workers[w])
  {
    hide EnqNext, CallStep, Sends, Drops;
    var pc := s.workers[w];
    EnqShortens(s, pc.p, pc.t, pc.out, stuck);
  }

  lemma RunLeft()
    ensures CallLeft(Ref) == 6
  {
  }

  /** Somebody can always move: whoever waits for a mutex waits for a worker that runs. */
  lemma SomebodyMoves(s: State, w: nat) returns (v: nat)
    requires Inv(s) && w < |s.workers| && !s.workers[w].Exited?
    ensures v < |s.workers| && !s.workers[v].Exited? && !Blocked(s, v)
  {
    hide JoinOk, FlagsOk, DropsOk, Conserved, RefsOk;
    v := w;
    if Blocked(s, w) {
      v := if s.workers[w].Deq? then s.taskQ.holder.w else s.resQ.holder.w;
    }
  }

  function AllLeft(ws: seq<Pc>): nat { if ws == [] then 0 else AllLeft(ws[..|ws| - 1]) + Left(ws[|ws| - 1]) }

  lemma {:induction false} LeftUpdate(ws: seq<Pc>, w: nat, pc: Pc)
    requires w < |ws|
    ensures AllLeft(ws[w := pc]) == AllLeft(ws) - Left(ws[w]) + Left(pc)
  {
    hide Left;
    var n := |ws| - 1;
    if w < n {
      LeftUpdate(ws[..n], w, pc);
      assert ws[w := pc][..n] == ws[..n][w := pc];
    } else {
      assert ws[w := pc][..n] == ws[..n];
    }
  }

  lemma {:induction false} LeftBound(ws: seq<Pc>)
    ensures AllLeft(ws) <= 12 * |ws|
  {
    if ws != [] {
      LeftBound(ws[..|ws| - 1]);
    }
  }

  function After(s: State, es: seq<Event>): State
    decreases |es|
  {
    if es == [] then s else After(Apply(s, es[0]), es[1..])
  }

  /** A worker that is neither gone nor waiting for a mutex takes a step. */
  predicate Moves(s: State, e: Event)
  {
    e.Work? && e.w < |s.workers| && !s.workers[e.w].Exited? && !Blocked(s, e.w)
  }

  function Moving(s: State, es: seq<Event>): nat
    decreases |es|
  {
    if es == [] then 0 else (if Moves(s, es[0]) then 1 else 0) + Moving(Apply(s, es[0]), es[1..])
  }

  /** Once the flags are set, the workers have at most twelve steps each before all of
      them have left, in whatever order they move and whatever arrives or is joined and
      destroyed in between. */
  lemma {:induction false} ShutdownBounded(s: State, es: seq<Event>)
    requires Inv(s) && WindingDown(s)
    ensures Moving(s, es) + AllLeft(After(s, es).workers) <= AllLeft(s.workers) <= 12 * |s.workers|
    decreases |es|
  {
    hide Left, AllLeft, Inv, Apply, WindingDown, Moves;
    LeftBound(s.workers);
    if es != [] {
      OneStep(s, es[0]);
      ShutdownBounded(Apply(s, es[0]), es[1..]);
    }
  }

  lemma OneStep(s: State, e: Event)
    requires Inv(s) && WindingDown(s)
    ensures Inv(Apply(s, e)) && WindingDown(Apply(s, e)) && |Apply(s, e).workers| == |s.workers|
    ensures AllLeft(Apply(s, e).workers) + (if Moves(s, e) then 1 else 0) <= AllLeft(s.workers)
  {
    hide Left, AllLeft, Inv, WorkStep, Blocked, WindingDown;
    StepInv(s, e);
    StillWindingDown(s, e);
    if Moves(s, e) {
      AllHaveDrops(s);
      WorkShortens(s, e.w, e.stuck);
      LeftUpdate(s.workers, e.w, WorkStep(s, e.w, e.stuck).workers[e.w]);
    } else {
      OthersStay(s, e);
    }
  }

  lemma AllHaveDrops(s: State)
    requires Inv(s)
    ensures |s.drops| == |s.workers|
  {
  }

  lemma OthersStay(s: State, e: Event)
    requires !Moves(s, e)
    ensures Apply(s, e).workers == s.workers
  {
    hide DeqStep, EnqStep, Blocked;
    if e.Work? && e.w < |s.workers| == |s.drops| && Blocked(s, e.w) {
      BlockedStays(s, e.w, e.stuck);
    }
  }

  lemma BlockedStays(s: State, w: nat, stuck: bool)
    requires w < |s.workers| == |s.drops| && Blocked(s, w)
    ensures WorkStep(s, w, stuck).workers == s.workers
  {
    hide CallStep, Takes, Rejects, Sends, Drops;
    assert s.workers[w := s.workers[w]] == s.workers;
  }

  lemma StillWindingDown(s: State, e: Event)
    requires WindingDown(s)
    ensures WindingDown(Apply(s, e)) && |Apply(s, e).workers| == |s.workers|
  {
    hide DeqStep, EnqStep;
    if e.Work? && e.w < |s.workers| == |s.drops| {
      if s.workers[e.w].Deq? {
        DeqFlags(s, e.w, e.stuck);
      } else if s.workers[e.w].Enq? {
        EnqFlags(s, e.w, e.stuck);
      }
    }
  }

  lemma DeqFlags(s: State, w: nat, stuck: bool)
    requires WindingDown(s) && w < |s.workers| && s.workers[w].Deq?
    ensures WindingDown(DeqStep(s, w, stuck)) && |DeqStep(s, w, stuck).workers| == |s.workers|
  {
    hide DeqNext, Takes, Rejects;
  }

  lemma EnqFlags(s: State, w: nat, stuck: bool)
    requires WindingDown(s) && w < |s.workers| == |s.drops| && s.workers[w].Enq?
    ensures WindingDown(EnqStep(s, w, stuck)) && |EnqStep(s, w, stuck).workers| == |s.workers|
  {
    hide EnqNext, Sends, Drops;
  }

  /** And they do all leave: from any such state there is a schedule, and no schedule can
      get stuck before. */
  lemma {:induction false} ShutdownEnds(s: State) returns (es: seq<Event>)
    requires Inv(s) && WindingDown(s)
    ensures Moving(s, es) == |es| && |After(s, es).workers| == |s.workers|
    ensures AllExited(After(s, es).workers, |s.workers|)
    decreases AllLeft(s.workers)
  {
    hide Inv, Left, AllLeft, Apply, Blocked, WindingDown;
    if w :| 0 <= w < |s.workers| && !s.workers[w].Exited? {
      var v := SomebodyMoves(s, w);
      var e := Work(v, false);
      OneStep(s, e);
      var more := ShutdownEnds(Apply(s, e));
      es := [e] + more;
      assert es[1..] == more;
    } else {
      es := [];
    }
  }
}
