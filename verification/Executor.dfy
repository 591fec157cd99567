/** The workers of a tasklet between its two queues, and the shutdown that stops, joins
    and destroys them. */
module Executor {
  /** `fits`: the size that the message states for its result is not too large for the ring. */
  datatype Task = Task(id: nat, wellFormed: bool, fits: bool)

  /** Where a call on a queue is: before taking its reference, waiting for the mutex,
      at the test of the interrupt flag, past it, before the unlock, before dropping the
      reference. */
  datatype Phase = Ref | Lock | Check | Look | Unlock | Deref

  datatype Got = Nothing | Got(t: Task)

  datatype Outcome = Busy | Sent | Dropped

  datatype Pc = Top | Deq(p: Phase, got: Got) | Run(t: Task) | Enq(p: Phase, t: Task, out: Outcome) | Exited

  datatype Holder = Free | Held(w: nat)

  /** `frees` counts how often the queue object was freed. */
  datatype Queue = Queue(ref: int, holder: Holder, interrupt: bool, frees: nat)

  /** How far XtaskletDestroy has come. */
  datatype Boss = Idle | Terminating | ResultsStopped | Joining(i: nat) | Joined | ResultsGone | TasksGone | Finished

  datatype State = State(workers: seq<Pc>, terminated: bool, taskQ: Queue, resQ: Queue, boss: Boss,
                         pending: seq<Task>, taken: multiset<Task>, results: seq<Task>,
                         dropped: multiset<Task>, malformed: multiset<Task>, refused: multiset<Task>,
                         drops: seq<nat>)

  /** `stuck` is what goes wrong at a look: no memory for the message found, or no room
      among the results. */
  datatype Event = Arrive(t: Task) | Work(w: nat, stuck: bool) | Shutdown

  function AddRef(q: Queue): Queue { q.(ref := q.ref + 1) }

  /** DerefQueue: whoever drops the last reference frees. */
  function DropRef(q: Queue): Queue { q.(ref := q.ref - 1, frees := q.frees + if q.ref == 1 then 1 else 0) }

  function Goto(s: State, w: nat, pc: Pc): State
    requires w < |s.workers|
  {
    s.(workers := s.workers[w := pc])
  }

  /** What a phase of a call does to the queue object. */
  function CallStep(q: Queue, p: Phase, w: nat): Queue
  {
    match p
    case Ref => AddRef(q)
    case Lock => if q.holder.Free? then q.(holder := Held(w)) else q
    case Check => q
    case Look => q
    case Unlock => q.(holder := Free)
    case Deref => DropRef(q)
  }

  /** Dequeuing a task, as DequeuedTaskCreate does it. */
  function DeqNext(s: State, p: Phase, got: Got, stuck: bool): Pc
  {
    match p
    case Ref => Deq(Lock, got)
    case Lock => if s.taskQ.holder.Free? then Deq(Check, got) else Deq(Lock, got)
    case Check => if s.taskQ.interrupt then Deq(Unlock, Nothing) else Deq(Look, got)
    case Look =>
      if s.pending == [] then Deq(Check, got) else Deq(Unlock, if stuck then Nothing else Got(s.pending[0]))
    case Unlock => Deq(Deref, got)
    case Deref => if got.Got? && got.t.wellFormed then Run(got.t) else Top
  }

  predicate Takes(s: State, pc: Pc, stuck: bool) { pc.Deq? && pc.p.Look? && s.pending != [] && !stuck }

  predicate Rejects(pc: Pc) { pc.Deq? && pc.p.Deref? && pc.got.Got? && !pc.got.t.wellFormed }

  function DeqStep(s: State, w: nat, stuck: bool): State
    requires w < |s.workers| && s.workers[w].Deq?
  {
    var pc := s.workers[w];
    Goto(s, w, DeqNext(s, pc.p, pc.got, stuck)).(
      taskQ := CallStep(s.taskQ, pc.p, w),
      pending := if Takes(s, pc, stuck) then s.pending[1..] else s.pending,
      taken := if Takes(s, pc, stuck) then s.taken + multiset{s.pending[0]} else s.taken,
      malformed := if Rejects(pc) then s.malformed + multiset{pc.got.t} else s.malformed)
  }

  /** Enqueuing a result. After an interrupt it is dropped. */
  function EnqNext(s: State, p: Phase, t: Task, out: Outcome, stuck: bool): Pc
  {
    match p
    case Ref => Enq(Lock, t, out)
    case Lock => if s.resQ.holder.Free? then Enq(Check, t, out) else Enq(Lock, t, out)
    case Check => if s.resQ.interrupt then Enq(Unlock, t, Dropped) else Enq(Look, t, out)
    case Look => if stuck then Enq(Check, t, out) else Enq(Unlock, t, Sent)
    case Unlock => Enq(Deref, t, out)
    case Deref => Top
  }

  predicate Drops(s: State, pc: Pc) { pc.Enq? && pc.p.Check? && s.resQ.interrupt }

  predicate Sends(pc: Pc, stuck: bool) { pc.Enq? && pc.p.Look? && !stuck }

  function EnqStep(s: State, w: nat, stuck: bool): State
    requires w < |s.workers| == |s.drops| && s.workers[w].Enq?
  {
    var pc := s.workers[w];
    Goto(s, w, EnqNext(s, pc.p, pc.t, pc.out, stuck)).(
      resQ := CallStep(s.resQ, pc.p, w),
      results := if Sends(pc, stuck) then s.results + [pc.t] else s.results,
      dropped := if Drops(s, pc) then s.dropped + multiset{pc.t} else s.dropped,
      drops := if Drops(s, pc) then s.drops[w := s.drops[w] + 1] else s.drops)
  }

  /** BlockingEnqueue refuses a result that is too large before it takes a reference. */
  function RunStep(s: State, w: nat, t: Task): State
    requires w < |s.workers|
  {
    if t.fits then Goto(s, w, Enq(Ref, t, Busy)) else Goto(s, w, Top).(refused := s.refused + multiset{t})
  }

  /** The loop of ExecutorFetch. */
  function WorkStep(s: State, w: nat, stuck: bool): State
    requires w < |s.workers| == |s.drops|
  {
    match s.workers[w]
    case Top => Goto(s, w, if s.terminated then Exited else Deq(Ref, Nothing))
    case Deq(_, _) => DeqStep(s, w, stuck)
    case Run(t) => RunStep(s, w, t)
    case Enq(_, _, _) => EnqStep(s, w, stuck)
    case Exited => s
  }

  function BossStep(s: State): State
  {
    match s.boss
    case Idle => s.(terminated := true, boss := Terminating)
    case Terminating => s.(resQ := s.resQ.(interrupt := true), boss := ResultsStopped)
    case ResultsStopped => s.(taskQ := s.taskQ.(interrupt := true), boss := Joining(0))
    case Joining(i) =>
      if i >= |s.workers| then s.(boss := Joined) else if s.workers[i].Exited? then s.(boss := Joining(i + 1)) else s
    case Joined => s.(resQ := DropRef(s.resQ), boss := ResultsGone)
    case ResultsGone => s.(taskQ := DropRef(s.taskQ), boss := TasksGone)
    case TasksGone => s.(boss := Finished)
    case Finished => s
  }

  function Apply(s: State, e: Event): State
  {
    match e
    case Arrive(t) => s.(pending := s.pending + [t])
    case Work(w, stuck) => if w < |s.workers| == |s.drops| then WorkStep(s, w, stuck) else s
    case Shutdown => BossStep(s)
  }

  const NEW_QUEUE := Queue(1, Free, false, 0)

  function Init(n: nat): State
  {
    State(seq(n, i => Top), false, NEW_QUEUE, NEW_QUEUE, Idle, [], multiset{}, [], multiset{}, multiset{},
          multiset{}, seq(n, i => 0))
  }

  function Exec(n: nat, es: seq<Event>): State
  {
    if es == [] then Init(n) else Apply(Exec(n, es[..|es| - 1]), es[|es| - 1])
  }

  // Counting over the workers.

  /** Between taking and dropping the reference of the task queue or the result queue. */
  function Inside(pc: Pc, res: bool): nat
  {
    if (if res then pc.Enq? else pc.Deq?) && !pc.p.Ref? then 1 else 0
  }

  predicate HasLock(pc: Pc, res: bool)
  {
    (if res then pc.Enq? else pc.Deq?) && (pc.p.Check? || pc.p.Look? || pc.p.Unlock?)
  }

  /** The task that a worker still has to deliver. */
  function Carried(pc: Pc): Got
  {
    match pc
    case Deq(_, got) => got
    case Run(t) => Got(t)
    case Enq(_, t, out) => if out.Busy? then Got(t) else Nothing
    case _ => Nothing
  }

  function One(g: Got, t: Task): nat { if g == Got(t) then 1 else 0 }

  function CountInside(ws: seq<Pc>, res: bool): nat
  {
    if ws == [] then 0 else CountInside(ws[..|ws| - 1], res) + Inside(ws[|ws| - 1], res)
  }

  /** How often the workers together have task `t` in hand. */
  function InHand(ws: seq<Pc>, t: Task): nat
  {
    if ws == [] then 0 else InHand(ws[..|ws| - 1], t) + One(Carried(ws[|ws| - 1]), t)
  }

  lemma {:induction false} CountUpdate(ws: seq<Pc>, w: nat, pc: Pc, res: bool)
    requires w < |ws|
    ensures CountInside(ws[w := pc], res) == CountInside(ws, res) - Inside(ws[w], res) + Inside(pc, res)
  {
    hide Inside;
    var n := |ws| - 1;
    if w < n {
      CountUpdate(ws[..n], w, pc, res);
      assert ws[w := pc][..n] == ws[..n][w := pc];
    } else {
      assert ws[w := pc][..n] == ws[..n];
    }
  }

  lemma {:induction false} HandsUpdate(ws: seq<Pc>, w: nat, pc: Pc, t: Task)
    requires w < |ws|
    ensures InHand(ws[w := pc], t) == InHand(ws, t) - One(Carried(ws[w]), t) + One(Carried(pc), t)
  {
    hide Carried, One;
    var n := |ws| - 1;
    if w < n {
      HandsUpdate(ws[..n], w, pc, t);
      assert ws[w := pc][..n] == ws[..n][w := pc];
    } else {
      assert ws[w := pc][..n] == ws[..n];
    }
  }

  lemma {:induction false} NobodyInside(ws: seq<Pc>, res: bool)
    requires forall w :: 0 <= w < |ws| ==> ws[w].Exited? || ws[w].Top?
    ensures CountInside(ws, res) == 0 && forall t :: InHand(ws, t) == 0
  {
    if ws != [] {
      NobodyInside(ws[..|ws| - 1], res);
    }
  }

  lemma {:induction false} SomebodyInside(ws: seq<Pc>, w: nat, res: bool)
    requires w < |ws|
    ensures CountInside(ws, res) >= Inside(ws[w], res)
  {
    if w < |ws| - 1 {
      SomebodyInside(ws[..|ws| - 1], w, res);
    }
  }

  // The invariant.

  predicate AllExited(ws: seq<Pc>, n: nat)
  {
    n <= |ws| && forall w :: 0 <= w < n ==> ws[w].Exited?
  }

  predicate JoinOk(s: State)
  {
    match s.boss
    case Idle => true
    case Terminating => true
    case ResultsStopped => true
    case Joining(i) => AllExited(s.workers, i)
    case _ => AllExited(s.workers, |s.workers|)
  }

  predicate FlagsOk(s: State)
  {
    && (s.terminated <==> !s.boss.Idle?)
    && (s.resQ.interrupt <==> !s.boss.Idle? && !s.boss.Terminating?)
    && (s.taskQ.interrupt <==> !s.boss.Idle? && !s.boss.Terminating? && !s.boss.ResultsStopped?)
  }

  /** The reference that the tasklet itself has. */
  function Own(s: State, res: bool): nat
  {
    if s.boss.Finished? || s.boss.TasksGone? || (res && s.boss.ResultsGone?) then 0 else 1
  }

  function TheQueue(s: State, res: bool): Queue { if res then s.resQ else s.taskQ }

  predicate RefsOk(s: State, res: bool)
  {
    && TheQueue(s, res).ref == Own(s, res) + CountInside(s.workers, res)
    && TheQueue(s, res).frees == if TheQueue(s, res).ref == 0 then 1 else 0
  }

  predicate LockOk(s: State, res: bool)
  {
    forall w :: 0 <= w < |s.workers| ==> (HasLock(s.workers[w], res) <==> TheQueue(s, res).holder == Held(w))
  }

  predicate HolderOk(s: State, res: bool)
  {
    TheQueue(s, res).holder.Held? ==> TheQueue(s, res).holder.w < |s.workers|
  }

  predicate PcOk(pc: Pc)
  {
    && (pc.Deq? && pc.got.Got? ==> pc.p.Unlock? || pc.p.Deref?)
    && (pc.Enq? ==> (pc.out.Busy? <==> !pc.p.Unlock? && !pc.p.Deref?))
  }

  /** A worker that has dropped a result is on its way out. */
  predicate DropOk(s: State, w: nat)
    requires w < |s.workers| == |s.drops|
  {
    var pc := s.workers[w];
    && PcOk(pc) && s.drops[w] <= 1
    && (pc.Enq? && pc.out.Dropped? ==> s.drops[w] == 1)
    && (s.drops[w] == 1 ==> s.terminated && (pc.Top? || pc.Exited? || (pc.Enq? && pc.out.Dropped?)))
  }

  predicate DropsOk(s: State)
  {
    |s.workers| == |s.drops| && forall w :: 0 <= w < |s.workers| ==> DropOk(s, w)
  }

  /** No well-formed task gets lost on the way. */
  ghost predicate Conserved(s: State)
  {
    forall t :: s.taken[t] == InHand(s.workers, t) + Accounted(s)[t]
  }

  function Accounted(s: State): multiset<Task> { multiset(s.results) + s.dropped + s.malformed + s.refused }

  ghost predicate Inv(s: State)
  {
    && JoinOk(s) && FlagsOk(s) && DropsOk(s) && Conserved(s)
    && RefsOk(s, false) && RefsOk(s, true)
    && LockOk(s, false) && LockOk(s, true) && HolderOk(s, false) && HolderOk(s, true)
  }

  // A worker's step keeps each part of the invariant.

  predicate Moved(s: State, s': State, w: nat)
  {
    w < |s.workers| == |s'.workers| && s'.workers == s.workers[w := s'.workers[w]] && s'.boss == s.boss
  }

  lemma JoinKeeps(s: State, s': State, w: nat)
    requires JoinOk(s) && Moved(s, s', w) && !s.workers[w].Exited?
    ensures JoinOk(s') && Own(s, false) == 1 && Own(s, true) == 1
  {
  }

  /** The reference count follows the worker, unless the tasklet has let go. */
  lemma RefsKeep(s: State, s': State, w: nat, res: bool)
    requires Moved(s, s', w) && RefsOk(s, res) && Own(s, res) == 1
    requires TheQueue(s', res).ref == TheQueue(s, res).ref - Inside(s.workers[w], res) + Inside(s'.workers[w], res)
    requires TheQueue(s', res).frees == TheQueue(s, res).frees
             || (TheQueue(s, res).ref != 1 && TheQueue(s', res) == DropRef(TheQueue(s, res)))
    ensures RefsOk(s', res)
  {
    hide Inside;
    CountUpdate(s.workers, w, s'.workers[w], res);
  }

  lemma LockKeeps(s: State, s': State, w: nat, res: bool)
    requires Moved(s, s', w) && LockOk(s, res) && HolderOk(s, res)
    requires var h, h' := TheQueue(s, res).holder, TheQueue(s', res).holder;
             if HasLock(s'.workers[w], res) then h' == Held(w) && (h == h' || h.Free?)
             else if HasLock(s.workers[w], res) then h' == Free else h' == h
    ensures LockOk(s', res) && HolderOk(s', res)
  {
    hide HasLock;
    forall v | 0 <= v < |s'.workers|
      ensures HasLock(s'.workers[v], res) <==> TheQueue(s', res).holder == Held(v)
    {
      assert HasLock(s.workers[v], res) <==> TheQueue(s, res).holder == Held(v);
      assert HasLock(s.workers[w], res) <==> TheQueue(s, res).holder == Held(w);
    }
  }

  lemma DropsKeep(s: State, s': State, w: nat)
    requires Moved(s, s', w) && DropsOk(s) && |s'.drops| == |s.drops| && s'.terminated == s.terminated
    requires s'.drops == s.drops[w := s'.drops[w]] && DropOk(s', w)
    ensures DropsOk(s')
  {
    hide PcOk;
    forall v | 0 <= v < |s'.workers|
      ensures DropOk(s', v)
    {
      assert DropOk(s, v);
    }
  }

  lemma HandsKeep(s: State, s': State, w: nat)
    requires Moved(s, s', w) && Conserved(s)
    requires forall t :: s'.taken[t] + One(Carried(s.workers[w]), t) + Accounted(s)[t] ==
                         s.taken[t] + One(Carried(s'.workers[w]), t) + Accounted(s')[t]
    ensures Conserved(s')
  {
    hide Carried, One, InHand, Accounted;
    forall t
      ensures s'.taken[t] == InHand(s'.workers, t) + Accounted(s')[t]
    {
      HandsUpdate(s.workers, w, s'.workers[w], t);
    }
  }

  predicate QueueKept(s: State, s': State, w: nat, res: bool)
    requires w < |s.workers| == |s'.workers|
  {
    Inside(s'.workers[w], res) == Inside(s.workers[w], res) == 0 && TheQueue(s', res) == TheQueue(s, res)
  }

  lemma OtherQueue(s: State, s': State, w: nat, res: bool)
    requires Moved(s, s', w) && RefsOk(s, res) && Own(s, res) == 1 && LockOk(s, res) && HolderOk(s, res)
    requires QueueKept(s, s', w, res)
    ensures RefsOk(s', res) && LockOk(s', res) && HolderOk(s', res)
  {
    RefsKeep(s, s', w, res);
    LockKeeps(s, s', w, res);
  }

  /** One phase of a call: the counts and the mutex follow. */
  lemma CallKeeps(s: State, s': State, w: nat, res: bool, p: Phase)
    requires Moved(s, s', w) && Own(s, res) == 1 && TheQueue(s', res) == CallStep(TheQueue(s, res), p, w)
    requires RefsOk(s, res) && LockOk(s, res) && HolderOk(s, res)
    requires Inside(s.workers[w], res) == (if p.Ref? then 0 else 1)
    requires Inside(s'.workers[w], res) == (if p.Deref? then 0 else 1)
    requires HasLock(s.workers[w], res) <==> p.Check? || p.Look? || p.Unlock?
    requires HasLock(s'.workers[w], res) <==> p.Check? || p.Look? || (p.Lock? && TheQueue(s, res).holder.Free?)
    ensures RefsOk(s', res) && LockOk(s', res) && HolderOk(s', res)
  {
    hide Inside, HasLock, CountInside, RefsOk, LockOk, HolderOk, Own;
    RefAt(s, w, res);
    RefsKeep(s, s', w, res);
    LockAt(s, w, res);
    LockKeeps(s, s', w, res);
  }

  lemma LockAt(s: State, w: nat, res: bool)
    requires w < |s.workers| && LockOk(s, res)
    ensures HasLock(s.workers[w], res) <==> TheQueue(s, res).holder == Held(w)
  {
  }

  lemma RefAt(s: State, w: nat, res: bool)
    requires w < |s.workers| && RefsOk(s, res)
    ensures TheQueue(s, res).ref >= Own(s, res) + Inside(s.workers[w], res)
    ensures TheQueue(s, res).ref == 0 <==> TheQueue(s, res).frees != 0
  {
    SomebodyInside(s.workers, w, res);
  }

  lemma DeqShape(s: State, w: nat, stuck: bool)
    requires w < |s.workers| == |s.drops| && s.workers[w].Deq? && DropOk(s, w)
    ensures Moved(s, DeqStep(s, w, stuck), w)
    ensures DeqStep(s, w, stuck).drops == s.drops && DeqStep(s, w, stuck).terminated == s.terminated
    ensures DropOk(DeqStep(s, w, stuck), w) && FlagsOk(DeqStep(s, w, stuck)) == FlagsOk(s)
  {
    hide DropOk;
    DeqDrop(s, w, stuck);
  }

  lemma DeqDrop(s: State, w: nat, stuck: bool)
    requires w < |s.workers| == |s.drops| && s.workers[w].Deq? && DropOk(s, w)
    ensures DropOk(DeqStep(s, w, stuck), w)
  {
    hide FlagsOk, AddRef, DropRef;
  }

  lemma DeqOther(s: State, w: nat, stuck: bool)
    requires w < |s.workers| == |s.drops| && s.workers[w].Deq?
    ensures QueueKept(s, DeqStep(s, w, stuck), w, true)
  {
    hide DropOk;
  }

  lemma DeqCall(s: State, w: nat, stuck: bool)
    requires w < |s.workers| && s.workers[w].Deq?
    ensures var p, pc, pc' := s.workers[w].p, s.workers[w], DeqStep(s, w, stuck).workers[w];
            && TheQueue(DeqStep(s, w, stuck), false) == CallStep(s.taskQ, p, w)
            && Inside(pc, false) == (if p.Ref? then 0 else 1) && Inside(pc', false) == (if p.Deref? then 0 else 1)
            && (HasLock(pc, false) <==> p.Check? || p.Look? || p.Unlock?)
            && (HasLock(pc', false) <==> p.Check? || p.Look? || (p.Lock? && s.taskQ.holder.Free?))
  {
    hide CallStep, Takes, Rejects;
  }

  lemma EnqCall(s: State, w: nat, stuck: bool)
    requires w < |s.workers| == |s.drops| && s.workers[w].Enq?
    ensures var p, pc, pc' := s.workers[w].p, s.workers[w], EnqStep(s, w, stuck).workers[w];
            && TheQueue(EnqStep(s, w, stuck), true) == CallStep(s.resQ, p, w)
            && Inside(pc, true) == (if p.Ref? then 0 else 1) && Inside(pc', true) == (if p.Deref? then 0 else 1)
            && (HasLock(pc, true) <==> p.Check? || p.Look? || p.Unlock?)
            && (HasLock(pc', true) <==> p.Check? || p.Look? || (p.Lock? && s.resQ.holder.Free?))
  {
    hide CallStep, Sends, Drops;
  }

  lemma Plus(a: multiset<Task>, b: multiset<Task>, x: Task)
    requires b == a + multiset{x}
    ensures forall t :: b[t] == a[t] + One(Got(x), t)
  {
  }

  lemma SameAccounted(s: State, s': State)
    requires s'.results == s.results && s'.dropped == s.dropped
    requires s'.malformed == s.malformed && s'.refused == s.refused
    ensures Accounted(s') == Accounted(s)
  {
  }

  lemma MoreMalformed(s: State, s': State, x: Task)
    requires s'.results == s.results && s'.dropped == s.dropped
    requires s'.malformed == s.malformed + multiset{x} && s'.refused == s.refused
    ensures forall t :: Accounted(s')[t] == Accounted(s)[t] + One(Got(x), t)
  {
  }

  lemma MoreDropped(s: State, s': State, x: Task)
    requires s'.results == s.results && s'.dropped == s.dropped + multiset{x}
    requires s'.malformed == s.malformed && s'.refused == s.refused
    ensures forall t :: Accounted(s')[t] == Accounted(s)[t] + One(Got(x), t)
  {
  }

  lemma MoreResults(s: State, s': State, x: Task)
    requires s'.results == s.results + [x] && s'.dropped == s.dropped
    requires s'.malformed == s.malformed && s'.refused == s.refused
    ensures forall t :: Accounted(s')[t] == Accounted(s)[t] + One(Got(x), t)
  {
    assert multiset(s'.results) == multiset(s.results) + multiset{x};
  }

  lemma MoreRefused(s: State, s': State, x: Task)
    requires s'.results == s.results && s'.dropped == s.dropped
    requires s'.malformed == s.malformed && s'.refused == s.refused + multiset{x}
    ensures forall t :: Accounted(s')[t] == Accounted(s)[t] + One(Got(x), t)
  {
  }

  lemma NoneCarried()
    ensures forall t :: One(Nothing, t) == 0
  {
  }

  /** What a step on the task queue does with tasks. */
  lemma DeqParts(s: State, w: nat, stuck: bool)
    requires w < |s.workers| == |s.drops| && s.workers[w].Deq? && PcOk(s.workers[w])
    ensures var s', pc := DeqStep(s, w, stuck), s.workers[w];
            var c, c' := Carried(pc), Carried(s'.workers[w]);
            && s'.results == s.results && s'.dropped == s.dropped && s'.refused == s.refused
            && if pc.p.Look? && s.pending != [] && !stuck then
                 c.Nothing? && c'.Got? && s'.taken == s.taken + multiset{c'.t} && s'.malformed == s.malformed
               else if pc.p.Deref? && pc.got.Got? && !pc.got.t.wellFormed then
                 c.Got? && c'.Nothing? && s'.taken == s.taken && s'.malformed == s.malformed + multiset{c.t}
               else
                 c' == c && s'.taken == s.taken && s'.malformed == s.malformed
  {
  }

  lemma DeqHands(s: State, w: nat, stuck: bool)
    requires w < |s.workers| == |s.drops| && s.workers[w].Deq? && PcOk(s.workers[w]) && DropOk(s, w) && Conserved(s)
    ensures Conserved(DeqStep(s, w, stuck))
  {
    hide InHand, Conserved, DeqStep, Carried, One, Accounted, PcOk, DropOk;
    var s', pc := DeqStep(s, w, stuck), s.workers[w];
    DeqShape(s, w, stuck);
    DeqParts(s, w, stuck);
    NoneCarried();
    if pc.p.Look? && s.pending != [] && !stuck {
      SameAccounted(s, s');
      Plus(s.taken, s'.taken, Carried(s'.workers[w]).t);
    } else if pc.p.Deref? && pc.got.Got? && !pc.got.t.wellFormed {
      MoreMalformed(s, s', Carried(pc).t);
    } else {
      SameAccounted(s, s');
    }
    HandsKeep(s, s', w);
  }

  lemma DeqKeeps(s: State, w: nat, stuck: bool)
    requires Inv(s) && w < |s.workers| && s.workers[w].Deq?
    ensures Inv(DeqStep(s, w, stuck))
  {
    hide CountInside, InHand, LockOk, JoinOk, DropsOk, DropOk, Conserved, RefsOk, HolderOk, Own, AllExited, DeqStep,
      FlagsOk, QueueKept;
    DropAt(s, w);
    var s' := DeqStep(s, w, stuck);
    DeqShape(s, w, stuck);
    JoinKeeps(s, s', w);
    DropsKeep(s, s', w);
    DeqOther(s, w, stuck);
    DeqCall(s, w, stuck);
    CallKeeps(s, s', w, false, s.workers[w].p);
    OtherQueue(s, s', w, true);
    DeqHands(s, w, stuck);
  }

  lemma EnqShape(s: State, w: nat, stuck: bool)
    requires w < |s.workers| == |s.drops| && s.workers[w].Enq? && DropOk(s, w) && FlagsOk(s)
    ensures var s' := EnqStep(s, w, stuck);
            && Moved(s, s', w) && |s'.drops| == |s.drops| && s'.drops == s.drops[w := s'.drops[w]]
            && s'.terminated == s.terminated && DropOk(s', w) && FlagsOk(s')
  {
    hide DropOk;
    EnqDrop(s, w, stuck);
  }

  lemma EnqDrop(s: State, w: nat, stuck: bool)
    requires w < |s.workers| == |s.drops| && s.workers[w].Enq? && DropOk(s, w) && FlagsOk(s)
    ensures |EnqStep(s, w, stuck).workers| == |EnqStep(s, w, stuck).drops| && DropOk(EnqStep(s, w, stuck), w)
  {
    hide AddRef, DropRef;
  }

  lemma EnqOther(s: State, w: nat, stuck: bool)
    requires w < |s.workers| == |s.drops| && s.workers[w].Enq?
    ensures QueueKept(s, EnqStep(s, w, stuck), w, false)
  {
    hide DropOk;
  }

  /** What a step on the result queue does with tasks. */
  lemma EnqParts(s: State, w: nat, stuck: bool)
    requires w < |s.workers| == |s.drops| && s.workers[w].Enq? && PcOk(s.workers[w])
    ensures var s', pc := EnqStep(s, w, stuck), s.workers[w];
            var c, c' := Carried(pc), Carried(s'.workers[w]);
            && s'.taken == s.taken && s'.malformed == s.malformed && s'.refused == s.refused
            && if pc.p.Check? && s.resQ.interrupt then
                 c.Got? && c'.Nothing? && s'.dropped == s.dropped + multiset{c.t} && s'.results == s.results
               else if pc.p.Look? && !stuck then
                 c.Got? && c'.Nothing? && s'.results == s.results + [c.t] && s'.dropped == s.dropped
               else
                 c' == c && s'.results == s.results && s'.dropped == s.dropped
  {
  }

  lemma EnqHands(s: State, w: nat, stuck: bool)
    requires w < |s.workers| == |s.drops| && s.workers[w].Enq? && DropOk(s, w) && Conserved(s) && FlagsOk(s)
    ensures Conserved(EnqStep(s, w, stuck))
  {
    hide InHand, Conserved, EnqStep, Carried, One, Accounted, FlagsOk;
    var s', pc := EnqStep(s, w, stuck), s.workers[w];
    EnqShape(s, w, stuck);
    EnqParts(s, w, stuck);
    NoneCarried();
    if pc.p.Check? && s.resQ.interrupt {
      MoreDropped(s, s', Carried(pc).t);
    } else if pc.p.Look? && !stuck {
      MoreResults(s, s', Carried(pc).t);
    } else {
      SameAccounted(s, s');
    }
    HandsKeep(s, s', w);
  }

  lemma EnqKeeps(s: State, w: nat, stuck: bool)
    requires Inv(s) && w < |s.workers| && s.workers[w].Enq?
    ensures Inv(EnqStep(s, w, stuck))
  {
    hide CountInside, InHand, LockOk, JoinOk, DropsOk, DropOk, Conserved, RefsOk, HolderOk, Own, AllExited, EnqStep,
      FlagsOk, QueueKept;
    DropAt(s, w);
    var s' := EnqStep(s, w, stuck);
    EnqShape(s, w, stuck);
    JoinKeeps(s, s', w);
    DropsKeep(s, s', w);
    EnqOther(s, w, stuck);
    EnqCall(s, w, stuck);
    CallKeeps(s, s', w, true, s.workers[w].p);
    OtherQueue(s, s', w, false);
    EnqHands(s, w, stuck);
  }

  /** The steps outside both queues: leaving the loop, starting a call, running a task. */
  lemma LocalKeeps(s: State, w: nat, stuck: bool)
    requires Inv(s) && w < |s.workers| && (s.workers[w].Top? || s.workers[w].Run?)
    ensures Inv(WorkStep(s, w, stuck))
  {
    hide CountInside, InHand, LockOk, JoinOk, DropsOk, Conserved, RefsOk, HolderOk, Own, AllExited, FlagsOk;
    DropAt(s, w);
    var s' := WorkStep(s, w, stuck);
    JoinKeeps(s, s', w);
    LocalShape(s, w, stuck);
    DropsKeep(s, s', w);
    OtherQueue(s, s', w, false);
    OtherQueue(s, s', w, true);
    LocalHands(s, w, stuck);
  }

  lemma LocalHands(s: State, w: nat, stuck: bool)
    requires w < |s.workers| == |s.drops| && (s.workers[w].Top? || s.workers[w].Run?) && Conserved(s)
    ensures Conserved(WorkStep(s, w, stuck))
  {
    hide InHand, Conserved, One, Accounted;
    var s', pc := WorkStep(s, w, stuck), s.workers[w];
    NoneCarried();
    if pc.Run? && !pc.t.fits {
      MoreRefused(s, s', pc.t);
    } else {
      SameAccounted(s, s');
    }
    HandsKeep(s, s', w);
  }

  lemma LocalShape(s: State, w: nat, stuck: bool)
    requires w < |s.workers| == |s.drops| && (s.workers[w].Top? || s.workers[w].Run?) && DropOk(s, w)
    ensures var s' := WorkStep(s, w, stuck);
            && Moved(s, s', w) && s'.drops == s.drops && s'.terminated == s.terminated && DropOk(s', w)
            && QueueKept(s, s', w, false) && QueueKept(s, s', w, true) && FlagsOk(s') == FlagsOk(s)
  {
  }

  lemma DropAt(s: State, w: nat)
    requires DropsOk(s) && w < |s.workers|
    ensures |s.drops| == |s.workers| && DropOk(s, w) && PcOk(s.workers[w])
  {
  }

  lemma BossRefs(s: State, res: bool)
    requires RefsOk(s, res) && JoinOk(s) && LockOk(s, res) && HolderOk(s, res)
    ensures RefsOk(BossStep(s), res) && LockOk(BossStep(s), res) && HolderOk(BossStep(s), res)
  {
    hide CountInside, RefsOk, HasLock;
    BossCounts(s, res);
    var s' := BossStep(s);
    assert s'.workers == s.workers && TheQueue(s', res).holder == TheQueue(s, res).holder;
  }

  lemma BossCounts(s: State, res: bool)
    requires RefsOk(s, res) && JoinOk(s)
    ensures RefsOk(BossStep(s), res)
  {
    hide CountInside;
    if s.boss.Joined? || s.boss.ResultsGone? {
      NobodyInside(s.workers, res);
    }
  }

  lemma BossFlags(s: State)
    requires FlagsOk(s) && JoinOk(s) && DropsOk(s)
    ensures FlagsOk(BossStep(s)) && JoinOk(BossStep(s)) && DropsOk(BossStep(s))
  {
    forall w | 0 <= w < |s.workers|
      ensures DropOk(BossStep(s), w)
    {
      assert DropOk(s, w);
    }
  }

  lemma BossKeeps(s: State)
    requires Inv(s)
    ensures Inv(BossStep(s))
  {
    hide CountInside, InHand, FlagsOk, JoinOk, DropsOk, RefsOk, LockOk, HolderOk;
    BossFlags(s);
    BossRefs(s, false);
    BossRefs(s, true);
    SameAccounted(s, BossStep(s));
  }

  lemma StepInv(s: State, e: Event)
    requires Inv(s)
    ensures Inv(Apply(s, e))
  {
    hide DeqStep, EnqStep, BossStep, JoinOk, FlagsOk, RefsOk, LockOk, HolderOk, DropOk, InHand;
    match e
    case Arrive(t) => ArriveKeeps(s, t);
    case Shutdown => BossKeeps(s);
    case Work(w, stuck) =>
      if w < |s.workers| {
        match s.workers[w]
        case Deq(_, _) => DeqKeeps(s, w, stuck);
        case Enq(_, _, _) => EnqKeeps(s, w, stuck);
        case Exited =>
        case _ => LocalKeeps(s, w, stuck);
      }
  }

  lemma ArriveKeeps(s: State, t: Task)
    requires Inv(s)
    ensures Inv(s.(pending := s.pending + [t]))
  {
    hide CountInside, InHand, PcOk;
    var s' := s.(pending := s.pending + [t]);
    forall w | 0 <= w < |s'.workers|
      ensures DropOk(s', w)
    {
      assert DropOk(s, w);
    }
  }

  lemma InitInv(n: nat)
    ensures Inv(Init(n))
  {
    NobodyInside(Init(n).workers, false);
    NobodyInside(Init(n).workers, true);
  }

  lemma {:induction false} RunInv(n: nat, es: seq<Event>)
    ensures Inv(Exec(n, es)) && |Exec(n, es).workers| == n
  {
    hide Inv, Init, Apply;
    if es == [] {
      InitInv(n);
      assert |Init(n).workers| == n by {
        InitSize(n);
      }
    } else {
      RunInv(n, es[..|es| - 1]);
      StepInv(Exec(n, es[..|es| - 1]), es[|es| - 1]);
      StepSize(Exec(n, es[..|es| - 1]), es[|es| - 1]);
    }
  }

  lemma InitSize(n: nat)
    ensures |Init(n).workers| == n
  {
  }

  lemma StepSize(s: State, e: Event)
    ensures |Apply(s, e).workers| == |s.workers|
  {
    hide CallStep, DeqNext, EnqNext, Takes, Rejects, Sends, Drops;
  }
}
