/** What the executor does with the messages that arrive: each is taken once and in turn,
    and an undisturbed worker serves one in a lap of its loop. */
module Service {
  import opened Executor
  import Shutdown

  function Arrivals(es: seq<Event>): seq<Task>
  {
    if es == [] then []
    else Arrivals(es[..|es| - 1]) + if es[|es| - 1].Arrive? then [es[|es| - 1].t] else []
  }

  /** Taken are the first ones of `arrived`, each once, and the rest waits in order. */
  ghost predicate InTurn(s: State, arrived: seq<Task>)
  {
    var k := |arrived| - |s.pending|;
    0 <= k && s.pending == arrived[k..] && s.taken == multiset(arrived[..k])
  }

  lemma TakeInTurn(s: State, arrived: seq<Task>)
    requires InTurn(s, arrived) && s.pending != []
    ensures InTurn(s.(pending := s.pending[1..], taken := s.taken + multiset{s.pending[0]}), arrived)
  {
    var k := |arrived| - |s.pending|;
    assert arrived[..k + 1] == arrived[..k] + [arrived[k]];
    assert arrived[k..][1..] == arrived[k + 1..] && s.pending[0] == arrived[k];
  }

  lemma ArriveInTurn(s: State, arrived: seq<Task>, t: Task)
    requires InTurn(s, arrived)
    ensures InTurn(s.(pending := s.pending + [t]), arrived + [t])
  {
    var k := |arrived| - |s.pending|;
    assert (arrived + [t])[k..] == arrived[k..] + [t] && (arrived + [t])[..k] == arrived[..k];
  }

  lemma SameTurn(s: State, s': State, arrived: seq<Task>)
    requires InTurn(s, arrived) && s'.pending == s.pending && s'.taken == s.taken
    ensures InTurn(s', arrived)
  {
  }

  /** A step takes the oldest message exactly when a worker finds one and has the memory. */
  lemma TakeStep(s: State, e: Event)
    requires !e.Arrive?
    ensures var s' := Apply(s, e);
            if e.Work? && e.w < |s.workers| == |s.drops| && Takes(s, s.workers[e.w], e.stuck)
            then s'.pending == s.pending[1..] && s'.taken == s.taken + multiset{s.pending[0]}
            else s'.pending == s.pending && s'.taken == s.taken
  {
    hide DeqNext, EnqNext, CallStep, Rejects, Sends, Drops;
  }

  /** Every message is taken once, in the order of arrival, by whatever worker: over any
      run, taken are the first arrivals and waiting are the others. */
  lemma {:induction false} ArrivalsInTurn(n: nat, es: seq<Event>)
    ensures InTurn(Exec(n, es), Arrivals(es))
  {
    hide Apply, InTurn, Takes;
    if es == [] {
      assert InTurn(Init(n), []) by {
        NoneArrived(n);
      }
    } else {
      var s, e, arrived := Exec(n, es[..|es| - 1]), es[|es| - 1], Arrivals(es[..|es| - 1]);
      ArrivalsInTurn(n, es[..|es| - 1]);
      assert arrived + [] == arrived;
      OneInTurn(s, e, arrived);
    }
  }

  lemma NoneArrived(n: nat)
    ensures InTurn(Init(n), [])
  {
  }

  lemma OneInTurn(s: State, e: Event, arrived: seq<Task>)
    requires InTurn(s, arrived)
    ensures InTurn(Apply(s, e), arrived + if e.Arrive? then [e.t] else [])
  {
    hide InTurn, WorkStep, BossStep;
    if e.Arrive? {
      ArriveInTurn(s, arrived, e.t);
    } else {
      assert arrived + [] == arrived;
      TakeStep(s, e);
      if e.Work? && e.w < |s.workers| == |s.drops| && Takes(s, s.workers[e.w], e.stuck) {
        TakeInTurn(s, arrived);
        SameTurn(s.(pending := s.pending[1..], taken := s.taken + multiset{s.pending[0]}), Apply(s, e), arrived);
      } else {
        SameTurn(s, Apply(s, e), arrived);
      }
    }
  }

  /** So every arrival waits, is in hand, or has met exactly one end. */
  lemma ArrivalsConserved(n: nat, es: seq<Event>, t: Task)
    ensures var s := Exec(n, es);
            multiset(Arrivals(es))[t] ==
            multiset(s.pending)[t] + InHand(s.workers, t) + multiset(s.results)[t] + s.dropped[t] + s.malformed[t]
            + s.refused[t]
  {
    hide Exec, InHand;
    ArrivalsInTurn(n, es);
    Shutdown.TasksConserved(n, es, t);
    var a, k := Arrivals(es), |Arrivals(es)| - |Exec(n, es).pending|;
    assert a == a[..k] + a[k..];
  }

  /** `k` steps of one worker that nothing goes wrong for. */
  function Steps(s: State, w: nat, k: nat): State
  {
    if k == 0 then s else Apply(Steps(s, w, k - 1), Work(w, false))
  }

  /** Nobody holds a mutex, nobody has begun to shut down. */
  predicate Quiet(s: State, w: nat)
  {
    && w < |s.workers| == |s.drops| && !s.terminated && !s.taskQ.interrupt && !s.resQ.interrupt
    && s.taskQ.holder.Free? && s.resQ.holder.Free? && s.taskQ.ref >= 1 && s.resQ.ref >= 1
  }

  lemma {:induction false} StepsAdd(s: State, w: nat, a: nat, b: nat)
    ensures Steps(s, w, a + b) == Steps(Steps(s, w, a), w, b)
  {
    hide Apply;
    if b > 0 {
      StepsAdd(s, w, a, b - 1);
    }
  }

  lemma SetTwice(ws: seq<Pc>, w: nat, a: Pc, b: Pc)
    requires w < |ws|
    ensures ws[w := a][w := b] == ws[w := b]
  {
  }

  /** One step of a call on the task queue, and one on the result queue. */
  lemma DeqWork(s: State, w: nat, q: Queue, ws: seq<Pc>, pc: Pc)
    requires w < |ws| == |s.drops| && pc.Deq? && s.workers == ws[w := pc] && s.taskQ == q
    ensures Apply(s, Work(w, false)) ==
            s.(workers := ws[w := DeqNext(s, pc.p, pc.got, false)], taskQ := CallStep(q, pc.p, w),
               pending := if Takes(s, pc, false) then s.pending[1..] else s.pending,
               taken := if Takes(s, pc, false) then s.taken + multiset{s.pending[0]} else s.taken,
               malformed := if Rejects(pc) then s.malformed + multiset{pc.got.t} else s.malformed)
  {
    hide DeqNext, CallStep, Takes, Rejects;
    SetTwice(ws, w, pc, DeqNext(s, pc.p, pc.got, false));
  }

  lemma EnqWork(s: State, w: nat, q: Queue, ws: seq<Pc>, pc: Pc)
    requires w < |ws| == |s.drops| && pc.Enq? && s.workers == ws[w := pc] && s.resQ == q && !q.interrupt
    ensures Apply(s, Work(w, false)) ==
            s.(workers := ws[w := EnqNext(s, pc.p, pc.t, pc.out, false)], resQ := CallStep(q, pc.p, w),
               results := if pc.p.Look? then s.results + [pc.t] else s.results)
  {
    hide EnqNext, CallStep;
    SetTwice(ws, w, pc, EnqNext(s, pc.p, pc.t, pc.out, false));
  }

  function Looking(s: State, w: nat): State
    requires w < |s.workers|
  {
    s.(workers := s.workers[w := Deq(Look, Nothing)], taskQ := AddRef(s.taskQ).(holder := Held(w)))
  }

  lemma FetchStarts(s: State, w: nat)
    requires Quiet(s, w) && s.workers[w].Top?
    ensures Steps(s, w, 4) == Looking(s, w)
  {
    hide Apply, DeqStep, EnqStep;
    var q, ws, n := s.taskQ, s.workers, Nothing;
    var s1 := s.(workers := ws[w := Deq(Ref, n)]);
    var s2 := s.(workers := ws[w := Deq(Lock, n)], taskQ := AddRef(q));
    var s3 := s.(workers := ws[w := Deq(Check, n)], taskQ := AddRef(q).(holder := Held(w)));
    assert Steps(s, w, 0) == s && Apply(s, Work(w, false)) == s1 by {
      TopWork(s, w);
    }
    DeqWork(s1, w, q, ws, Deq(Ref, n));
    DeqWork(s2, w, AddRef(q), ws, Deq(Lock, n));
    DeqWork(s3, w, AddRef(q).(holder := Held(w)), ws, Deq(Check, n));
    assert Steps(s, w, 1) == s1;
    assert Steps(s, w, 2) == s2;
    assert Steps(s, w, 3) == s3;
  }

  lemma TopWork(s: State, w: nat)
    requires w < |s.workers| == |s.drops|
    ensures s.workers[w].Top? && !s.terminated ==>
              Apply(s, Work(w, false)) == s.(workers := s.workers[w := Deq(Ref, Nothing)])
    ensures s.workers[w].Run? ==> Apply(s, Work(w, false)) == RunStep(s, w, s.workers[w].t)
  {
    hide DeqStep, EnqStep, RunStep;
  }

  /** The message is in the worker's hands, the mutex is free again. */
  function Fetched(s: State, w: nat): State
    requires w < |s.workers| && s.pending != []
  {
    s.(workers := s.workers[w := Deq(Deref, Got(s.pending[0]))], taskQ := AddRef(s.taskQ),
       pending := s.pending[1..], taken := s.taken + multiset{s.pending[0]})
  }

  lemma FetchTakes(s: State, w: nat)
    requires Quiet(s, w) && s.pending != []
    ensures Steps(Looking(s, w), w, 2) == Fetched(s, w)
  {
    hide Apply;
    var t, l, q := s.pending[0], Looking(s, w), AddRef(s.taskQ).(holder := Held(w));
    var s1 := l.(workers := s.workers[w := Deq(Unlock, Got(t))], pending := s.pending[1..],
                 taken := s.taken + multiset{t});
    DeqWork(l, w, q, s.workers, Deq(Look, Nothing));
    DeqWork(s1, w, q, s.workers, Deq(Unlock, Got(t)));
    assert Steps(l, w, 0) == l && Steps(l, w, 1) == s1;
  }

  lemma FetchEnds(s: State, w: nat)
    requires Quiet(s, w) && s.pending != []
    ensures var t := s.pending[0];
            Steps(Fetched(s, w), w, 1) ==
            s.(workers := s.workers[w := if t.wellFormed then Run(t) else Top], pending := s.pending[1..],
               taken := s.taken + multiset{t},
               malformed := if t.wellFormed then s.malformed else s.malformed + multiset{t})
  {
    hide Apply;
    DeqWork(Fetched(s, w), w, AddRef(s.taskQ), s.workers, Deq(Deref, Got(s.pending[0])));
    assert Steps(Fetched(s, w), w, 0) == Fetched(s, w);
  }

  /** Seven steps of a worker at the top of its loop take the oldest message. */
  lemma FetchLap(s: State, w: nat)
    requires Quiet(s, w) && s.workers[w].Top? && s.pending != []
    ensures var t := s.pending[0];
            Steps(s, w, 7) ==
            s.(workers := s.workers[w := if t.wellFormed then Run(t) else Top], pending := s.pending[1..],
               taken := s.taken + multiset{t},
               malformed := if t.wellFormed then s.malformed else s.malformed + multiset{t})
  {
    hide Steps, Looking, Fetched;
    FetchStarts(s, w);
    FetchTakes(s, w);
    FetchEnds(s, w);
    StepsAdd(s, w, 4, 2);
    StepsAdd(s, w, 6, 1);
  }

  function Sending(s: State, w: nat, t: Task): State
    requires w < |s.workers|
  {
    s.(workers := s.workers[w := Enq(Look, t, Busy)], resQ := AddRef(s.resQ).(holder := Held(w)))
  }

  lemma DeliverStarts(s: State, w: nat, t: Task)
    requires Quiet(s, w) && s.workers[w] == Run(t) && t.fits
    ensures Steps(s, w, 4) == Sending(s, w, t)
  {
    hide Apply, DeqStep, EnqStep;
    var q, ws := s.resQ, s.workers;
    var s1 := s.(workers := ws[w := Enq(Ref, t, Busy)]);
    var s2 := s.(workers := ws[w := Enq(Lock, t, Busy)], resQ := AddRef(q));
    var s3 := s.(workers := ws[w := Enq(Check, t, Busy)], resQ := AddRef(q).(holder := Held(w)));
    TopWork(s, w);
    assert Steps(s, w, 0) == s;
    EnqWork(s1, w, q, ws, Enq(Ref, t, Busy));
    EnqWork(s2, w, AddRef(q), ws, Enq(Lock, t, Busy));
    EnqWork(s3, w, AddRef(q).(holder := Held(w)), ws, Enq(Check, t, Busy));
    assert Steps(s, w, 1) == s1;
    assert Steps(s, w, 2) == s2;
    assert Steps(s, w, 3) == s3;
  }

  lemma DeliverEnds(s: State, w: nat, t: Task)
    requires Quiet(s, w)
    ensures Steps(Sending(s, w, t), w, 3) == s.(workers := s.workers[w := Top], results := s.results + [t])
  {
    hide Apply;
    var l, q := Sending(s, w, t), AddRef(s.resQ).(holder := Held(w));
    var s1 := l.(workers := s.workers[w := Enq(Unlock, t, Sent)], results := s.results + [t]);
    var s2 := s1.(workers := s.workers[w := Enq(Deref, t, Sent)], resQ := AddRef(s.resQ));
    EnqWork(l, w, q, s.workers, Enq(Look, t, Busy));
    EnqWork(s1, w, q, s.workers, Enq(Unlock, t, Sent));
    EnqWork(s2, w, AddRef(s.resQ), s.workers, Enq(Deref, t, Sent));
    assert Steps(l, w, 0) == l && Steps(l, w, 1) == s1 && Steps(l, w, 2) == s2;
  }

  /** And seven more deliver its result; one refuses a result that is too large. */
  lemma DeliverLap(s: State, w: nat, t: Task)
    requires Quiet(s, w) && s.workers[w] == Run(t)
    ensures Steps(s, w, if t.fits then 7 else 1) ==
            if t.fits then s.(workers := s.workers[w := Top], results := s.results + [t])
            else s.(workers := s.workers[w := Top], refused := s.refused + multiset{t})
  {
    hide Sending, DeqStep, EnqStep, BossStep;
    if t.fits {
      hide Steps;
      DeliverStarts(s, w, t);
      DeliverEnds(s, w, t);
      StepsAdd(s, w, 4, 3);
    } else {
      assert Steps(s, w, 0) == s;
    }
  }

  /** How many steps a lap takes. */
  function LapOf(t: Task): nat { if !t.wellFormed then 7 else if t.fits then 14 else 8 }

  /** One lap: an undisturbed worker serves exactly the oldest message and is back at the
      top of its loop, with both queue objects as before. */
  lemma OneLap(s: State, w: nat)
    requires Quiet(s, w) && s.workers[w].Top? && s.pending != []
    ensures var t := s.pending[0];
            Steps(s, w, LapOf(t)) ==
            s.(pending := s.pending[1..], taken := s.taken + multiset{t},
               malformed := if t.wellFormed then s.malformed else s.malformed + multiset{t},
               results := if t.wellFormed && t.fits then s.results + [t] else s.results,
               refused := if t.wellFormed && !t.fits then s.refused + multiset{t} else s.refused)
  {
    hide Steps;
    var t := s.pending[0];
    FetchLap(s, w);
    assert s.workers[w := Top] == s.workers;
    if t.wellFormed {
      var s' := Steps(s, w, 7);
      DeliverLap(s', w, t);
      StepsAdd(s, w, 7, if t.fits then 7 else 1);
      assert s'.workers[w := Top] == s.workers;
    }
  }
}
