/** Starting and joining the threads of a tasklet, and a start that fails half-way. */
module ThreadPool {
  import opened Executor

  /** How many threads are started: up to the first creation that fails. */
  function Started(results: seq<int>): (k: nat)
    ensures k <= |results|
    ensures forall j :: 0 <= j < k ==> results[j] == 0
    ensures k < |results| ==> results[k] != 0
  {
    if results == [] || results[0] != 0 then 0 else 1 + Started(results[1..])
  }

  function Upto(n: nat): (s: seq<nat>)
    ensures |s| == n && forall i :: 0 <= i < n ==> s[i] == i
  {
    seq(n, i => i)
  }

  class Pool {
    const initiated: array<bool>

    /** calloc: no thread is started. */
    constructor (threadCnt: nat)
      ensures initiated.Length == threadCnt && fresh(initiated)
      ensures forall j :: 0 <= j < threadCnt ==> !initiated[j]
    {
      initiated := new bool[threadCnt](i => false);
    }

    /** `results` is what the creations return. After a failure the threads already
        started are joined before the error is returned. */
    method ThreadPoolInit(results: seq<int>) returns (ret: int, joined: seq<nat>)
      requires |results| == initiated.Length && forall j :: 0 <= j < initiated.Length ==> !initiated[j]
      modifies initiated
      ensures var k := Started(results);
              && ret == (if k < |results| then results[k] else 0)
              && joined == (if k < |results| then Upto(k) else [])
              && forall j :: 0 <= j < |results| ==> (initiated[j] <==> j < k)
    {
      joined := [];
      for i := 0 to |results|
        invariant i <= Started(results)
        invariant forall j :: 0 <= j < |results| ==> (initiated[j] <==> j < i)
      {
        initiated[i] := false;
        if results[i] != 0 {
          joined := ThreadPoolFinalize(i);
          return results[i], joined;
        }
        initiated[i] := true;
      }
      ret := 0;
    }

    /** The joining loop, in the order of the threads; `k` of them have been started. */
    method ThreadPoolFinalize(k: nat) returns (joined: seq<nat>)
      requires k <= initiated.Length && forall j :: 0 <= j < initiated.Length ==> (initiated[j] <==> j < k)
      ensures joined == Upto(k)
    {
      joined := [];
      for i := 0 to initiated.Length
        invariant joined == if i <= k then Upto(i) else Upto(k)
      {
        if initiated[i] {
          joined := joined + [i];
        }
      }
    }
  }

  predicate NoShutdown(es: seq<Event>) { forall e <- es :: !e.Shutdown? }

  predicate Running(s: State) { !s.terminated && forall w :: 0 <= w < |s.workers| ==> !s.workers[w].Exited? }

  lemma StaysRunning(s: State, e: Event)
    requires Running(s) && !e.Shutdown?
    ensures Running(Apply(s, e)) && |Apply(s, e).workers| == |s.workers|
  {
    hide WorkStep;
    if e.Work? && e.w < |s.workers| == |s.drops| {
      GoesOn(s, e.w, e.stuck);
    }
  }

  lemma GoesOn(s: State, w: nat, stuck: bool)
    requires w < |s.workers| == |s.drops| && !s.terminated && !s.workers[w].Exited?
    ensures var s' := WorkStep(s, w, stuck);
            && |s'.workers| == |s.workers| && !s'.workers[w].Exited? && !s'.terminated
            && s'.workers == s.workers[w := s'.workers[w]]
  {
    hide DeqStep, EnqStep;
    if s.workers[w].Deq? {
      DeqGoesOn(s, w, stuck);
    } else if s.workers[w].Enq? {
      EnqGoesOn(s, w, stuck);
    }
  }

  lemma DeqGoesOn(s: State, w: nat, stuck: bool)
    requires w < |s.workers| && s.workers[w].Deq?
    ensures Moved(s, DeqStep(s, w, stuck), w) && !DeqStep(s, w, stuck).workers[w].Exited?
    ensures DeqStep(s, w, stuck).terminated == s.terminated
  {
    hide CallStep, Takes, Rejects;
  }

  lemma EnqGoesOn(s: State, w: nat, stuck: bool)
    requires w < |s.workers| == |s.drops| && s.workers[w].Enq?
    ensures Moved(s, EnqStep(s, w, stuck), w) && !EnqStep(s, w, stuck).workers[w].Exited?
    ensures EnqStep(s, w, stuck).terminated == s.terminated
  {
    hide CallStep, Sends, Drops;
  }

  lemma {:induction false} NobodyExits(n: nat, es: seq<Event>)
    requires NoShutdown(es)
    ensures Running(Exec(n, es)) && |Exec(n, es).workers| == n
  {
    hide Apply, Running;
    if es == [] {
      StartsRunning(n);
    } else {
      assert es[|es| - 1] in es;
      NobodyExits(n, es[..|es| - 1]);
      StaysRunning(Exec(n, es[..|es| - 1]), es[|es| - 1]);
    }
  }

  lemma StartsRunning(n: nat)
    ensures Running(Init(n)) && |Init(n).workers| == n
  {
  }

  /** The workers that a failed start joins are told to stop by nobody: the tasklet has not
      been handed out, so there is no shutdown. Whatever else happens, the join, and with
      it the failing creation, comes to an end if and only if the first thread is the one
      that could not be started. */
  lemma FailedStartEnds(results: seq<int>, es: seq<Event>)
    requires Started(results) < |results| && NoShutdown(es)
    ensures AllExited(Exec(Started(results), es).workers, Started(results)) <==> results[0] != 0
  {
    hide Exec;
    NobodyExits(Started(results), es);
  }
}
