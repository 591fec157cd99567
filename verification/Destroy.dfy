/** The whole shutdown, from the first flag to the last free. */
module Destroy {
  import opened Executor
  import opened Shutdown

  // The thread that shuts down.

  function Shuts(k: nat): seq<Event> { seq(k, i => Event.Shutdown) }

  lemma AfterOne(s: State, e: Event, es: seq<Event>)
    ensures After(s, [e] + es) == After(Apply(s, e), es)
  {
    hide Apply;
    assert ([e] + es)[1..] == es;
  }

  lemma {:induction false} AfterBoth(s: State, a: seq<Event>, b: seq<Event>)
    ensures After(s, a + b) == After(After(s, a), b)
    decreases |a|
  {
    hide Apply;
    if a == [] {
      assert a + b == b;
    } else {
      AfterBoth(Apply(s, a[0]), a[1..], b);
      assert (a + b)[1..] == a[1..] + b;
    }
  }

  /** Three steps set all flags: first that of the workers' loop, then the result queue's, then
      the task queue's. */
  lemma FlagsAreSet(s: State)
    requires s.boss.Idle?
    ensures After(s, Shuts(1)) == s.(terminated := true, boss := Terminating)
    ensures After(s, Shuts(2)) ==
            s.(terminated := true, resQ := s.resQ.(interrupt := true), boss := ResultsStopped)
    ensures After(s, Shuts(3)) ==
            s.(terminated := true, resQ := s.resQ.(interrupt := true), taskQ := s.taskQ.(interrupt := true),
               boss := Joining(0))
  {
    hide WorkStep;
    assert Shuts(3) == [Event.Shutdown] + Shuts(2) && Shuts(2) == [Event.Shutdown] + Shuts(1);
    assert Shuts(1) == [Event.Shutdown] + [];
    AfterOne(s, Event.Shutdown, Shuts(2));
    AfterOne(s, Event.Shutdown, Shuts(1));
    AfterOne(s, Event.Shutdown, []);
    var s1 := Apply(s, Event.Shutdown);
    AfterOne(s1, Event.Shutdown, Shuts(1));
    AfterOne(s1, Event.Shutdown, []);
    AfterOne(Apply(s1, Event.Shutdown), Event.Shutdown, []);
  }

  /** With all workers gone the join loop ends after one step for each of them, and then
      both queues are given up. */
  lemma {:induction false} JoinEnds(s: State, i: nat)
    requires s.boss == Joining(i) && i <= |s.workers| && AllExited(s.workers, |s.workers|)
    ensures var t := After(s, Shuts(|s.workers| - i + 4));
            t == s.(boss := Finished, resQ := DropRef(s.resQ), taskQ := DropRef(s.taskQ))
    decreases |s.workers| - i
  {
    hide WorkStep, DropRef;
    var k := |s.workers| - i + 3;
    assert Shuts(k + 1) == [Event.Shutdown] + Shuts(k);
    AfterOne(s, Event.Shutdown, Shuts(k));
    var s' := Apply(s, Event.Shutdown);
    if i < |s.workers| {
      assert s' == s.(boss := Joining(i + 1));
      JoinEnds(s', i + 1);
      assert s'.(boss := Finished, resQ := DropRef(s.resQ), taskQ := DropRef(s.taskQ)) ==
             s.(boss := Finished, resQ := DropRef(s.resQ), taskQ := DropRef(s.taskQ));
    } else {
      assert s' == s.(boss := Joined);
      GivesUp(s');
    }
  }

  lemma GivesUp(s: State)
    requires s.boss.Joined?
    ensures After(s, Shuts(3)) == s.(boss := Finished, resQ := DropRef(s.resQ), taskQ := DropRef(s.taskQ))
  {
    hide WorkStep, DropRef;
    assert Shuts(3) == [Event.Shutdown] + Shuts(2) && Shuts(2) == [Event.Shutdown] + Shuts(1);
    assert Shuts(1) == [Event.Shutdown] + [];
    AfterOne(s, Event.Shutdown, Shuts(2));
    var s1 := Apply(s, Event.Shutdown);
    AfterOne(s1, Event.Shutdown, Shuts(1));
    AfterOne(Apply(s1, Event.Shutdown), Event.Shutdown, []);
  }

  lemma {:induction false} AfterKeeps(s: State, es: seq<Event>)
    requires Inv(s)
    ensures Inv(After(s, es)) && |After(s, es).workers| == |s.workers|
    decreases |es|
  {
    hide Inv, Apply;
    if es != [] {
      StepInv(s, es[0]);
      StepSize(s, es[0]);
      AfterKeeps(Apply(s, es[0]), es[1..]);
    }
  }

  lemma WorkKeepsBoss(s: State, e: Event)
    requires e.Work?
    ensures Apply(s, e).boss == s.boss
  {
    hide CallStep, DeqNext, EnqNext, Takes, Rejects, Sends, Drops;
  }

  /** Steps of workers only. */
  lemma {:induction false} BossStays(s: State, es: seq<Event>)
    ensures Moving(s, es) <= |es| && (Moving(s, es) == |es| ==> After(s, es).boss == s.boss)
    decreases |es|
  {
    hide Apply, Blocked;
    if es != [] {
      BossStays(Apply(s, es[0]), es[1..]);
      if es[0].Work? {
        WorkKeepsBoss(s, es[0]);
      }
    }
  }

  lemma FinishedFrees(s: State)
    requires Inv(s) && s.boss.Finished?
    ensures AllExited(s.workers, |s.workers|) && s.taskQ.frees == 1 && s.resQ.frees == 1
  {
    NobodyInside(s.workers, false);
    NobodyInside(s.workers, true);
  }

  /** A shutdown that begins at any moment of any run can be brought to its end: all workers
      gone, both queue objects freed exactly once. */
  lemma ShutdownCompletes(n: nat, es: seq<Event>) returns (more: seq<Event>)
    requires Exec(n, es).boss.Idle?
    ensures var t := After(Exec(n, es), more);
            && t.boss.Finished? && AllExited(t.workers, n) && t.taskQ.frees == 1 && t.resQ.frees == 1
  {
    hide Exec, Apply, Inv, AllExited, After, Moving, DropRef;
    var s := Exec(n, es);
    RunInv(n, es);
    FlagsAreSet(s);
    var s1 := After(s, Shuts(3));
    AfterKeeps(s, Shuts(3));
    assert WindingDown(s1);
    var leave := ShutdownEnds(s1);
    AfterKeeps(s1, leave);
    BossStays(s1, leave);
    var s2 := After(s1, leave);
    JoinEnds(s2, 0);
    var joins := Shuts(|s2.workers| + 4);
    AfterKeeps(s2, joins);
    more := Shuts(3) + leave + joins;
    AfterBoth(s, Shuts(3), leave);
    AfterBoth(s, Shuts(3) + leave, joins);
    FinishedFrees(After(s, more));
  }
}
