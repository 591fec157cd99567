/** What becomes of a pool: how many sessions its opener opens, and what one use of it
    leaves behind. */
module PoolUse {
  import opened SessionPool

  // The opener.

  /** An open failed while the opener was at it. */
  ghost predicate OpenFailed(s0: State, es: seq<Event>)
  {
    es != [] &&
    (OpenFailed(s0, es[..|es| - 1]) || (es[|es| - 1].OpenFails? && Exec(s0, es[..|es| - 1]).opener.Opening?))
  }

  predicate OpenerOk(s: State, failed: bool)
  {
    match s.opener
    case Opening(i) => i == s.pool.openCnt < s.pool.size && !failed
    case GotSession(i) => i == s.pool.openCnt < s.pool.size && !failed
    case KeyDue(i) => i + 1 == s.pool.openCnt <= s.pool.size && !failed
    case Stopped => s.pool.openCnt <= s.pool.size && (s.pool.openCnt == s.pool.size <==> !failed)
  }

  lemma OpenerStep(s: State, e: Event, failed: bool)
    requires OpenerOk(s, failed)
    ensures OpenerOk(Apply(s, e), failed || (e.OpenFails? && s.opener.Opening?))
  {
  }

  lemma {:induction false} OpenerRuns(s0: State, es: seq<Event>)
    requires IsInit(s0)
    ensures OpenerOk(Exec(s0, es), OpenFailed(s0, es))
  {
    hide Apply, OpenerOk;
    if es == [] {
      assert OpenerOk(s0, false) by {
        OpenerStarts(s0);
      }
    } else {
      OpenerRuns(s0, es[..|es| - 1]);
      OpenerStep(Exec(s0, es[..|es| - 1]), es[|es| - 1], OpenFailed(s0, es[..|es| - 1]));
    }
  }

  lemma OpenerStarts(s0: State)
    requires IsInit(s0)
    ensures OpenerOk(s0, false)
  {
  }

  /** When the opener has stopped, it has opened every session of the pool if and only if no
      open failed. */
  lemma OpenedExact(s0: State, es: seq<Event>)
    requires IsInit(s0) && Exec(s0, es).opener.Stopped?
    ensures var p := Exec(s0, es).pool; p.openCnt <= p.size && (p.openCnt == p.size <==> !OpenFailed(s0, es))
  {
    hide Exec, OpenFailed;
    OpenerRuns(s0, es);
  }

  /** After that nothing more is opened, whatever happens. */
  lemma {:induction false} StoppedStays(s: State, es: seq<Event>)
    requires s.opener.Stopped?
    ensures Exec(s, es).opener.Stopped? && Exec(s, es).pool.openCnt == s.pool.openCnt
  {
    hide Apply;
    if es != [] {
      StoppedStays(s, es[..|es| - 1]);
      StoppedStep(Exec(s, es[..|es| - 1]), es[|es| - 1]);
    }
  }

  lemma StoppedStep(s: State, e: Event)
    requires s.opener.Stopped?
    ensures Apply(s, e).opener.Stopped? && Apply(s, e).pool.openCnt == s.pool.openCnt
  {
  }

  /** The steps of an opener for which `k` opens succeed. */
  function Opens(k: nat): seq<Event>
  {
    if k == 0 then [] else Opens(k - 1) + [OpenOk] + [OpenLocked] + [OpenPost]
  }

  lemma ExecMore(s: State, es: seq<Event>, e: Event)
    ensures Exec(s, es + [e]) == Apply(Exec(s, es), e)
  {
    hide Apply;
    assert (es + [e])[..|es|] == es;
  }

  lemma OneOpen(s: State)
    requires s.opener.Opening? && s.opener.i == s.pool.openCnt
    ensures var i := s.opener.i;
            Apply(Apply(Apply(s, OpenOk), OpenLocked), OpenPost) ==
            State(Pool(s.pool.size, i + 1, s.pool.inuse, s.pool.keys + 1, s.pool.usage + {i}, s.pool.dead - {i}),
                  NextOpening(s.pool.size, i), s.invokers)
  {
  }

  lemma ThreeMore(s: State, es: seq<Event>, a: Event, b: Event, c: Event)
    ensures Exec(s, es + [a] + [b] + [c]) == Apply(Apply(Apply(Exec(s, es), a), b), c)
  {
    hide Exec, Apply;
    ExecMore(s, es, a);
    ExecMore(s, es + [a], b);
    ExecMore(s, es + [a] + [b], c);
  }

  lemma NothingYet(s: State)
    ensures Exec(s, []) == s
  {
  }

  /** And it does get there: each successful open adds a session and a key. */
  lemma {:induction false} OpensAll(s0: State, k: nat)
    requires IsInit(s0) && k <= s0.pool.size
    ensures var s := Exec(s0, Opens(k));
            && s.opener == (if k < s0.pool.size then Opening(k) else Stopped) && s.invokers == map[]
            && s.pool.size == s0.pool.size && s.pool.openCnt == s.pool.keys == k && s.pool.inuse == 0
            && s.pool.usage == s0.pool.usage + Below(k)
  {
    hide Apply, Exec;
    assert Exec(s0, []) == s0 by {
      NothingYet(s0);
    }
    if k > 0 {
      OpensAll(s0, k - 1);
      ThreeMore(s0, Opens(k - 1), OpenOk, OpenLocked, OpenPost);
      OneOpen(Exec(s0, Opens(k - 1)));
    }
  }

  lemma TakesLeast(s: State, t: Tid)
    requires Inv(s) && t !in s.invokers && s.pool.keys > 0
    ensures s.pool.usage != {} && Least(s.pool.usage) < s.pool.openCnt
    ensures var i := Least(s.pool.usage);
            Apply(Apply(s, Wait(t)), Take(t)) ==
            s.(pool := s.pool.(keys := s.pool.keys - 1, usage := s.pool.usage - {i}, inuse := s.pool.inuse + 1),
               invokers := s.invokers[t := Holding(i)])
  {
    hide Inv;
    WaitInv(s, t);
    KeyMeansFree(WaitStep(s, t), t);
    assert s.invokers[t := HasKey][t := Holding(Least(s.pool.usage))] == s.invokers[t := Holding(Least(s.pool.usage))];
  }

  lemma GivesBack(s: State, t: Tid, i: nat)
    requires t !in s.invokers && i in s.pool.usage && s.pool.keys > 0
    ensures var held := s.(pool := s.pool.(keys := s.pool.keys - 1, usage := s.pool.usage - {i},
                                           inuse := s.pool.inuse + 1),
                           invokers := s.invokers[t := Holding(i)]);
            Apply(Apply(held, Put(t)), Post(t)) == s
  {
    assert s.pool.usage - {i} + {i} == s.pool.usage;
    assert s.invokers[t := Holding(i)][t := Posting] - {t} == s.invokers;
  }

  /** One use of the pool by itself: the session taken is the least free one, and giving it
      back leaves the pool as it was. */
  lemma UseAndReturn(s: State, t: Tid)
    requires Inv(s) && t !in s.invokers && s.pool.keys > 0
    ensures s.pool.usage != {} && Least(s.pool.usage) < s.pool.openCnt
    ensures var i, used := Least(s.pool.usage), Exec(s, [Wait(t)] + [Take(t)]);
            && used.invokers == s.invokers[t := Holding(i)] && used.pool.usage == s.pool.usage - {i}
            && used.pool.keys == s.pool.keys - 1 && used.pool.inuse == s.pool.inuse + 1
            && Exec(s, [Wait(t)] + [Take(t)] + [Put(t)] + [Post(t)]) == s
  {
    hide Inv, Apply, Least;
    assert [Wait(t)][..0] == [] && Exec(s, []) == s;
    assert Exec(s, [Wait(t)]) == Apply(s, Wait(t));
    ExecMore(s, [Wait(t)], Take(t));
    ExecMore(s, [Wait(t)] + [Take(t)], Put(t));
    ExecMore(s, [Wait(t)] + [Take(t)] + [Put(t)], Post(t));
    TakesLeast(s, t);
    GivesBack(s, t, Least(s.pool.usage));
  }
}
