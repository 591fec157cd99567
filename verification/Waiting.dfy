/** The bounded busy-wait of the queue: spin while an allowance lasts, then sleep in
    slices of 100 us against the timeout, where -1 means for ever. */
module Waiting {
  /** One pass of a wait loop as the environment decides it. */
  datatype Look = Look(interrupt: bool, blocked: bool, sleepErrno: int)

  datatype Result = Ready | TooLarge | Interrupted | TimedOut | SleepFailed(errno: int) | StillWaiting

  /** `calls` counts calls of Blocking, `sleeps` the successful sleeps among them. */
  datatype Outcome = Outcome(result: Result, acc: nat, timeoutUs: int, calls: nat, sleeps: nat)
  {
    function Plus(c: nat, s: nat): Outcome { this.(calls := calls + c, sleeps := sleeps + s) }
  }

  const ACC_CNT: nat := 2000

  function Wait(acc: nat, timeoutUs: int, looks: seq<Look>): Outcome
  {
    if looks == [] then Outcome(StillWaiting, acc, timeoutUs, 0, 0)
    else if looks[0].interrupt then Outcome(Interrupted, acc, timeoutUs, 0, 0)
    else if !looks[0].blocked then Outcome(Ready, acc + ACC_CNT, timeoutUs, 0, 0)
    else if timeoutUs != -1 && timeoutUs < 100 then Outcome(TimedOut, acc, timeoutUs, 1, 0)
    else if acc > 0 then Wait(acc - 1, timeoutUs, looks[1..]).Plus(1, 0)
    else if looks[0].sleepErrno != 0 then Outcome(SleepFailed(looks[0].sleepErrno), acc, timeoutUs, 1, 0)
    else Wait(acc, if timeoutUs != -1 then timeoutUs - 100 else -1, looks[1..]).Plus(1, 1)
  }

  /** One more look, the `k`-th. */
  lemma {:induction false} WaitAt(acc: nat, timeoutUs: int, looks: seq<Look>, k: nat)
    requires k < |looks|
    ensures var look := looks[k];
            Wait(acc, timeoutUs, looks[k..]) ==
            if look.interrupt then Outcome(Interrupted, acc, timeoutUs, 0, 0)
            else if !look.blocked then Outcome(Ready, acc + ACC_CNT, timeoutUs, 0, 0)
            else if timeoutUs != -1 && timeoutUs < 100 then Outcome(TimedOut, acc, timeoutUs, 1, 0)
            else if acc > 0 then Wait(acc - 1, timeoutUs, looks[k + 1..]).Plus(1, 0)
            else if look.sleepErrno != 0 then Outcome(SleepFailed(look.sleepErrno), acc, timeoutUs, 1, 0)
            else Wait(acc, if timeoutUs != -1 then timeoutUs - 100 else -1, looks[k + 1..]).Plus(1, 1)
  {
    assert looks[k..][0] == looks[k] && looks[k..][1..] == looks[k + 1..];
  }

  lemma NoMoreLooks(acc: nat, timeoutUs: int)
    ensures Wait(acc, timeoutUs, []) == Outcome(StillWaiting, acc, timeoutUs, 0, 0)
  {
  }

  /** With a timeout the wait never becomes endless: the remaining time stays at or
      above zero, so it is never the value that means for ever; at most `timeoutUs`
      microseconds are slept; and after `acc + timeoutUs / 100 + 1` passes there is
      a result. */
  lemma {:induction false} BoundedWait(acc: nat, timeoutUs: nat, looks: seq<Look>)
    ensures var o := Wait(acc, timeoutUs, looks);
            && o.timeoutUs == timeoutUs - 100 * o.sleeps >= 0
            && o.calls <= acc + timeoutUs / 100 + 1
            && (|looks| > acc + timeoutUs / 100 ==> o.result != StillWaiting)
    decreases |looks|
  {
    if looks != [] && !looks[0].interrupt && looks[0].blocked && timeoutUs >= 100 {
      if acc > 0 {
        BoundedWait(acc - 1, timeoutUs, looks[1..]);
      } else {
        BoundedWait(acc, timeoutUs - 100, looks[1..]);
      }
    }
  }

  predicate NeverFree(looks: seq<Look>)
  {
    forall l <- looks :: !l.interrupt && l.blocked && l.sleepErrno == 0
  }

  /** The bound is exact: when nothing ever frees the queue, the wait times out at
      precisely that call, with all whole slices slept; below 100 us at once. */
  lemma {:induction false} ExactTimeout(acc: nat, timeoutUs: nat, looks: seq<Look>)
    requires NeverFree(looks) && |looks| > acc + timeoutUs / 100
    ensures var o := Wait(acc, timeoutUs, looks);
            && o.result == TimedOut
            && (timeoutUs < 100 ==> o.calls == 1 && o.sleeps == 0)
            && (timeoutUs >= 100 ==> o.calls == acc + timeoutUs / 100 + 1 && o.sleeps == timeoutUs / 100)
    decreases |looks|
  {
    assert looks[0] in looks;
    if timeoutUs >= 100 {
      if acc > 0 {
        ExactTimeout(acc - 1, timeoutUs, looks[1..]);
      } else {
        ExactTimeout(acc, timeoutUs - 100, looks[1..]);
      }
    }
  }

  /** For ever means for ever: only an interrupt, a failed sleep or data ends it. */
  lemma {:induction false} EndlessWait(acc: nat, looks: seq<Look>)
    requires NeverFree(looks)
    ensures Wait(acc, -1, looks).result == StillWaiting
    ensures Wait(acc, -1, looks).calls == |looks|
    decreases |looks|
  {
    if looks != [] {
      assert looks[0] in looks;
      EndlessWait(if acc > 0 then acc - 1 else acc, looks[1..]);
    }
  }

  function Sleeps(acc: nat, k: nat): nat { if k > acc then k - acc else 0 }

  /** There is time left for `k` waits, each of at most one sleep of 100 us. */
  predicate TimeFor(acc: nat, timeoutUs: int, k: nat)
  {
    timeoutUs == -1 || k == 0 || timeoutUs >= 100 + 100 * Sleeps(acc, k - 1)
  }

  /** The first snapshot that is not just blocked decides, if time lasts until then: an
      interrupt ends the wait, room ends it with 2000 more spins, and a sleep that fails ends
      it once the spins are used up. */
  lemma {:induction false} FirstDecides(acc: nat, timeoutUs: int, looks: seq<Look>, k: nat)
    requires k < |looks| && NeverFree(looks[..k]) && TimeFor(acc, timeoutUs, k) && timeoutUs >= -1
    ensures var o, look := Wait(acc, timeoutUs, looks), looks[k];
            && (look.interrupt ==> o.result == Interrupted && o.calls == k && o.sleeps == Sleeps(acc, k))
            && (!look.interrupt && !look.blocked ==>
                  && o.result == Ready && o.calls == k && o.sleeps == Sleeps(acc, k)
                  && o.acc == (if acc > k then acc - k else 0) + 2000)
            && (!look.interrupt && look.blocked && look.sleepErrno != 0 && acc <= k
                && TimeFor(acc, timeoutUs, k + 1) ==>
                  o.result == SleepFailed(look.sleepErrno) && o.calls == k + 1 && o.sleeps == Sleeps(acc, k))
    decreases k
  {
    hide Wait;
    WaitAt(acc, timeoutUs, looks, 0);
    assert looks[0..] == looks;
    if k > 0 {
      assert looks[..k][0] == looks[0] && looks[0] in looks[..k];
      assert looks[..k][1..] == looks[1..][..k - 1] && looks[1..][k - 1] == looks[k];
      assert forall l :: l in looks[1..][..k - 1] ==> l in looks[..k];
      if acc > 0 {
        FirstDecides(acc - 1, timeoutUs, looks[1..], k - 1);
      } else {
        FirstDecides(acc, if timeoutUs != -1 then timeoutUs - 100 else -1, looks[1..], k - 1);
      }
    }
  }
}
