/** One side's handle on a cross-world queue: the loops of blocking_queue.c over the
    shared ring, proved against the steps of the state machine. */
module BlockingQueue {
  import opened Bytes
  import opened Positions
  import opened Messages
  import opened TaskQueue
  import opened TaskQueueProofs
  import opened Waiting

  /** What one pass of a wait loop observes: the interrupt flag, a snapshot of both
      words, and what a sleep would return. */
  datatype Poll = Poll(interrupt: bool, posVal: nat, sleepErrno: int)

  function FullLooks(polls: seq<Poll>, total: nat, len: nat): (looks: seq<Look>)
    requires len > 0
    ensures |looks| == |polls|
  {
    seq(|polls|, j requires 0 <= j < |polls| =>
      Look(polls[j].interrupt, IsFull(HeadOf(polls[j].posVal), TailOf(polls[j].posVal), total, len),
           polls[j].sleepErrno))
  }

  function EmptyLooks(polls: seq<Poll>): (looks: seq<Look>)
    ensures |looks| == |polls|
  {
    seq(|polls|, j requires 0 <= j < |polls| =>
      Look(polls[j].interrupt, IsEmpty(HeadOf(polls[j].posVal), TailOf(polls[j].posVal)), polls[j].sleepErrno))
  }

  function Repeat(e: Event, n: nat): (es: seq<Event>)
    ensures |es| == n
  {
    if n == 0 then [] else Repeat(e, n - 1) + [e]
  }

  lemma ExecSnoc(s: State, es: seq<Event>, e: Event)
    requires s.len > 0
    ensures Exec(s, es + [e]) == Apply(Exec(s, es), e)
  {
    assert (es + [e])[..|es|] == es;
  }

  lemma EmptyRun(s: State, e: Event)
    requires s.len > 0
    ensures Exec(s, Repeat(e, 0)) == s
  {
  }

  lemma ExecRepeat(s: State, e: Event, k: nat)
    requires s.len > 0
    ensures Exec(s, Repeat(e, k + 1)) == Apply(Exec(s, Repeat(e, k)), e)
  {
    hide Apply, Exec;
    ExecSnoc(s, Repeat(e, k), e);
  }

  /** The loops' events are enabled exactly where the loops take them. */
  lemma LoopEvents(t: State)
    requires t.len > 0
    ensures t.prod.PCopying? ==> Apply(t, PWrite) == (if t.prod.i != NextHead(t).at then WriteStep(t) else t)
    ensures t.prod.PCopying? ==> Apply(t, PPublish) == (if t.prod.i == NextHead(t).at then PublishStep(t) else t)
    ensures CopyingFrom(t) ==> Apply(t, CCopy) == (if t.cons.i != NextTail(t).at then CopyStep(t) else t)
    ensures CopyingFrom(t) ==> Apply(t, CPublish) == (if t.cons.i == NextTail(t).at then ConsumeStep(t) else t)
  {
    hide WriteStep, PublishStep, CopyStep, ConsumeStep, NextHead, NextTail;
  }

  /** One more write step of an undisturbed sender. */
  lemma OneMoreWrite(s: State, t: State, k: nat)
    requires s.len > 0 && Inv(t) && t == Exec(s, Repeat(PWrite, k))
    requires t.prod.PCopying? && t.prod.i != NextHead(t).at
    ensures var t' := Exec(s, Repeat(PWrite, k + 1));
            var PCopying(msg, head, i, offset, w) := t.prod;
            var cnt := if offset + 512 < |msg| then 512 else |msg| - offset;
            && Inv(t') && w < BlockCount(|msg|)
            && i < |t.entries| && 0 <= cnt <= |t.entries[i].data|
            && t' == t.(entries := t.entries[i := Fill(t.entries[i], msg, i == head.at, offset, cnt)],
                        prod := PCopying(msg, head, NextIndex(i, t.len), offset + cnt, w + 1))
  {
    hide Exec, Apply, Inv, Repeat, BlockCount, NextIndex, NextHead, Fill;
    WriteInv(t);
    var e := WriteEffect(t);
    ExecRepeat(s, PWrite, k);
    LoopEvents(t);
  }

  lemma WritesThenPublish(s: State, t: State, k: nat)
    requires s.len > 0 && Inv(t) && t == Exec(s, Repeat(PWrite, k))
    requires t.prod.PCopying? && t.prod.i == NextHead(t).at
    ensures Shape(t) && t.prod.written == BlockCount(|t.prod.msg|)
    ensures Exec(s, Repeat(PWrite, k) + [PPublish])
              == t.(posVal := SetHead(t.posVal, NextHead(t)), prod := PIdle, sent := t.sent + [t.prod.msg])
  {
    hide Exec, Apply, WindowInv, ProducerInv, ConsumerInv, Repeat, BlockCount, NextHead, SetHead;
    PublishEffect(t);
    LoopEvents(t);
    ExecSnoc(s, Repeat(PWrite, k), PPublish);
  }

  lemma OneMoreCopy(s: State, t: State, k: nat)
    requires s.len > 0 && Inv(t) && t == Exec(s, Repeat(CCopy, k))
    requires CopyingFrom(t) && t.cons.i != NextTail(t).at
    ensures var t' := Exec(s, Repeat(CCopy, k + 1));
            var CCopying(tail, size, remain, i, offset, buf, r) := t.cons;
            var cnt := if 0 <= size - offset < 512 then size - offset else 512;
            && Inv(t') && r < remain + 1
            && i < |t.entries| && cnt <= |t.entries[i].data| && offset + cnt <= |buf|
            && t' == t.(cons := CCopying(tail, size, remain, NextIndex(i, t.len), offset + cnt,
                                         Splice(buf, offset, t.entries[i].data[..cnt]), r + 1))
  {
    hide Exec, Apply, Inv, Repeat, BlockCount, NextIndex, NextTail, Splice, NonEmpty;
    CopyInv(t);
    CopyEffect(t);
    ConsumerLoopTest(t);
    ExecRepeat(s, CCopy, k);
    LoopEvents(t);
  }

  lemma CopiesThenPublish(s: State, t: State, k: nat)
    requires s.len > 0 && Inv(t) && t == Exec(s, Repeat(CCopy, k))
    requires CopyingFrom(t) && t.cons.i == NextTail(t).at
    ensures t.cons.read == t.cons.remain + 1
    ensures Exec(s, Repeat(CCopy, k) + [CPublish])
              == t.(posVal := SetTail(t.posVal, NextTail(t)), cons := CIdle, received := t.received + [t.cons.buf])
    ensures |t.received| < |NonEmpty(t.sent)| && t.cons.buf == NonEmpty(t.sent)[|t.received|]
  {
    hide Exec, Apply, WindowInv, ProducerInv, Repeat, NextTail, SetTail, NonEmpty, Tape, BlockCount, Slot, PosOf;
    ConsumerLoopTest(t);
    ConsumeEffect(t);
    LoopEvents(t);
    ExecSnoc(s, Repeat(CCopy, k), CPublish);
  }

  class BlockingQueue {
    var blockingAcc: nat
    var posVal: nat
    const entries: array<Entry>

    ghost predicate Reflects(s: State)
      reads this, entries
    {
      entries.Length == s.len && entries[..] == s.entries && posVal == s.posVal
    }

    constructor (entriesNr: nat)
      requires MIN_ENTRY_CNT <= entriesNr
      ensures Reflects(Init(entriesNr)) && blockingAcc == ACC_CNT && fresh(entries)
    {
      entries := new Entry[entriesNr](_ => Entry(0, 0, Zeros(512)));
      posVal := 0;
      blockingAcc := ACC_CNT;
      new;
      assert entries[..] == Init(entriesNr).entries;
    }

    method Blocking(timeoutUs: int, sleepErrno: int) returns (res: Result, left: int, slept: bool)
      modifies this`blockingAcc
      ensures timeoutUs != -1 && timeoutUs < 100 ==>
                res == TimedOut && left == timeoutUs && !slept && blockingAcc == old(blockingAcc)
      ensures !(timeoutUs != -1 && timeoutUs < 100) && old(blockingAcc) > 0 ==>
                res == Ready && left == timeoutUs && !slept && blockingAcc == old(blockingAcc) - 1
      ensures !(timeoutUs != -1 && timeoutUs < 100) && old(blockingAcc) == 0 ==>
                && blockingAcc == 0 && slept == (sleepErrno == 0)
                && res == (if slept then Ready else SleepFailed(sleepErrno))
                && left == if slept && timeoutUs != -1 then timeoutUs - 100 else timeoutUs
    {
      res, left, slept := Ready, timeoutUs, false;
      if timeoutUs != -1 && timeoutUs < 100 {
        return TimedOut, left, slept;
      }
      if blockingAcc == 0 {
        if sleepErrno != 0 {
          return SleepFailed(sleepErrno), left, slept;
        }
        slept := true;
        if timeoutUs != -1 {
          left := timeoutUs - 100;
        }
      } else {
        blockingAcc := blockingAcc - 1;
      }
    }

    method Unblocking()
      modifies this`blockingAcc
      ensures blockingAcc == old(blockingAcc) + ACC_CNT
    {
      blockingAcc := blockingAcc + ACC_CNT;
    }

    /** The wait of a sender: its outcome is the specified one over what the polls saw,
        and when it is Ready the head is the one of the snapshot that was not full. */
    method WaitFull(timeoutUs: int, srcSize: nat, polls: seq<Poll>)
      returns (outcome: Outcome, head: Pos)
      requires entries.Length > 0
      modifies this`blockingAcc
      ensures BlockCount(srcSize) > entries.Length ==> outcome.result == TooLarge && blockingAcc == old(blockingAcc)
      ensures BlockCount(srcSize) <= entries.Length ==>
                && outcome == Wait(old(blockingAcc), timeoutUs, FullLooks(polls, BlockCount(srcSize), entries.Length))
                && blockingAcc == outcome.acc
      ensures outcome.result == Ready ==>
                && outcome.calls < |polls|
                && head == HeadOf(polls[outcome.calls].posVal)
                && !IsFull(head, TailOf(polls[outcome.calls].posVal), BlockCount(srcSize), entries.Length)
    {
      hide IsFull, HeadOf, TailOf, BlockCount, Wait;
      var total, len := BlockCount(srcSize), entries.Length;
      var calls, sleeps, left := 0, 0, timeoutUs;
      head := Pos(0, false);
      if total > len {
        return Outcome(TooLarge, blockingAcc, left, 0, 0), head;
      }
      var isFull := true;
      ghost var looks := FullLooks(polls, total, len);
      assert looks[0..] == looks;
      while isFull
        invariant blockingAcc >= 0 && calls <= |polls|
        invariant isFull ==> Wait(old(blockingAcc), timeoutUs, looks)
                               == Wait(blockingAcc, left, looks[calls..]).Plus(calls, sleeps)
        invariant !isFull ==>
                    && Wait(old(blockingAcc), timeoutUs, looks)
                         == Outcome(Ready, blockingAcc + ACC_CNT, left, calls, sleeps)
                    && calls < |polls| && head == HeadOf(polls[calls].posVal)
                    && !IsFull(head, TailOf(polls[calls].posVal), total, len)
        decreases isFull, |polls| - calls
      {
        if calls == |polls| {
          NoMoreLooks(blockingAcc, left);
          assert looks[calls..] == [];
          return Outcome(StillWaiting, blockingAcc, left, calls, sleeps), head;
        }
        var poll := polls[calls];
        WaitAt(blockingAcc, left, looks, calls);
        if poll.interrupt {
          return Outcome(Interrupted, blockingAcc, left, calls, sleeps), head;
        }
        head := HeadOf(poll.posVal);
        var tail := TailOf(poll.posVal);
        isFull := IsFull(head, tail, total, len);
        if isFull {
          var res, left', slept := Blocking(left, poll.sleepErrno);
          left, calls, sleeps := left', calls + 1, sleeps + if slept then 1 else 0;
          if res != Ready {
            return Outcome(res, blockingAcc, left, calls, sleeps), head;
          }
        }
      }
      Unblocking();
      outcome := Outcome(Ready, blockingAcc, left, calls, sleeps);
    }

    /** The wait of a receiver, likewise. */
    method WaitEmpty(timeoutUs: int, polls: seq<Poll>) returns (outcome: Outcome, tail: Pos)
      modifies this`blockingAcc
      ensures outcome == Wait(old(blockingAcc), timeoutUs, EmptyLooks(polls)) && blockingAcc == outcome.acc
      ensures outcome.result == Ready ==>
                && outcome.calls < |polls|
                && tail == TailOf(polls[outcome.calls].posVal)
                && !IsEmpty(HeadOf(polls[outcome.calls].posVal), tail)
    {
      hide IsEmpty, HeadOf, TailOf, Wait;
      var calls, sleeps, left := 0, 0, timeoutUs;
      tail := Pos(0, false);
      var isEmpty := true;
      ghost var looks := EmptyLooks(polls);
      assert looks[0..] == looks;
      while isEmpty
        invariant calls <= |polls|
        invariant isEmpty ==> Wait(old(blockingAcc), timeoutUs, looks)
                                == Wait(blockingAcc, left, looks[calls..]).Plus(calls, sleeps)
        invariant !isEmpty ==>
                    && Wait(old(blockingAcc), timeoutUs, looks)
                         == Outcome(Ready, blockingAcc + ACC_CNT, left, calls, sleeps)
                    && calls < |polls| && tail == TailOf(polls[calls].posVal)
                    && !IsEmpty(HeadOf(polls[calls].posVal), tail)
        decreases isEmpty, |polls| - calls
      {
        if calls == |polls| {
          NoMoreLooks(blockingAcc, left);
          assert looks[calls..] == [];
          return Outcome(StillWaiting, blockingAcc, left, calls, sleeps), tail;
        }
        var poll := polls[calls];
        WaitAt(blockingAcc, left, looks, calls);
        if poll.interrupt {
          return Outcome(Interrupted, blockingAcc, left, calls, sleeps), tail;
        }
        tail := TailOf(poll.posVal);
        isEmpty := IsEmpty(HeadOf(poll.posVal), tail);
        if isEmpty {
          var res, left', slept := Blocking(left, poll.sleepErrno);
          left, calls, sleeps := left', calls + 1, sleeps + if slept then 1 else 0;
          if res != Ready {
            return Outcome(res, blockingAcc, left, calls, sleeps), tail;
          }
        }
      }
      Unblocking();
      outcome := Outcome(Ready, blockingAcc, left, calls, sleeps);
    }

    method SetMetadata(pos: nat, size: int, remain: int)
      requires pos < entries.Length
      modifies entries
      ensures entries[..] == old(entries[..])[pos := old(entries[pos]).(size := size, remain := remain)]
    {
      entries[pos] := entries[pos].(size := size, remain := remain);
    }

    /** Run with nobody else moving, the copying loop is exactly one write step a block
        and then the publishing store. */
    method EnqueueBlocks(head: Pos, src: Message, ghost s: State)
      requires s.len > 0 && Inv(s) && Reflects(s)
      requires s.prod == PCopying(src, head, head.at, 0, 0)
      modifies this`posVal, entries
      ensures Reflects(Exec(s, Repeat(PWrite, BlockCount(|src|)) + [PPublish]))
      ensures Exec(s, Repeat(PWrite, BlockCount(|src|)) + [PPublish]).sent == s.sent + [src]
    {
      hide Inv, Exec, Repeat, NextIndex, SetHead, BlockCount, Splice;
      var total, len := BlockCount(|src|), entries.Length;
      var next := Advance(head, total, len);
      var i: nat, offset: nat := head.at, 0;
      ghost var k, t := 0, s;
      EmptyRun(s, PWrite);
      while i != next.at
        invariant Inv(t) && t == Exec(s, Repeat(PWrite, k)) && Reflects(t)
        invariant t.prod == PCopying(src, head, i, offset, k)
        invariant t.len == s.len && t.sent == s.sent
        invariant k <= total
        decreases total - k
      {
        OneMoreWrite(s, t, k);
        k, t := k + 1, Exec(s, Repeat(PWrite, k + 1));
        var cnt := if offset + 512 < |src| then 512 else |src| - offset;
        SetMetadata(i, if i != head.at then NO_META else |src|, if i != head.at then NO_META else total - 1);
        entries[i] := entries[i].(data := Splice(entries[i].data, 0, src[offset..offset + cnt]));
        i, offset := NextIndex(i, len), offset + cnt;
      }
      WritesThenPublish(s, t, k);
      posVal := SetHead(posVal, next);
    }

    method GetMetadata(pos: nat) returns (ok: bool, size: int, remain: int)
      requires pos < entries.Length
      ensures size == entries[pos].size && remain == entries[pos].remain
      ensures ok <==> size != NO_META && remain != NO_META && size <= (remain + 1) * 512
    {
      size, remain := entries[pos].size, entries[pos].remain;
      ok := false;
      if size == NO_META || remain == NO_META {
        return;
      }
      if size > (remain + 1) * 512 {
        return;
      }
      ok := true;
    }

    /** Likewise for a receiver: one copy step a block, then the publishing store; the
        buffer then holds the oldest message sent and not yet received. */
    method DequeueBlocks(tail: Pos, size: nat, remain: nat, dst: array<byte>, ghost s: State)
      requires s.len > 0 && Inv(s) && Reflects(s)
      requires s.cons == CCopying(tail, size, remain, tail.at, 0, dst[..], 0)
      modifies this`posVal, dst
      ensures Reflects(Exec(s, Repeat(CCopy, remain + 1) + [CPublish]))
      ensures Exec(s, Repeat(CCopy, remain + 1) + [CPublish]).received == s.received + [dst[..]]
      ensures |s.received| < |NonEmpty(s.sent)| && dst[..] == NonEmpty(s.sent)[|s.received|]
    {
      hide Inv, Exec, Repeat, NextIndex, SetTail, Splice;
      var len := entries.Length;
      var next := Advance(tail, remain + 1, len);
      var i: nat, offset: nat := tail.at, 0;
      ghost var k, t := 0, s;
      EmptyRun(s, CCopy);
      while i != next.at
        invariant Inv(t) && t == Exec(s, Repeat(CCopy, k)) && Reflects(t)
        invariant t.cons == CCopying(tail, size, remain, i, offset, dst[..], k)
        invariant k <= remain + 1
        invariant t.len == s.len && t.sent == s.sent && t.received == s.received
        decreases remain + 1 - k
      {
        OneMoreCopy(s, t, k);
        k, t := k + 1, Exec(s, Repeat(CCopy, k + 1));
        var cnt := if 0 <= size - offset < 512 then size - offset else 512;
        Memcpy(dst, offset, entries[i].data[..cnt]);
        i, offset := NextIndex(i, len), offset + cnt;
      }
      CopiesThenPublish(s, t, k);
      posVal := SetTail(posVal, next);
    }
  }
}
