/** A queue call by itself gets done: an undisturbed sender with room sends its message, an
    undisturbed receiver delivers the oldest one. */
module QueueRuns {
  import opened Bytes
  import opened Positions
  import opened Messages
  import opened TaskQueue
  import opened TaskQueueProofs
  import opened BlockingQueue

  lemma {:induction false} ExecBoth(s: State, a: seq<Event>, b: seq<Event>)
    requires s.len > 0
    ensures Exec(s, a + b) == Exec(Exec(s, a), b)
  {
    hide Apply;
    if b == [] {
      assert a + b == a;
    } else {
      ExecBoth(s, a, b[..|b| - 1]);
      assert (a + b)[..|a + b| - 1] == a + b[..|b| - 1];
    }
  }

  lemma ExecOne(s: State, e: Event)
    requires s.len > 0
    ensures Exec(s, [e]) == Apply(s, e)
  {
    hide Apply;
    assert [e][..0] == [];
  }

  /** After `k` blocks of a message nobody disturbs. */
  lemma {:induction false} Writes(s: State, k: nat)
    requires s.len > 0 && Inv(s) && s.prod.PCopying? && s.prod.written == 0 && k <= BlockCount(|s.prod.msg|)
    ensures var t := Exec(s, Repeat(PWrite, k));
            && Inv(t) && t.len == s.len && t.prod.PCopying? && t.prod.msg == s.prod.msg && t.prod.written == k
            && t.sent == s.sent && t.received == s.received && t.cons == s.cons
  {
    hide Exec, Inv, Repeat, BlockCount, NextHead, Fill, NextIndex;
    EmptyRun(s, PWrite);
    if k > 0 {
      Writes(s, k - 1);
      var t := Exec(s, Repeat(PWrite, k - 1));
      ProducerLoopTest(t);
      OneMoreWrite(s, t, k - 1);
    }
  }

  function SendEvents(m: Message): seq<Event>
  {
    [PBegin(m)] + [PPoll] + (Repeat(PWrite, BlockCount(|m|)) + [PPublish])
  }

  lemma StartSending(s: State, m: Message)
    requires Inv(s) && s.prod.PIdle? && SizeAccepted(|m|, s.len) && FitsInt(|m|)
    requires Used(s) + BlockCount(|m|) < s.len
    ensures var t := Exec(s, [PBegin(m)] + [PPoll]);
            && Inv(t) && t == s.(prod := t.prod) && t.prod.PCopying? && t.prod.msg == m && t.prod.written == 0
  {
    hide Exec, SizeAccepted, FitsInt, IsFull, Tape, NonEmpty, BlockCount, HeadOf, TailOf;
    var s1 := s.(prod := PWaiting(m));
    LocalMoves(s);
    ExecOne(s, PBegin(m));
    ExecSnoc(s, [PBegin(m)], PPoll);
    PollInv(s1);
  }

  lemma SomeEntries(s: State)
    requires Inv(s)
    ensures s.len > 0
  {
  }

  /** A message that is accepted, countable and has room gets sent. */
  lemma SendCompletes(s: State, m: Message)
    requires Inv(s) && s.prod.PIdle? && SizeAccepted(|m|, s.len) && FitsInt(|m|)
    requires Used(s) + BlockCount(|m|) < s.len
    ensures var t := Exec(s, SendEvents(m));
            && Inv(t) && t.prod.PIdle? && t.sent == s.sent + [m] && t.received == s.received && t.cons == s.cons
  {
    hide Exec, Inv, Repeat, BlockCount, NextHead, SetHead, Used, SizeAccepted, FitsInt;
    SomeEntries(s);
    StartSending(s, m);
    var t := Exec(s, [PBegin(m)] + [PPoll]);
    var n := BlockCount(|m|);
    Writes(t, n);
    var u := Exec(t, Repeat(PWrite, n));
    ProducerLoopTest(u);
    WritesThenPublish(t, u, n);
    ExecBoth(s, [PBegin(m)] + [PPoll], Repeat(PWrite, n) + [PPublish]);
    ExecSnoc(t, Repeat(PWrite, n), PPublish);
    StepInv(u, PPublish);
  }

  lemma {:induction false} Copies(s: State, k: nat)
    requires s.len > 0 && Inv(s) && CopyingFrom(s) && s.cons.read == 0 && k <= s.cons.remain + 1
    ensures var t := Exec(s, Repeat(CCopy, k));
            && Inv(t) && t.len == s.len && CopyingFrom(t) && t.cons.remain == s.cons.remain && t.cons.read == k
            && t.sent == s.sent && t.received == s.received && t.prod == s.prod
  {
    hide Exec, Inv, Repeat, NextTail, NextIndex, Splice;
    EmptyRun(s, CCopy);
    if k > 0 {
      Copies(s, k - 1);
      var t := Exec(s, Repeat(CCopy, k - 1));
      ConsumerLoopTest(t);
      OneMoreCopy(s, t, k - 1);
    }
  }

  lemma StartReceiving(s: State)
    requires Inv(s) && s.cons.CIdle? && |s.received| < |NonEmpty(s.sent)|
    ensures var t := Exec(s, [CBegin] + [CPoll] + [CMeta]);
            && Inv(t) && t == s.(cons := t.cons) && CopyingFrom(t) && t.cons.read == 0
            && t.cons.remain + 1 == BlockCount(|NonEmpty(s.sent)[|s.received|]|)
  {
    hide Exec, ReadMeta, IsEmpty, Tape, NonEmpty, BlockCount, HeadOf, TailOf, Shows;
    UsedMeansUndelivered(s);
    LocalMoves(s);
    var s1 := s.(cons := CWaiting);
    ExecOne(s, CBegin);
    ExecSnoc(s, [CBegin], CPoll);
    ConsumerPollInv(s1);
    var s2 := ConsumerPoll(s1);
    ExecSnoc(s, [CBegin] + [CPoll], CMeta);
    MetaInv(s2);
    FreshCopy(s2);
  }

  lemma FreshCopy(s: State)
    requires s.cons.CFound?
    ensures ReadMeta(s, s.cons.tail).CCopying? ==> ReadMeta(s, s.cons.tail).read == 0
    ensures CopyingFrom(s.(cons := ReadMeta(s, s.cons.tail))) <==> ReadMeta(s, s.cons.tail).CCopying?
  {
  }

  function ReceiveEvents(m: Message): seq<Event>
  {
    [CBegin] + [CPoll] + [CMeta] + (Repeat(CCopy, BlockCount(|m|)) + [CPublish])
  }

  /** When anything is undelivered, a receiver gets the oldest message. */
  lemma ReceiveCompletes(s: State)
    requires Inv(s) && s.cons.CIdle? && |s.received| < |NonEmpty(s.sent)|
    ensures var m := NonEmpty(s.sent)[|s.received|];
            var t := Exec(s, ReceiveEvents(m));
            && Inv(t) && t.cons.CIdle? && t.received == s.received + [m] && t.sent == s.sent && t.prod == s.prod
  {
    hide Exec, Inv, Repeat, BlockCount, NextTail, SetTail, NonEmpty;
    SomeEntries(s);
    StartReceiving(s);
    var n := BlockCount(|NonEmpty(s.sent)[|s.received|]|);
    var t := Exec(s, [CBegin] + [CPoll] + [CMeta]);
    Copies(t, n);
    var u := Exec(t, Repeat(CCopy, n));
    ConsumerLoopTest(u);
    CopiesThenPublish(t, u, n);
    ExecBoth(s, [CBegin] + [CPoll] + [CMeta], Repeat(CCopy, n) + [CPublish]);
    ExecSnoc(t, Repeat(CCopy, n), CPublish);
    StepInv(u, CPublish);
  }
}
