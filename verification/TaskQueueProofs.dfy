/** Every interleaving of the task queue keeps the invariant, and what follows. */
module TaskQueueProofs {
  import opened Bytes
  import opened Positions
  import opened Messages
  import opened TaskQueue

  /** While anything is readable, tail sits on the first block of the oldest
      undelivered message, and that message lies wholly in the window. */
  lemma OldestMessage(s: State)
    requires Shape(s) && WindowInv(s) && Used(s) > 0
    ensures |s.received| < |NonEmpty(s.sent)|
    ensures var m := NonEmpty(s.sent)[|s.received|];
            && Used(s) >= BlockCount(|m|) > 0
            && forall k {:trigger BlockOf(m, k)} :: 0 <= k < BlockCount(|m|) ==>
                 HoldsAt(s.entries, Consumed(s) + k, BlockOf(m, k))
  {
    var ne, r := NonEmpty(s.sent), |s.received|;
    assert s.received == ne[..r];
    assert ne == ne[..|ne|];
    if r < |ne| {
      TapeAt(ne, r);
      NonEmptyHasNoEmpty(s.sent);
    }
  }

  lemma {:induction false} NonEmptyHasNoEmpty(ms: seq<Message>)
    ensures forall i :: 0 <= i < |NonEmpty(ms)| ==> NonEmpty(ms)[i] != []
  {
    if ms != [] {
      NonEmptyHasNoEmpty(ms[..|ms| - 1]);
    }
  }

  // The producer's steps.

  lemma PollInv(s: State)
    requires Inv(s) && s.prod.PWaiting?
    ensures Inv(ProducerPoll(s))
    ensures var room, m := Used(s) + BlockCount(|s.prod.msg|) < s.len, s.prod.msg;
            && (ProducerPoll(s).prod.PCopying? <==> room && FitsInt(|m|))
            && (ProducerPoll(s).prod == POverflow(m) <==> room && !FitsInt(|m|))
            && (ProducerPoll(s) == s <==> !room)
  {
    hide Slot, PosOf, IsFull, HeadOf, TailOf, Shows, Tape, NonEmpty;
    SlotOfPos(Published(s), s.len);
    ShowsPrefix(s.entries, Tape(NonEmpty(s.sent)), BlocksOf(s.prod.msg), Consumed(s), Published(s));
    IsFullExact(Published(s), Consumed(s), BlockCount(|s.prod.msg|), s.len);
  }

  /** The loop test `i != nextHead` counts the blocks exactly. */
  lemma ProducerLoopTest(s: State)
    requires Inv(s) && s.prod.PCopying?
    ensures NextHead(s) == PosOf(Published(s) + BlockCount(|s.prod.msg|), s.len)
    ensures s.prod.i != NextHead(s).at <==> s.prod.written < BlockCount(|s.prod.msg|)
  {
    hide Slot, PosOf, Advance, HeadOf, TailOf, Shows, Tape, NonEmpty;
    SlotLoopTest(Published(s), s.prod.written, BlockCount(|s.prod.msg|), s.len);
  }

  /** Writing the slot after the shown window extends the window by that block. */
  lemma ShowsMore(entries: seq<Entry>, tape: seq<Block>, lo: nat, hi: nat, e: Entry)
    requires |entries| > 0 && lo <= hi < lo + |entries| && hi < |tape|
    requires Shows(entries, tape, lo, hi) && Holds(e, tape[hi])
    ensures Shows(entries[Slot(hi, |entries|) := e], tape, lo, hi + 1)
  {
    forall n | lo <= n < hi
      ensures HoldsAt(entries[Slot(hi, |entries|) := e], n, tape[n])
    {
      ModDistinct(n, hi, |entries|);
      assert HoldsAt(entries, n, tape[n]);
    }
  }

  lemma ShowsPrefix(entries: seq<Entry>, tape: seq<Block>, more: seq<Block>, lo: nat, hi: nat)
    requires |entries| > 0 && hi <= |tape|
    ensures Shows(entries, tape + more, lo, hi) <==> Shows(entries, tape, lo, hi)
  {
    forall n | lo <= n < hi
      ensures HoldsAt(entries, n, tape[n]) <==> HoldsAt(entries, n, (tape + more)[n])
    {
    }
  }

  lemma FillHolds(e: Entry, msg: Message, w: nat, offset: nat, cnt: nat)
    requires w < BlockCount(|msg|) && offset == 512 * w
    requires cnt == if offset + 512 < |msg| then 512 else |msg| - offset
    requires |e.data| == 512
    ensures 0 <= cnt <= 512 && offset + cnt == Min(512 * (w + 1), |msg|)
    ensures |Fill(e, msg, w == 0, offset, cnt).data| == 512
    ensures Holds(Fill(e, msg, w == 0, offset, cnt), BlockOf(msg, w))
  {
    assert BlockOf(msg, w).payload == msg[offset..offset + cnt];
  }

  /** What one write step does, in terms of the published count. */
  lemma WriteEffect(s: State) returns (e: Entry)
    requires Inv(s) && s.prod.PCopying? && s.prod.i != NextHead(s).at
    ensures s.prod.written < BlockCount(|s.prod.msg|)
    ensures Holds(e, BlockOf(s.prod.msg, s.prod.written)) && |e.data| == 512
    ensures var PCopying(msg, head, i, offset, w) := s.prod;
            && i == Slot(Published(s) + w, s.len)
            && WriteStep(s) == s.(
                 entries := s.entries[i := e],
                 prod := PCopying(msg, head, Slot(Published(s) + w + 1, s.len), Min(512 * (w + 1), |msg|), w + 1))
  {
    hide Slot, NextIndex, HeadOf, TailOf, PosOf, Advance, NextHead, Shows, Tape, NonEmpty, Fill, BlockOf, BlocksOf,
      BlockCount;
    var PCopying(msg, head, i, offset, w) := s.prod;
    ProducerLoopTest(s);
    SlotLoopTest(Published(s), w, BlockCount(|msg|), s.len);
    NextSlot(Published(s) + w, s.len);
    var cnt := if offset + 512 < |msg| then 512 else |msg| - offset;
    e := Fill(s.entries[i], msg, w == 0, offset, cnt);
    FillHolds(s.entries[i], msg, w, offset, cnt);
  }

  lemma WriteKeepsWindow(s: State)
    requires Inv(s) && s.prod.PCopying? && s.prod.i != NextHead(s).at
    ensures var s' := WriteStep(s);
            && Shape(s') && s'.prod.PCopying?
            && Shows(s'.entries, Tape(NonEmpty(s.sent)) + BlocksOf(s.prod.msg), Consumed(s),
                     Published(s) + s.prod.written + 1)
            && Shows(s'.entries, Tape(NonEmpty(s.sent)), Consumed(s), Published(s))
  {
    hide Slot, WriteStep, HeadOf, TailOf, PosOf, BlockCount, NextHead, Tape, NonEmpty, BlocksOf;
    var e := WriteEffect(s);
    var s' := WriteStep(s);
    var p, c, tape := Published(s), Consumed(s), Tape(NonEmpty(s.sent));
    ShowsMore(s.entries, tape + BlocksOf(s.prod.msg), c, p + s.prod.written, e);
    ShowsPrefix(s'.entries, tape, BlocksOf(s.prod.msg), c, p);
  }

  lemma WriteInv(s: State)
    requires Inv(s) && s.prod.PCopying? && s.prod.i != NextHead(s).at
    ensures Inv(WriteStep(s))
  {
    hide Slot, WriteStep, HeadOf, TailOf, PosOf, BlockCount, NextHead, Tape, NonEmpty, Shows;
    var e := WriteEffect(s);
    WriteKeepsWindow(s);
  }

  lemma SentTape(s: State, m: Message)
    ensures Tape(NonEmpty(s.sent + [m])) == Tape(NonEmpty(s.sent)) + BlocksOf(m)
    ensures s.received <= NonEmpty(s.sent) ==> s.received <= NonEmpty(s.sent + [m])
    ensures |s.received| < |NonEmpty(s.sent)| ==>
              && |s.received| < |NonEmpty(s.sent + [m])|
              && NonEmpty(s.sent + [m])[|s.received|] == NonEmpty(s.sent)[|s.received|]
  {
    if m == [] {
      assert NonEmpty(s.sent) + [] == NonEmpty(s.sent);
    } else {
      TapeSnoc(NonEmpty(s.sent), m);
    }
  }

  /** What publishing a whole message does, in terms of the counts. */
  ghost predicate PublishesMessage(s: State, s': State)
  {
    && s.len > 0
    && s.prod.PCopying? && s.prod.written == BlockCount(|s.prod.msg|)
    && s' == s.(posVal := s'.posVal, prod := PIdle, sent := s.sent + [s.prod.msg])
    && Published(s') == Published(s) + BlockCount(|s.prod.msg|)
    && HeadOf(s'.posVal) == PosOf(Published(s'), s.len)
    && TailOf(s'.posVal) == TailOf(s.posVal)
  }

  lemma PublishEffect(s: State)
    requires Inv(s) && s.prod.PCopying? && s.prod.i == NextHead(s).at
    ensures PublishesMessage(s, PublishStep(s))
  {
    hide Slot, Tape, NonEmpty, SetHead, HeadOf, TailOf, PosOf, NextHead, Advance;
    ProducerLoopTest(s);
    PublishHead(s.posVal, NextHead(s));
    SentTape(s, s.prod.msg);
  }

  lemma PublishKeepsWindow(s: State, s': State)
    requires Shape(s) && WindowInv(s) && ProducerInv(s) && PublishesMessage(s, s')
    ensures Shape(s') && WindowInv(s')
  {
    hide Slot, Shows, HeadOf, TailOf, PosOf, BlockCount, Tape, NonEmpty;
    SentTape(s, s.prod.msg);
  }

  lemma PublishKeepsConsumer(s: State, s': State)
    requires Shape(s) && ConsumerInv(s) && PublishesMessage(s, s')
    requires Shape(s') && Used(s') >= Used(s)
    ensures ConsumerInv(s')
  {
    hide Slot, Shows, HeadOf, TailOf, PosOf, BlockCount, Tape, NonEmpty;
    SentTape(s, s.prod.msg);
  }

  lemma PublishInv(s: State)
    requires Inv(s) && s.prod.PCopying? && s.prod.i == NextHead(s).at
    ensures Inv(PublishStep(s))
  {
    hide Slot, WindowInv, ConsumerInv, Tape, NonEmpty, BlockCount, NextHead;
    var s' := PublishStep(s);
    PublishEffect(s);
    PublishKeepsWindow(s, s');
    SentTape(s, s.prod.msg);
    PublishKeepsConsumer(s, s');
  }

  // The consumer's steps.

  lemma ConsumerPollInv(s: State)
    requires Inv(s) && s.cons.CWaiting?
    ensures Inv(ConsumerPoll(s))
    ensures ConsumerPoll(s).cons.CFound? <==> Used(s) > 0
  {
    IsEmptyExact(Published(s), Consumed(s), s.len);
  }

  lemma MetaInv(s: State)
    requires Inv(s) && s.cons.CFound?
    ensures ReadMeta(s, s.cons.tail).CCopying? && Inv(s.(cons := ReadMeta(s, s.cons.tail)))
  {
    OldestMessage(s);
    var m := NonEmpty(s.sent)[|s.received|];
    assert HoldsAt(s.entries, Consumed(s) + 0, BlockOf(m, 0));
  }

  lemma ConsumerLoopTest(s: State)
    requires Inv(s) && s.cons.CCopying?
    ensures NextTail(s) == PosOf(Consumed(s) + s.cons.remain + 1, s.len)
    ensures s.cons.i != NextTail(s).at <==> s.cons.read < s.cons.remain + 1
  {
    hide Slot, PosOf, Advance, HeadOf, TailOf, Shows, Tape, NonEmpty;
    WindowNonEmpty(s);
    OldestMessage(s);
    SlotLoopTest(Consumed(s), s.cons.read, s.cons.remain + 1, s.len);
  }

  lemma WindowNonEmpty(s: State)
    requires Inv(s) && |s.received| < |NonEmpty(s.sent)|
    ensures Used(s) > 0
  {
    var ne, r := NonEmpty(s.sent), |s.received|;
    assert s.received == ne[..r];
    TapeAt(ne, r);
    NonEmptyHasNoEmpty(s.sent);
  }

  /** Copying one block's payload extends the received prefix of the message. */
  lemma CopyExtends(buf: seq<byte>, m: Message, r: nat, offset: nat, e: Entry, cnt: nat)
    requires r < BlockCount(|m|) && offset == 512 * r && |buf| == |m|
    requires cnt == if |m| - offset < 512 then |m| - offset else 512
    requires |e.data| == 512 && Holds(e, BlockOf(m, r)) && buf[..offset] == m[..offset]
    ensures offset + cnt == Min(512 * (r + 1), |m|)
    ensures Splice(buf, offset, e.data[..cnt])[..offset + cnt] == m[..offset + cnt]
  {
    var payload := BlockOf(m, r).payload;
    assert payload == m[offset..offset + cnt];
    assert e.data[..cnt] == payload;
    assert Splice(buf, offset, payload)[..offset + cnt] == buf[..offset] + payload;
    assert m[..offset + cnt] == m[..offset] + payload;
  }

  /** What one copy step does, in terms of the oldest undelivered message. */
  lemma CopyEffect(s: State)
    requires Inv(s) && s.cons.CCopying? && s.cons.i != NextTail(s).at
    ensures s.cons.read < BlockCount(s.cons.size)
    ensures var CCopying(tail, size, remain, i, offset, buf, r) := s.cons;
            var m := NonEmpty(s.sent)[|s.received|];
            var s' := CopyStep(s);
            && s' == s.(cons := s'.cons) && s'.cons.CCopying?
            && s'.cons == CCopying(tail, size, remain, Slot(Consumed(s) + r + 1, s.len),
                                   Min(512 * (r + 1), |m|), s'.cons.buf, r + 1)
            && |s'.cons.buf| == |m| && s'.cons.buf[..s'.cons.offset] == m[..s'.cons.offset]
            && (var cnt := s'.cons.offset - offset;
                && cnt == (if 0 <= size - offset < 512 then size - offset else 512)
                && cnt <= |s.entries[i].data| && offset + cnt <= |buf|
                && s'.cons.buf == Splice(buf, offset, s.entries[i].data[..cnt]))
  {
    hide Slot, NextIndex, PosOf, Advance, Tape, NonEmpty, Shows, HeadOf, TailOf, NextTail, BlockOf, BlocksOf,
      BlockCount, Splice;
    var CCopying(tail, size, remain, i, offset, buf, r) := s.cons;
    var m := NonEmpty(s.sent)[|s.received|];
    WindowNonEmpty(s);
    OldestMessage(s);
    ConsumerLoopTest(s);
    NextSlot(Consumed(s) + r, s.len);
    assert HoldsAt(s.entries, Consumed(s) + r, BlockOf(m, r));
    var cnt := if size - offset < 512 then size - offset else 512;
    CopyExtends(buf, m, r, offset, s.entries[i], cnt);
  }

  lemma CopyInv(s: State)
    requires Inv(s) && s.cons.CCopying? && s.cons.i != NextTail(s).at
    ensures Inv(CopyStep(s))
  {
    hide Slot, Tape, NonEmpty, Shows, HeadOf, TailOf, PosOf, BlockCount, NextTail;
    CopyEffect(s);
  }

  ghost predicate ConsumesMessage(s: State, s': State)
  {
    && s.len > 0
    && |s.received| < |NonEmpty(s.sent)|
    && var m := NonEmpty(s.sent)[|s.received|];
       && s' == s.(posVal := s'.posVal, cons := CIdle, received := s.received + [m])
       && Consumed(s') == Consumed(s) + BlockCount(|m|)
       && TailOf(s'.posVal) == PosOf(Consumed(s'), s.len)
       && HeadOf(s'.posVal) == HeadOf(s.posVal)
  }

  lemma ConsumeEffect(s: State)
    requires Inv(s) && s.cons.CCopying? && s.cons.i == NextTail(s).at
    ensures ConsumesMessage(s, ConsumeStep(s))
  {
    hide Slot, Tape, NonEmpty, SetTail, HeadOf, TailOf, PosOf, NextTail, Advance;
    ConsumerLoopTest(s);
    PublishTail(s.posVal, NextTail(s));
    var m := NonEmpty(s.sent)[|s.received|];
    assert s.cons.buf == s.cons.buf[..|m|] == m[..|m|] == m;
    TapeSnoc(s.received, m);
  }

  lemma ConsumeKeepsWindow(s: State, s': State)
    requires Shape(s) && WindowInv(s) && ConsumesMessage(s, s') && Used(s) > 0
    ensures Shape(s') && WindowInv(s') && Consumed(s) <= Consumed(s') && Published(s') == Published(s)
  {
    hide Slot, HeadOf, TailOf, PosOf, BlockCount, Tape, NonEmpty;
    OldestMessage(s);
    TapeSnoc(s.received, NonEmpty(s.sent)[|s.received|]);
  }

  lemma ConsumeKeepsProducer(s: State, s': State)
    requires Shape(s) && ProducerInv(s) && ConsumesMessage(s, s')
    requires Shape(s') && Consumed(s) <= Consumed(s') && Published(s') == Published(s)
    ensures ProducerInv(s')
  {
    hide Slot, HeadOf, TailOf, PosOf, BlockCount, Tape, NonEmpty;
  }

  lemma ConsumerPublishInv(s: State)
    requires Inv(s) && s.cons.CCopying? && s.cons.i == NextTail(s).at
    ensures Inv(ConsumeStep(s))
  {
    hide Slot, WindowInv, ProducerInv, NextTail;
    var s' := ConsumeStep(s);
    WindowNonEmpty(s);
    ConsumeEffect(s);
    ConsumeKeepsWindow(s, s');
    ConsumeKeepsProducer(s, s');
  }

  /** Starting, giving up, and a failed allocation touch no shared memory. */
  lemma LocalMoves(s: State)
    requires Inv(s)
    ensures s.prod.PIdle? ==> forall m: Message :: SizeAccepted(|m|, s.len) ==> Inv(s.(prod := PWaiting(m)))
    ensures Inv(s.(prod := PIdle)) && Inv(s.(cons := CIdle)) && Inv(s.(cons := CWaiting))
  {
    hide Slot, Shows, HeadOf, TailOf, PosOf, BlockCount, Tape, NonEmpty;
  }

  lemma StepInv(s: State, e: Event)
    requires Inv(s)
    ensures Inv(Apply(s, e))
  {
    hide WindowInv, ProducerInv, WriteStep, PublishStep, CopyStep, ConsumeStep, ReadMeta, NextHead, NextTail,
      ProducerPoll, ConsumerPoll;
    LocalMoves(s);
    match e
    case PBegin(m) =>
    case PPoll => if s.prod.PWaiting? { PollInv(s); }
    case PGiveUp =>
    case PWrite => if s.prod.PCopying? && s.prod.i != NextHead(s).at { WriteInv(s); }
    case PPublish => if s.prod.PCopying? && s.prod.i == NextHead(s).at { PublishInv(s); }
    case CBegin =>
    case CPoll => if s.cons.CWaiting? { ConsumerPollInv(s); }
    case CGiveUp =>
    case CMeta => if s.cons.CFound? { MetaInv(s); }
    case CAllocFail =>
    case CCopy => if CopyingFrom(s) && s.cons.i != NextTail(s).at { CopyInv(s); }
    case CPublish => if CopyingFrom(s) && s.cons.i == NextTail(s).at { ConsumerPublishInv(s); }
  }

  lemma {:induction false} RunInv(len: nat, es: seq<Event>)
    requires MIN_ENTRY_CNT <= len < ENTRIES_LIMIT
    ensures Inv(Exec(Init(len), es))
  {
    if es != [] {
      RunInv(len, es[..|es| - 1]);
      StepInv(Exec(Init(len), es[..|es| - 1]), es[|es| - 1]);
    }
  }

  /** Whatever is copied or has been sent is counted without overflow. */
  ghost predicate NoOverflow(s: State)
  {
    && (forall m :: m in s.sent ==> FitsInt(|m|))
    && (s.prod.PCopying? ==> FitsInt(|s.prod.msg|))
    && (s.prod.POverflow? ==> !FitsInt(|s.prod.msg|))
  }

  lemma {:induction false} RunNoOverflow(len: nat, es: seq<Event>)
    requires 0 < len
    ensures NoOverflow(Exec(Init(len), es))
  {
    hide Apply, NoOverflow;
    if es != [] {
      RunNoOverflow(len, es[..|es| - 1]);
      StepNoOverflow(Exec(Init(len), es[..|es| - 1]), es[|es| - 1]);
    } else {
      StartNoOverflow(len);
    }
  }

  lemma StartNoOverflow(len: nat)
    ensures NoOverflow(Init(len))
  {
  }

  lemma StepNoOverflow(s: State, e: Event)
    requires 0 < s.len && NoOverflow(s)
    ensures NoOverflow(Apply(s, e))
  {
    hide FitsInt, IsFull, IsEmpty, HeadOf, TailOf, CopyStep, ConsumeStep, ReadMeta, NextHead, NextTail, SetHead,
      SizeAccepted;
    ConsumerAside(s);
  }

  lemma ConsumerAside(s: State)
    requires 0 < s.len
    ensures s.cons.CCopying? ==> CopyStep(s).prod == s.prod && CopyStep(s).sent == s.sent
    ensures CopyingFrom(s) ==> ConsumeStep(s).prod == s.prod && ConsumeStep(s).sent == s.sent
  {
  }

  // What every run guarantees.

  /** First in, first out, byte for byte: what was received is a prefix of what was
      sent (messages of zero bytes vanish), it is all of it exactly when the ring is
      empty, and neither error branch of GetMetadata is ever taken. */
  lemma Fifo(len: nat, es: seq<Event>)
    requires MIN_ENTRY_CNT <= len < ENTRIES_LIMIT
    ensures var s := Exec(Init(len), es);
            && s.received <= NonEmpty(s.sent)
            && (s.received == NonEmpty(s.sent) <==> IsEmpty(HeadOf(s.posVal), TailOf(s.posVal)))
            && !s.prod.PFault? && !s.cons.CFault? && !s.cons.CRefused? && NoOverflow(s)
  {
    RunInv(len, es);
    RunNoOverflow(len, es);
    hide Exec, Init, IsEmpty, HeadOf, TailOf, Tape, NonEmpty, Shows, PosOf, Slot, BlockCount;
    var s := Exec(Init(len), es);
    IsEmptyExact(Published(s), Consumed(s), len);
    UsedMeansUndelivered(s);
  }

  /** The slot about to be written is never readable: it is not in the published
      window, it is not the one being copied out, nor the one whose metadata is read. */
  lemma NoSlotShared(len: nat, es: seq<Event>)
    requires MIN_ENTRY_CNT <= len < ENTRIES_LIMIT
    requires var s := Exec(Init(len), es); s.prod.PCopying? && s.prod.i != NextHead(s).at
    ensures var s := Exec(Init(len), es);
            && (forall n: nat :: Consumed(s) <= n < Published(s) ==> Slot(n, len) != s.prod.i)
            && (CopyingFrom(s) && s.cons.i != NextTail(s).at ==> s.cons.i != s.prod.i)
            && (s.cons.CFound? ==> s.cons.tail.at != s.prod.i)
  {
    RunInv(len, es);
    hide Exec, Init;
    WriteSlotUnreadable(Exec(Init(len), es));
  }

  lemma WriteSlotUnreadable(s: State)
    requires Inv(s) && s.prod.PCopying? && s.prod.i != NextHead(s).at
    ensures forall n: nat :: Consumed(s) <= n < Published(s) ==> Slot(n, s.len) != s.prod.i
    ensures CopyingFrom(s) && s.cons.i != NextTail(s).at ==> s.cons.i != s.prod.i
    ensures s.cons.CFound? ==> s.cons.tail.at != s.prod.i
  {
    hide Slot, PosOf, Advance, HeadOf, TailOf, Shows, Tape, NonEmpty, NextHead, NextTail;
    ProducerLoopTest(s);
    var p, c, w := Published(s), Consumed(s), s.prod.written;
    forall n: nat | c <= n < p
      ensures Slot(n, s.len) != Slot(p + w, s.len)
    {
      SlotsDiffer(n, p + w, s.len);
    }
    if s.cons.CCopying? && s.cons.i != NextTail(s).at {
      ConsumerLoopTest(s);
      WindowNonEmpty(s);
      OldestMessage(s);
    }
    SlotOfPos(c, s.len);
  }

  /** The size check, whose product has 32 bits, lets through exactly the sizes that fit if
      and only if the ring has less than 2^23 blocks; and exactly those of them that an int
      can count if and only if the product does not wrap, or wraps to that limit or more. */
  lemma SizeCheckExact(len: nat)
    requires 0 < len
    ensures (forall n: nat :: n < 0x1_0000_0000 ==> (SizeAccepted(n, len) <==> n <= 512 * len)) <==> len < 0x80_0000
    ensures (forall n: nat :: FitsInt(n) ==> (SizeAccepted(n, len) <==> n <= 512 * len)) <==>
              len < 0x80_0000 || 512 * len % 0x1_0000_0000 >= 0x7FFF_FE00
  {
    assert forall n: nat :: FitsInt(n) <==> n <= 0x7FFF_FE00;
    assert !SizeAccepted(0xFFFF_FFFF, len);
    assert !SizeAccepted(512 * len % 0x1_0000_0000 + 1, len);
  }

  /** A ring of 2^23 blocks, 4 GiB, refuses every message but the empty one. */
  lemma FourGigabytesRefused(n: nat)
    ensures SizeAccepted(n, 0x80_0000) <==> n == 0
  {
  }

  /** A message that an int cannot count overflows as soon as it is accepted and has room. */
  lemma OverflowExample(m: Message, len: nat)
    requires MIN_ENTRY_CNT <= len < ENTRIES_LIMIT
    requires SizeAccepted(|m|, len) && !FitsInt(|m|) && BlockCount(|m|) < len
    ensures Exec(Init(len), [PBegin(m), PPoll]).prod == POverflow(m)
  {
    RunInv(len, [PBegin(m)]);
    hide Init, Inv, ProducerPoll, SizeAccepted, FitsInt;
    assert [PBegin(m), PPoll][..1] == [PBegin(m)] && [PBegin(m)][..0] == [];
    StartsWaiting(len, m);
    PollInv(Exec(Init(len), [PBegin(m)]));
  }

  lemma StartsWaiting(len: nat, m: Message)
    requires 0 < len && SizeAccepted(|m|, len)
    ensures var s := Exec(Init(len), [PBegin(m)]); s.prod == PWaiting(m) && s.len == len && Used(s) == 0
  {
    assert [PBegin(m)][..0] == [];
  }

  /** A waiting sender goes ahead exactly when its blocks and the used ones stay below
      the ring's size, so a message of all `len` blocks never does, even on an
      empty ring; a waiting receiver goes ahead exactly when something is there. */
  lemma WaitsAreExact(len: nat, es: seq<Event>)
    requires MIN_ENTRY_CNT <= len < ENTRIES_LIMIT
    ensures var s := Exec(Init(len), es);
            && (s.prod.PWaiting? ==>
                  var room, m := Used(s) + BlockCount(|s.prod.msg|) < len, s.prod.msg;
                  && (Apply(s, PPoll).prod.PCopying? <==> room && FitsInt(|m|))
                  && (Apply(s, PPoll).prod == POverflow(m) <==> room && !FitsInt(|m|))
                  && (Apply(s, PPoll) == s <==> !room))
            && (s.cons.CWaiting? ==>
                  (Apply(s, CPoll).cons.CFound? <==> |s.received| < |NonEmpty(s.sent)|))
  {
    assert Init(len).len == len;
    RunInv(len, es);
    hide Exec, Init, ProducerPoll, ConsumerPoll, HeadOf, TailOf, Tape, NonEmpty, Shows, PosOf, Slot, BlockCount,
      FitsInt;
    var s := Exec(Init(len), es);
    if s.prod.PWaiting? { PollInv(s); }
    if s.cons.CWaiting? {
      ConsumerPollInv(s);
      UsedMeansUndelivered(s);
    }
  }

  lemma UsedMeansUndelivered(s: State)
    requires Inv(s)
    ensures Used(s) > 0 <==> |s.received| < |NonEmpty(s.sent)|
  {
    hide Slot, PosOf, HeadOf, TailOf, BlockCount, Tape, NonEmpty, Shows;
    if Used(s) > 0 {
      OldestMessage(s);
    } else if |s.received| < |NonEmpty(s.sent)| {
      WindowNonEmpty(s);
    }
  }
}
