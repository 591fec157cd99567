/** The cross-world queue as a state machine: one producer operation and one
    consumer operation at a time (each side's mutex), interleaved at every access
    to shared memory. */
module TaskQueue {
  import opened Bytes
  import opened Positions
  import opened Messages

  /** A position word has 31 bits for the index. */
  const ENTRIES_LIMIT: nat := 0x8000_0000

  const MIN_ENTRY_CNT: nat := 2

  /** `written` only counts iterations; no step looks at it. `POverflow` is an EnqueueBlocks
      whose signed 32-bit sizes and offsets leave their range; nothing is said about it. */
  datatype Producer =
    | PIdle
    | PWaiting(msg: Message)
    | PCopying(msg: Message, head: Pos, i: nat, offset: nat, written: nat)
    | POverflow(msg: Message)
    | PFault

  /** `CRefused` is an error return of GetMetadata; `read` only counts iterations. */
  datatype Consumer =
    | CIdle
    | CWaiting
    | CFound(tail: Pos)
    | CCopying(tail: Pos, size: nat, remain: int, i: nat, offset: nat, buf: seq<byte>, read: nat)
    | CRefused
    | CFault

  /** `sent` and `received` are history. */
  datatype State = State(
    len: nat, posVal: nat, entries: seq<Entry>,
    prod: Producer, cons: Consumer,
    sent: seq<Message>, received: seq<Message>)

  datatype Event =
    | PBegin(msg: Message) | PPoll | PGiveUp | PWrite | PPublish
    | CBegin | CPoll | CGiveUp | CMeta | CAllocFail | CCopy | CPublish

  function NextHead(s: State): Pos
    requires s.len > 0 && s.prod.PCopying?
  {
    Advance(s.prod.head, BlockCount(|s.prod.msg|), s.len)
  }

  function NextTail(s: State): Pos
    requires s.len > 0 && s.cons.CCopying? && s.cons.remain >= -1
  {
    Advance(s.cons.tail, s.cons.remain + 1, s.len)
  }

  function Fill(e: Entry, msg: Message, first: bool, offset: nat, cnt: nat): Entry
    requires cnt <= |e.data| && offset + cnt <= |msg|
  {
    Entry(if first then |msg| else NO_META,
          if first then BlockCount(|msg|) - 1 else NO_META,
          Splice(e.data, 0, msg[offset..offset + cnt]))
  }

  /** One iteration of EnqueueBlocks' loop: SetMetadata, then memcpy. */
  function WriteStep(s: State): State
    requires s.len > 0 && s.prod.PCopying?
  {
    var PCopying(msg, head, i, offset, written) := s.prod;
    var cnt := if offset + 512 < |msg| then 512 else |msg| - offset;
    if i < |s.entries| && 0 <= cnt <= |s.entries[i].data| then
      s.(entries := s.entries[i := Fill(s.entries[i], msg, i == head.at, offset, cnt)],
         prod := PCopying(msg, head, NextIndex(i, s.len), offset + cnt, written + 1))
    else
      s.(prod := PFault)
  }

  /** One iteration of DequeueBlocks' loop; the unsigned difference is huge once
      the offset has passed the size. */
  function CopyStep(s: State): State
    requires s.len > 0 && s.cons.CCopying?
  {
    var CCopying(tail, size, remain, i, offset, buf, read) := s.cons;
    var cnt := if 0 <= size - offset < 512 then size - offset else 512;
    if i < |s.entries| && cnt <= |s.entries[i].data| && offset + cnt <= |buf| then
      s.(cons := CCopying(tail, size, remain, NextIndex(i, s.len), offset + cnt,
                          Splice(buf, offset, s.entries[i].data[..cnt]), read + 1))
    else
      s.(cons := CFault)
  }

  function ReadMeta(s: State, tail: Pos): Consumer
  {
    if tail.at >= |s.entries| then CFault else
    var e := s.entries[tail.at];
    if e.size == NO_META || e.remain == NO_META then CRefused
    else if e.size > (e.remain + 1) * 512 then CRefused
    else if e.size < 0 || e.remain < 0 then CFault
    else CCopying(tail, e.size, e.remain, tail.at, 0, Zeros(e.size), 0)
  }

  /** The end of EnqueueBlocks: SetHead. */
  function PublishStep(s: State): State
    requires s.len > 0 && s.prod.PCopying?
  {
    s.(posVal := SetHead(s.posVal, NextHead(s)), prod := PIdle, sent := s.sent + [s.prod.msg])
  }

  /** The end of DequeueBlocks: SetTail; the buffer is the caller's. */
  function ConsumeStep(s: State): State
    requires s.len > 0 && s.cons.CCopying? && s.cons.remain >= -1
  {
    s.(posVal := SetTail(s.posVal, NextTail(s)), cons := CIdle, received := s.received + [s.cons.buf])
  }

  /** EnqueueBlocks and GetMetadata count bytes up to the end of the last block in an int. */
  predicate FitsInt(size: nat) { 512 * BlockCount(size) < 0x8000_0000 }

  /** One snapshot of WaitFull's loop. */
  function ProducerPoll(s: State): State
    requires s.len > 0 && s.prod.PWaiting?
  {
    var head := HeadOf(s.posVal);
    if IsFull(head, TailOf(s.posVal), BlockCount(|s.prod.msg|), s.len) then s
    else if !FitsInt(|s.prod.msg|) then s.(prod := POverflow(s.prod.msg))
    else s.(prod := PCopying(s.prod.msg, head, head.at, 0, 0))
  }

  /** One snapshot of WaitEmpty's loop. */
  function ConsumerPoll(s: State): State
  {
    if IsEmpty(HeadOf(s.posVal), TailOf(s.posVal)) then s
    else s.(cons := CFound(TailOf(s.posVal)))
  }

  /** An event that is not enabled leaves the state alone. */
  function Apply(s: State, e: Event): State
    requires s.len > 0
  {
    match e
    case PBegin(m) => if s.prod.PIdle? && SizeAccepted(|m|, s.len) then s.(prod := PWaiting(m)) else s
    case PPoll => if s.prod.PWaiting? then ProducerPoll(s) else s
    case PGiveUp => if s.prod.PWaiting? then s.(prod := PIdle) else s
    case PWrite => if s.prod.PCopying? && s.prod.i != NextHead(s).at then WriteStep(s) else s
    case PPublish => if s.prod.PCopying? && s.prod.i == NextHead(s).at then PublishStep(s) else s
    case CBegin => if s.cons.CIdle? then s.(cons := CWaiting) else s
    case CPoll => if s.cons.CWaiting? then ConsumerPoll(s) else s
    case CGiveUp => if s.cons.CWaiting? then s.(cons := CIdle) else s
    case CMeta => if s.cons.CFound? then s.(cons := ReadMeta(s, s.cons.tail)) else s
    case CAllocFail => if s.cons.CFound? then s.(cons := CIdle) else s
    case CCopy => if CopyingFrom(s) && s.cons.i != NextTail(s).at then CopyStep(s) else s
    case CPublish => if CopyingFrom(s) && s.cons.i == NextTail(s).at then ConsumeStep(s) else s
  }

  /** The size check of BlockingEnqueue, whose product is cut to 32 bits. */
  predicate SizeAccepted(size: nat, len: nat) { size <= 512 * len % 0x1_0000_0000 }

  predicate CopyingFrom(s: State) { s.cons.CCopying? && s.cons.remain >= 0 }

  function Exec(s: State, es: seq<Event>): (t: State)
    requires s.len > 0
    ensures t.len == s.len
  {
    if es == [] then s else Apply(Exec(s, es[..|es| - 1]), es[|es| - 1])
  }

  /** InitRingbuffer on both sides: zeroed entries, both words zero. */
  function Init(len: nat): State
  {
    State(len, 0, seq(len, _ => Entry(0, 0, Zeros(512))), PIdle, CIdle, [], [])
  }

  // The invariant.

  function Published(s: State): nat { |Tape(NonEmpty(s.sent))| }

  function Consumed(s: State): nat { |Tape(s.received)| }

  function Used(s: State): int { Published(s) - Consumed(s) }

  predicate Shape(s: State)
  {
    && MIN_ENTRY_CNT <= s.len < ENTRIES_LIMIT
    && |s.entries| == s.len
    && forall j :: 0 <= j < s.len ==> |s.entries[j].data| == 512
  }

  predicate HoldsAt(entries: seq<Entry>, n: nat, b: Block)
    requires |entries| > 0
  {
    Holds(entries[Slot(n, |entries|)], b)
  }

  /** The ring shows blocks `lo` up to `hi` of the tape. */
  ghost predicate Shows(entries: seq<Entry>, tape: seq<Block>, lo: nat, hi: nat)
    requires |entries| > 0
  {
    hi <= |tape| && forall n :: lo <= n < hi ==> HoldsAt(entries, n, tape[n])
  }

  ghost predicate WindowInv(s: State)
    requires Shape(s)
  {
    && HeadOf(s.posVal) == PosOf(Published(s), s.len)
    && TailOf(s.posVal) == PosOf(Consumed(s), s.len)
    && s.received <= NonEmpty(s.sent)
    && 0 <= Used(s) < s.len
    && Shows(s.entries, Tape(NonEmpty(s.sent)), Consumed(s), Published(s))
  }

  ghost predicate ProducerInv(s: State)
    requires Shape(s)
  {
    match s.prod
    case PIdle => true
    case PWaiting(msg) => SizeAccepted(|msg|, s.len)
    case PCopying(msg, head, i, offset, written) =>
      && head == PosOf(Published(s), s.len)
      && Used(s) + BlockCount(|msg|) < s.len
      && written <= BlockCount(|msg|)
      && i == Slot(Published(s) + written, s.len)
      && offset == Min(512 * written, |msg|)
      && Shows(s.entries, Tape(NonEmpty(s.sent)) + BlocksOf(msg), Consumed(s), Published(s) + written)
    case POverflow(_) => true
    case PFault => false
  }

  ghost predicate ConsumerInv(s: State)
    requires Shape(s)
  {
    match s.cons
    case CIdle => true
    case CWaiting => true
    case CFound(tail) => tail == PosOf(Consumed(s), s.len) && Used(s) > 0
    case CCopying(tail, size, remain, i, offset, buf, read) =>
      && tail == PosOf(Consumed(s), s.len)
      && |s.received| < |NonEmpty(s.sent)|
      && var m := NonEmpty(s.sent)[|s.received|];
         && size == |m| == |buf| && size > 0 && remain + 1 == BlockCount(|m|)
         && read <= BlockCount(|m|)
         && i == Slot(Consumed(s) + read, s.len)
         && offset == Min(512 * read, |m|)
         && buf[..offset] == m[..offset]
    case CRefused => false
    case CFault => false
  }

  ghost predicate Inv(s: State)
  {
    Shape(s) && WindowInv(s) && ProducerInv(s) && ConsumerInv(s)
  }
}
