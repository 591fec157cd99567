/** How a message is cut into ring blocks of 512 bytes: metadata only on the first
    one. (Literals rather than constants, so that the arithmetic stays linear.) */
module Messages {
  import opened Bytes

  const NO_META: int := -1

  type Message = seq<byte>

  /** A ring slot in shared memory. */
  datatype Entry = Entry(size: int, remain: int, data: seq<byte>)

  /** What a slot has to hold; a short last block leaves the slot's rest alone. */
  datatype Block = Block(size: int, remain: int, payload: seq<byte>)

  predicate Holds(e: Entry, b: Block)
  {
    e.size == b.size && e.remain == b.remain && b.payload <= e.data
  }

  function BlockCount(size: nat): (n: nat)
    ensures 512 * n >= size
    ensures n > 0 ==> 512 * (n - 1) < size
  {
    size / 512 + if size % 512 == 0 then 0 else 1
  }

  function BlockOf(m: Message, k: nat): Block
    requires k < BlockCount(|m|)
  {
    Block(if k == 0 then |m| else NO_META,
          if k == 0 then BlockCount(|m|) - 1 else NO_META,
          m[512 * k..Min(512 * (k + 1), |m|)])
  }

  function BlocksOf(m: Message): (bs: seq<Block>)
    ensures |bs| == BlockCount(|m|)
    ensures forall k :: 0 <= k < |bs| ==> bs[k] == BlockOf(m, k)
  {
    seq(BlockCount(|m|), k requires 0 <= k < BlockCount(|m|) => BlockOf(m, k))
  }

  /** The endless tape of blocks that the ring shows a window of. */
  function Tape(ms: seq<Message>): seq<Block>
  {
    if ms == [] then [] else Tape(ms[..|ms| - 1]) + BlocksOf(ms[|ms| - 1])
  }

  lemma TapeSnoc(ms: seq<Message>, m: Message)
    ensures Tape(ms + [m]) == Tape(ms) + BlocksOf(m)
  {
    assert (ms + [m])[..|ms|] == ms;
  }

  /** Message `n` starts on the tape where the messages before it end. */
  lemma {:induction false} TapeAt(ms: seq<Message>, n: nat)
    requires n < |ms|
    ensures |Tape(ms[..n])| + BlockCount(|ms[n]|) <= |Tape(ms)|
    ensures forall k :: 0 <= k < BlockCount(|ms[n]|) ==> Tape(ms)[|Tape(ms[..n])| + k] == BlockOf(ms[n], k)
    decreases |ms|
  {
    if n < |ms| - 1 {
      TapeAt(ms[..|ms| - 1], n);
      assert ms[..|ms| - 1][..n] == ms[..n];
    }
  }

  /** Messages of zero bytes occupy no block. */
  function NonEmpty(ms: seq<Message>): seq<Message>
  {
    if ms == [] then []
    else NonEmpty(ms[..|ms| - 1]) + if ms[|ms| - 1] == [] then [] else [ms[|ms| - 1]]
  }
}
