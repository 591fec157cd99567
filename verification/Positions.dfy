/** Ring positions of the cross-world queue: a block index and a flip bit, packed
    in 31 + 1 bits; both sides' words share one 64-bit value. */
module Positions {
  import opened Bytes

  datatype Pos = Pos(at: nat, flip: bool)

  function Pack(p: Pos): nat
  {
    (2 * p.at) % 0x1_0000_0000 + if p.flip then 1 else 0
  }

  function Unpack(w: nat): Pos
  {
    Pos(w % 0x1_0000_0000 / 2, w % 2 == 1)
  }

  /** The publishing stores: each side replaces only its own half. */
  function SetHead(posVal: nat, p: Pos): nat
  {
    posVal / 0x1_0000_0000 * 0x1_0000_0000 + Pack(p)
  }

  function SetTail(posVal: nat, p: Pos): nat
  {
    Pack(p) * 0x1_0000_0000 + posVal % 0x1_0000_0000
  }

  function HeadOf(posVal: nat): Pos { Unpack(posVal % 0x1_0000_0000) }

  function TailOf(posVal: nat): Pos { Unpack(posVal / 0x1_0000_0000) }

  lemma PublishHead(posVal: nat, p: Pos)
    requires p.at < 0x8000_0000
    ensures HeadOf(SetHead(posVal, p)) == p
    ensures TailOf(SetHead(posVal, p)) == TailOf(posVal)
  {
    DivUnique(SetHead(posVal, p), 0x1_0000_0000, posVal / 0x1_0000_0000, Pack(p));
  }

  lemma PublishTail(posVal: nat, p: Pos)
    requires p.at < 0x8000_0000
    ensures TailOf(SetTail(posVal, p)) == p
    ensures HeadOf(SetTail(posVal, p)) == HeadOf(posVal)
  {
    DivUnique(SetTail(posVal, p), 0x1_0000_0000, Pack(p), posVal % 0x1_0000_0000);
  }

  /** The position `n` blocks further on a ring of `len` blocks. */
  function Advance(p: Pos, n: nat, len: nat): Pos
    requires len > 0
  {
    Pos((p.at + n) % len, (p.at + n >= len) != p.flip)
  }

  predicate IsFull(head: Pos, tail: Pos, total: nat, len: nat)
    requires len > 0
  {
    var next := Advance(head, total, len);
    || (next.flip != tail.flip && next.at >= tail.at)
    || (head.flip != tail.flip && next.flip == tail.flip)
  }

  predicate IsEmpty(head: Pos, tail: Pos)
  {
    head.flip == tail.flip && head.at == tail.at
  }

  /** The ring slot of the `n`-th block ever. */
  function Slot(n: nat, len: nat): (i: nat)
    requires len > 0
    ensures i < len
  {
    n % len
  }

  function NextIndex(i: nat, len: nat): (j: nat)
    requires len > 0
    ensures j < len
  {
    (i + 1) % len
  }

  /** What a position means: the number of blocks ever published, modulo two laps. */
  function PosOf(count: nat, len: nat): Pos
    requires len > 0
  {
    Pos(count % len, count / len % 2 == 1)
  }

  lemma AdvanceCounts(count: nat, n: nat, len: nat)
    requires 0 < len && n <= len
    ensures Advance(PosOf(count, len), n, len) == PosOf(count + n, len)
  {
    DivStep(count, n, len);
    WrapOnce(count % len + n, len);
  }

  lemma SlotOfPos(n: nat, len: nat)
    requires 0 < len
    ensures PosOf(n, len).at == Slot(n, len)
  {
  }

  lemma SlotsDiffer(a: nat, b: nat, len: nat)
    requires a < b < a + len
    ensures Slot(a, len) != Slot(b, len)
  {
    ModDistinct(a, b, len);
  }

  lemma NextSlot(n: nat, len: nat)
    requires 0 < len
    ensures NextIndex(Slot(n, len), len) == Slot(n + 1, len)
  {
    DivStep(n, 1, len);
    WrapOnce(n % len + 1, len);
  }

  /** A loop over blocks that compares slots stops after exactly `total` of them. */
  lemma SlotLoopTest(start: nat, done: nat, total: nat, len: nat)
    requires done <= total < len
    ensures Advance(PosOf(start, len), total, len) == PosOf(start + total, len)
    ensures Slot(start + done, len) != PosOf(start + total, len).at <==> done < total
    ensures Slot(start + done, len) == PosOf(start, len).at <==> done == 0
  {
    AdvanceCounts(start, total, len);
    if done < total {
      ModDistinct(start + done, start + total, len);
    }
    if 0 < done {
      ModDistinct(start, start + done, len);
    }
  }

  /** The two-clause flip test says full exactly when the used blocks and the
      needed ones would reach the ring's size. */
  lemma IsFullExact(p: nat, c: nat, total: nat, len: nat)
    requires 0 < len && c <= p <= c + len && total <= len
    ensures IsFull(PosOf(p, len), PosOf(c, len), total, len) <==> p - c + total >= len
  {
    DivStep(c, p - c, len);
    hide IsFull;
    IsFullCases(PosOf(p, len), PosOf(c, len), total, len);
  }

  /** The same over positions: on one lap head is ahead of tail, across the wrap
      it is at or behind it. */
  lemma IsFullCases(head: Pos, tail: Pos, total: nat, len: nat)
    requires head.at < len && tail.at < len && total <= len
    requires if head.flip == tail.flip then tail.at <= head.at else head.at <= tail.at
    ensures IsFull(head, tail, total, len) <==>
              (if head.flip == tail.flip then head.at - tail.at else head.at - tail.at + len) + total >= len
  {
    WrapOnce(head.at + total, len);
  }

  /** Equal position and equal flip means empty; with fewer than `len` used blocks
      equal position with different flips does not occur. */
  lemma IsEmptyExact(p: nat, c: nat, len: nat)
    requires 0 < len && c <= p < c + len
    ensures IsEmpty(PosOf(p, len), PosOf(c, len)) <==> p == c
    ensures PosOf(p, len).at == PosOf(c, len).at ==> PosOf(p, len).flip == PosOf(c, len).flip
  {
    DivStep(c, p - c, len);
  }
}
