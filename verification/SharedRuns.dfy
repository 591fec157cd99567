/** Which shared memory a context has after a run: the bitmap and the offsets refine a
    plain list of buffers with at most 64 mapped ones. */
module SharedRuns {
  import opened Bytes
  import opened SharedMemory

  /** A release takes the first block with the buffer off the list and frees its slot. */
  lemma ReleaseExact(s: Slots, buffer: nat, k: nat)
    requires k < |s.live| && s.live[k].buffer == buffer && forall j :: 0 <= j < k ==> s.live[j].buffer != buffer
    ensures Apply(s, Release(buffer)).live == s.live[..k] + s.live[k + 1..]
    ensures Apply(s, Release(buffer)).bits == s.bits - {s.live[k].offset}
  {
    assert Find(s.live, buffer) == k;
  }

  lemma ReleaseUnknown(s: Slots, buffer: nat)
    requires forall b <- s.live :: b.buffer != buffer
    ensures Apply(s, Release(buffer)) == s
  {
    assert Find(s.live, buffer) == |s.live|;
  }

  // The plain list.

  datatype Item = Item(buffer: nat, zeroCopy: bool)

  function Mappings(items: seq<Item>): nat
  {
    if items == [] then 0 else Mappings(items[..|items| - 1]) + if items[|items| - 1].zeroCopy then 0 else 1
  }

  function Without(items: seq<Item>, buffer: nat): seq<Item>
  {
    if items == [] then []
    else if items[0].buffer == buffer then items[1..]
    else [items[0]] + Without(items[1..], buffer)
  }

  function Keep(items: seq<Item>, op: Op): seq<Item>
  {
    match op
    case Allocate(_, NoMemory) => items
    case Allocate(zeroCopy, Mapped(b)) =>
      if zeroCopy || Mappings(items) < 64 then items + [Item(b, zeroCopy)] else items
    case Release(b) => Without(items, b)
  }

  function Kept(ops: seq<Op>): seq<Item>
  {
    if ops == [] then [] else Keep(Kept(ops[..|ops| - 1]), ops[|ops| - 1])
  }

  function Items(live: seq<Block>): (items: seq<Item>)
    ensures |items| == |live|
    ensures forall k :: 0 <= k < |live| ==> items[k] == Item(live[k].buffer, live[k].zeroCopy)
  {
    seq(|live|, k requires 0 <= k < |live| => Item(live[k].buffer, live[k].zeroCopy))
  }

  // The bitmap is full exactly when 64 mapped blocks are live.

  function Offsets(live: seq<Block>): (offsets: seq<nat>)
    ensures |offsets| == Mappings(Items(live))
  {
    if live == [] then []
    else
      var n := |live| - 1;
      assert Items(live)[..n] == Items(live[..n]);
      Offsets(live[..n]) + if live[n].zeroCopy then [] else [live[n].offset]
  }

  lemma OffsetsSnoc(live: seq<Block>, b: Block)
    ensures Offsets(live + [b]) == Offsets(live) + if b.zeroCopy then [] else [b.offset]
  {
    hide Items, Mappings;
    assert (live + [b])[..|live|] == live;
  }

  predicate HasOffset(live: seq<Block>, i: nat)
  {
    exists k :: 0 <= k < |live| && !live[k].zeroCopy && live[k].offset == i
  }

  lemma OneOffset(live: seq<Block>, b: Block, i: nat)
    ensures HasOffset(live + [b], i) <==> HasOffset(live, i) || (!b.zeroCopy && b.offset == i)
  {
    var all := live + [b];
    assert all[|live|] == b && forall k :: 0 <= k < |live| ==> all[k] == live[k];
  }

  lemma {:induction false} OffsetsAre(live: seq<Block>, i: nat)
    ensures i in Offsets(live) <==> HasOffset(live, i)
  {
    if live != [] {
      hide Offsets, HasOffset;
      var n := |live| - 1;
      OffsetsAre(live[..n], i);
      assert live[..n] + [live[n]] == live;
      OffsetsSnoc(live[..n], live[n]);
      OneOffset(live[..n], live[n], i);
    }
  }

  lemma {:induction false} OffsetsDistinct(live: seq<Block>)
    requires forall k, l :: 0 <= k < l < |live| && !live[k].zeroCopy && !live[l].zeroCopy ==>
               live[k].offset != live[l].offset
    ensures Distinct(Offsets(live))
  {
    if live != [] {
      hide Items, Mappings;
      var n := |live| - 1;
      OffsetsDistinct(live[..n]);
      OffsetsAre(live[..n], live[n].offset);
    }
  }

  /** At least `n` numbers if all below `n` are among them. */
  lemma {:induction false} AtLeast(offsets: seq<nat>, n: nat)
    requires forall i :: 0 <= i < n ==> i in offsets
    ensures |offsets| >= n
    decreases n
  {
    if n > 0 {
      assert n - 1 in offsets;
      var k :| 0 <= k < |offsets| && offsets[k] == n - 1;
      var rest := offsets[..k] + offsets[k + 1..];
      forall i | 0 <= i < n - 1
        ensures i in rest
      {
        assert i in offsets;
        var l :| 0 <= l < |offsets| && offsets[l] == i;
        assert rest[if l < k then l else l - 1] == i;
      }
      AtLeast(rest, n - 1);
    }
  }

  lemma {:induction false} FullExact(s: Slots)
    requires Consistent(s)
    ensures FirstFree(s.bits, 0) == 64 <==> Mappings(Items(s.live)) >= 64
    ensures Mappings(Items(s.live)) <= 64
  {
    OffsetsDistinct(s.live);
    OffsetsAreBits(s);
    hide Offsets, Consistent, Items, Mappings;
    BitsFull(s.bits, Offsets(s.live));
  }

  lemma {:induction false} BitsFull(bits: set<nat>, offsets: seq<nat>)
    requires Distinct(offsets) && forall j: nat :: j in offsets <==> j in bits
    requires forall j :: j in bits ==> j < 64
    ensures FirstFree(bits, 0) == 64 <==> |offsets| >= 64
    ensures |offsets| <= 64
  {
    hide FirstFree;
    var i := FirstFree(bits, 0);
    assert forall k :: 0 <= k < |offsets| ==> offsets[k] in offsets;
    AtMost(offsets, 64);
    if i == 64 {
      AtLeast(offsets, 64);
    } else {
      OneMore(offsets, i);
    }
  }

  lemma OneMore(offsets: seq<nat>, i: nat)
    requires Distinct(offsets) && i !in offsets && i < 64 && forall k :: 0 <= k < |offsets| ==> offsets[k] < 64
    ensures |offsets| < 64
  {
    AtMost(offsets + [i], 64);
  }

  lemma OffsetsAreBits(s: Slots)
    requires Consistent(s)
    ensures forall j: nat :: j in Offsets(s.live) <==> j in s.bits
    ensures forall j :: j in s.bits ==> j < 64
  {
    hide Offsets;
    forall j: nat
      ensures j in Offsets(s.live) <==> j in s.bits
    {
      OffsetsAre(s.live, j);
    }
  }

  // Runs.

  lemma {:induction false} WithoutIs(items: seq<Item>, buffer: nat, k: nat)
    requires k <= |items| && forall j :: 0 <= j < k ==> items[j].buffer != buffer
    requires k < |items| ==> items[k].buffer == buffer
    ensures Without(items, buffer) == if k < |items| then items[..k] + items[k + 1..] else items
  {
    hide Without;
    WithoutFirst(items, buffer);
    if k > 0 {
      var rest := items[1..];
      WithoutIs(rest, buffer, k - 1);
      if k < |items| {
        CutBehind(items, k);
      } else {
        assert [items[0]] + rest == items;
      }
    }
  }

  lemma {:induction false} WithoutFirst(items: seq<Item>, buffer: nat)
    ensures items == [] ==> Without(items, buffer) == []
    ensures items != [] ==>
              Without(items, buffer) ==
              if items[0].buffer == buffer then items[1..] else [items[0]] + Without(items[1..], buffer)
  {
  }

  lemma ReleasesFirst(live: seq<Block>, buffer: nat)
    ensures Items(if Find(live, buffer) == |live| then live else Remove(live, Find(live, buffer)))
            == Without(Items(live), buffer)
  {
    hide Without, Remove, Find;
    var k := Find(live, buffer);
    WithoutIs(Items(live), buffer, k);
    if k < |live| {
      ItemsWithout(live, k);
    }
  }

  lemma ItemsWithout(live: seq<Block>, k: nat)
    requires k < |live|
    ensures Items(Remove(live, k)) == Items(live)[..k] + Items(live)[k + 1..]
  {
    hide Items;
  }

  lemma OpKeeps(s: Slots, op: Op)
    requires Consistent(s)
    ensures Items(Apply(s, op).live) == Keep(Items(s.live), op)
  {
    hide Consistent, Mappings, Remove;
    match op
    case Allocate(_, m) =>
      FullExact(s);
    case Release(b) =>
      ReleasesFirst(s.live, b);
  }

  /** As long as no release clears a slot it does not own, the live blocks are, in order,
      what was allocated and not released, where a mapping fails exactly while 64 are live. */
  lemma {:induction false} RunKeeps(ops: seq<Op>)
    requires NeverForeign(ops)
    ensures Items(Exec(ops).live) == Kept(ops)
  {
    if ops != [] {
      hide Consistent, Apply, Keep, ClearsForeignBit;
      var m := |ops| - 1;
      RunKeeps(ops[..m]);
      RunExact(ops[..m]);
      OpKeeps(Exec(ops[..m]), ops[m]);
    }
  }

  /** A full context that gives back a mapped block can map another one. */
  lemma RoomAgain(s: Slots, k: nat, memory: nat)
    requires Consistent(s) && k < |s.live| && !s.live[k].zeroCopy
    requires forall j :: 0 <= j < k ==> s.live[j].buffer != s.live[k].buffer
    ensures var t := Apply(Apply(s, Release(s.live[k].buffer)), Allocate(false, Mapped(memory)));
            |t.live| == |s.live| && t.live[|t.live| - 1].buffer == memory && !t.live[|t.live| - 1].zeroCopy
  {
    var s' := Apply(s, Release(s.live[k].buffer));
    ReleaseExact(s, s.live[k].buffer, k);
    assert s.live[k].offset in s.bits && s.live[k].offset !in s'.bits && s.live[k].offset < 64;
    assert FirstFree(s'.bits, 0) < 64;
  }
}
