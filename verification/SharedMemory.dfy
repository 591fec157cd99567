/** Shared-memory slots of one context: a 64-bit bitmap of page offsets beside the list
    of live blocks. */
module SharedMemory {
  import opened Bytes
  import opened Bitmaps

  const SLOTS: nat := 64

  /** A block on shrd_mem_list. Zero-copy blocks (the SHARED and REGISTER flags) take
      their memory from the heap: they own no slot and keep offset 0. */
  datatype Block = Block(buffer: nat, zeroCopy: bool, offset: nat)

  datatype Slots = Slots(bits: set<nat>, live: seq<Block>)

  /** What the caller asks for, with what malloc or mmap would return. */
  datatype Op =
    | Allocate(zeroCopy: bool, memory: Memory)
    | Release(buffer: nat)

  datatype Memory = Mapped(buffer: nat) | NoMemory

  function FirstFree(bits: set<nat>, from: nat): (i: nat)
    requires from <= SLOTS && forall j: nat :: j < from ==> j in bits
    ensures i <= SLOTS && forall j: nat :: j < i ==> j in bits
    ensures i < SLOTS ==> i !in bits
    decreases SLOTS - from
  {
    if from == SLOTS || from !in bits then from else FirstFree(bits, from + 1)
  }

  /** The list search of a release: the first block with this buffer, or the length. */
  function Find(live: seq<Block>, buffer: nat): (k: nat)
    ensures k <= |live|
    ensures forall j :: 0 <= j < k ==> live[j].buffer != buffer
    ensures k < |live| ==> live[k].buffer == buffer
  {
    if live == [] then 0 else if live[0].buffer == buffer then 0 else 1 + Find(live[1..], buffer)
  }

  function Remove(live: seq<Block>, k: nat): seq<Block>
    requires k < |live|
  {
    live[..k] + live[k + 1..]
  }

  function Apply(s: Slots, op: Op): Slots
  {
    match op
    case Allocate(true, Mapped(b)) => s.(live := s.live + [Block(b, true, 0)])
    case Allocate(true, NoMemory) => s
    case Allocate(false, m) =>
      var i := FirstFree(s.bits, 0);
      if i == SLOTS then s
      else if m.NoMemory? then s.(bits := s.bits + {i} - {i})
      else Slots(s.bits + {i}, s.live + [Block(m.buffer, false, i)])
    case Release(b) =>
      var k := Find(s.live, b);
      if k == |s.live| then s
      else Slots(s.bits - {s.live[k].offset}, Remove(s.live, k))
  }

  function Exec(ops: seq<Op>): Slots
  {
    if ops == [] then Slots({}, []) else Apply(Exec(ops[..|ops| - 1]), ops[|ops| - 1])
  }

  /** The set bits are exactly the offsets of the live mapped blocks, no two the same. */
  ghost predicate Consistent(s: Slots)
  {
    && (forall i :: i in s.bits ==>
          i < SLOTS && exists k :: 0 <= k < |s.live| && !s.live[k].zeroCopy && s.live[k].offset == i)
    && (forall k :: 0 <= k < |s.live| ==>
          if s.live[k].zeroCopy then s.live[k].offset == 0 else s.live[k].offset in s.bits)
    && (forall k, l :: 0 <= k < l < |s.live| && !s.live[k].zeroCopy && !s.live[l].zeroCopy ==>
          s.live[k].offset != s.live[l].offset)
  }

  /** A zero-copy release clears bit 0 although it never took it. */
  predicate ClearsForeignBit(s: Slots, op: Op)
  {
    op.Release? && var k := Find(s.live, op.buffer); k < |s.live| && s.live[k].zeroCopy && 0 in s.bits
  }

  lemma RemovedAt(live: seq<Block>, k: nat, l: nat)
    requires k < |live| && l < |live| && l != k
    ensures |Remove(live, k)| == |live| - 1
    ensures (if l < k then l else l - 1) < |live| - 1
    ensures Remove(live, k)[if l < k then l else l - 1] == live[l]
  {
  }

  lemma KeptFrom(live: seq<Block>, k: nat, j: nat)
    requires k < |live| && j < |live| - 1
    ensures Remove(live, k)[j] == live[if j < k then j else j + 1]
  {
  }

  lemma RemoveKeeps(s: Slots, k: nat)
    requires Consistent(s) && k < |s.live|
    requires s.live[k].zeroCopy ==> 0 !in s.bits
    ensures Consistent(Slots(s.bits - {s.live[k].offset}, Remove(s.live, k)))
  {
    var s' := Slots(s.bits - {s.live[k].offset}, Remove(s.live, k));
    hide Remove;
    forall i | i in s'.bits
      ensures i < SLOTS && exists j :: 0 <= j < |s'.live| && !s'.live[j].zeroCopy && s'.live[j].offset == i
    {
      var l :| 0 <= l < |s.live| && !s.live[l].zeroCopy && s.live[l].offset == i;
      RemovedAt(s.live, k, l);
    }
    RemovedLength(s.live, k);
    forall j | 0 <= j < |s'.live|
      ensures s'.live[j] == s.live[if j < k then j else j + 1]
    {
      KeptFrom(s.live, k, j);
    }
  }

  lemma RemovedLength(live: seq<Block>, k: nat)
    requires k < |live|
    ensures |Remove(live, k)| == |live| - 1
  {
  }

  lemma ReleaseKeeps(s: Slots, op: Op)
    requires Consistent(s) && op.Release?
    ensures Consistent(Apply(s, op)) <==> !ClearsForeignBit(s, op)
  {
    var s', k := Apply(s, op), Find(s.live, op.buffer);
    if k < |s.live| {
      if ClearsForeignBit(s, op) {
        hide Remove;
        var l :| 0 <= l < |s.live| && !s.live[l].zeroCopy && s.live[l].offset == 0;
        RemovedAt(s.live, k, l);
        var j := if l < k then l else l - 1;
        assert 0 <= j < |s'.live| && !s'.live[j].zeroCopy && s'.live[j].offset !in s'.bits;
      } else {
        RemoveKeeps(s, k);
      }
    }
  }

  lemma AppendKeeps(s: Slots, b: Block)
    requires Consistent(s)
    requires if b.zeroCopy then b.offset == 0 else b.offset < SLOTS && b.offset !in s.bits
    ensures Consistent(Slots(if b.zeroCopy then s.bits else s.bits + {b.offset}, s.live + [b]))
  {
    var live, n := s.live + [b], |s.live|;
    assert live[n] == b && forall k :: 0 <= k < n ==> live[k] == s.live[k];
    forall i | i in s.bits
      ensures i < SLOTS && exists j :: 0 <= j < |live| && !live[j].zeroCopy && live[j].offset == i
    {
      var l :| 0 <= l < n && !s.live[l].zeroCopy && s.live[l].offset == i;
      assert live[l] == s.live[l];
    }
  }

  lemma AllocateKeeps(s: Slots, op: Op)
    requires Consistent(s) && op.Allocate?
    ensures Consistent(Apply(s, op))
  {
    hide Consistent;
    var i := FirstFree(s.bits, 0);
    if op.memory.Mapped? && (op.zeroCopy || i < SLOTS) {
      AppendKeeps(s, Block(op.memory.buffer, op.zeroCopy, if op.zeroCopy then 0 else i));
    } else {
      assert i < SLOTS ==> s.bits + {i} - {i} == s.bits;
    }
  }

  /** One step keeps the slots consistent exactly when it is not a zero-copy release
      while slot 0 is in use. */
  lemma StepExact(s: Slots, op: Op)
    requires Consistent(s)
    ensures Consistent(Apply(s, op)) <==> !ClearsForeignBit(s, op)
  {
    if op.Allocate? {
      AllocateKeeps(s, op);
    } else {
      ReleaseKeeps(s, op);
    }
  }

  /** Consistent after every prefix of the run. */
  ghost predicate AlwaysConsistent(ops: seq<Op>)
  {
    Consistent(Exec(ops)) && (ops == [] || AlwaysConsistent(ops[..|ops| - 1]))
  }

  ghost predicate NeverForeign(ops: seq<Op>)
  {
    ops == [] || (!ClearsForeignBit(Exec(ops[..|ops| - 1]), ops[|ops| - 1]) && NeverForeign(ops[..|ops| - 1]))
  }

  /** Over whole runs: the slots are consistent throughout exactly when no step of the
      run clears a bit it does not own. */
  lemma {:induction false} RunExact(ops: seq<Op>)
    ensures AlwaysConsistent(ops) <==> NeverForeign(ops)
  {
    if ops != [] {
      hide Consistent, ClearsForeignBit, Apply;
      var before := Exec(ops[..|ops| - 1]);
      RunExact(ops[..|ops| - 1]);
      if AlwaysConsistent(ops[..|ops| - 1]) {
        StepExact(before, ops[|ops| - 1]);
      }
    } else {
      assert Consistent(Slots({}, []));
    }
  }

  /** No more than `n` different numbers below `n`. */
  lemma {:induction false} AtMost(offsets: seq<nat>, n: nat)
    requires Distinct(offsets) && forall k :: 0 <= k < |offsets| ==> offsets[k] < n
    ensures |offsets| <= n
    decreases n
  {
    assert offsets != [] ==> offsets[0] < n;
    if offsets != [] {
      if k :| 0 <= k < |offsets| && offsets[k] == n - 1 {
        AtMost(offsets[..k] + offsets[k + 1..], n - 1);
      } else {
        AtMost(offsets, n - 1);
      }
    }
  }

  lemma AtMostSlots(s: Slots)
    requires Consistent(s) && forall k :: 0 <= k < |s.live| ==> !s.live[k].zeroCopy
    ensures |s.live| <= SLOTS
  {
    AtMost(seq(|s.live|, k requires 0 <= k < |s.live| => s.live[k].offset), SLOTS);
  }

  /** Without zero-copy blocks every run is consistent, and has at most 64 live blocks. */
  lemma NoZeroCopyRun(ops: seq<Op>)
    requires forall op <- ops :: op.Allocate? ==> !op.zeroCopy
    ensures Consistent(Exec(ops)) && |Exec(ops).live| <= SLOTS
    ensures forall k :: 0 <= k < |Exec(ops).live| ==> !Exec(ops).live[k].zeroCopy
  {
    hide Exec, Consistent;
    OnlyMapped(ops);
    AtMostSlots(Exec(ops));
  }

  lemma {:induction false} OnlyMapped(ops: seq<Op>)
    requires forall op <- ops :: op.Allocate? ==> !op.zeroCopy
    ensures Consistent(Exec(ops))
    ensures forall k :: 0 <= k < |Exec(ops).live| ==> !Exec(ops).live[k].zeroCopy
  {
    if ops != [] {
      var m := |ops| - 1;
      OnlyMapped(ops[..m]);
      assert ops[m] in ops;
      StepExact(Exec(ops[..m]), ops[m]);
    }
  }

  /** Two live blocks can end up on one offset: map a block, allocate and release a
      zero-copy one, map another. */
  lemma SharedSlotExample()
    ensures var s := Exec([Allocate(false, Mapped(10)), Allocate(true, Mapped(20)), Release(20),
                           Allocate(false, Mapped(30))]);
            s.live == [Block(10, false, 0), Block(30, false, 0)]
  {
    var a, b, c, d := Allocate(false, Mapped(10)), Allocate(true, Mapped(20)), Release(20), Allocate(false, Mapped(30));
    assert [a, b, c, d][..3] == [a, b, c] && [a, b, c][..2] == [a, b] && [a, b][..1] == [a] && [a][..0] == [];
    assert Exec([a]) == Slots({0}, [Block(10, false, 0)]);
    assert Exec([a, b]) == Slots({0}, [Block(10, false, 0), Block(20, true, 0)]);
    assert Find(Exec([a, b]).live, 20) == 1;
    assert Exec([a, b, c]) == Slots({}, [Block(10, false, 0)]);
  }

  /** The context's own bitmap and list. */
  class ContextMemory {
    const bitmap: array<bv8>
    var live: seq<Block>

    ghost function View(): Slots
      reads this, bitmap
    {
      Slots(Bits(bitmap[..]), live)
    }

    ghost predicate Valid() { bitmap.Length == 8 }

    constructor ()
      ensures Valid() && View() == Exec([]) && fresh(bitmap)
    {
      bitmap := new bv8[8](_ => 0);
      live := [];
      new;
      assert forall i: nat :: i < 64 ==> !BitAt(bitmap[..], i);
      assert Bits(bitmap[..]) == {};
    }

    method AllocateSharedMemory(zeroCopy: bool, memory: Memory) returns (ok: bool)
      requires Valid()
      modifies this`live, bitmap
      ensures View() == Apply(old(View()), Allocate(zeroCopy, memory))
      ensures ok <==> memory.Mapped? && (zeroCopy || FirstFree(old(View()).bits, 0) < SLOTS)
    {
      var offset := 0;
      if !zeroCopy {
        ghost var m := bitmap[..];
        var validBit := IterateBitmap(bitmap, true);
        FirstFreeUnique(m, validBit);
        if validBit < 0 {
          return false;
        }
        offset := validBit;
      }
      if memory.NoMemory? {
        if !zeroCopy {
          ClearBit(offset, bitmap);
        }
        return false;
      }
      live := live + [Block(memory.buffer, zeroCopy, offset)];
      ok := true;
    }

    method ReleaseSharedMemory(buffer: nat)
      requires Valid()
      modifies this`live, bitmap
      ensures View() == Apply(old(View()), Release(buffer))
    {
      var k := 0;
      while k < |live|
        invariant k <= |live| && forall j :: 0 <= j < k ==> live[j].buffer != buffer
      {
        if live[k].buffer == buffer {
          break;
        }
        k := k + 1;
      }
      if k == |live| {
        return;
      }
      assert Find(live, buffer) == k;
      ClearBit(live[k].offset, bitmap);
      live := live[..k] + live[k + 1..];
    }
  }

  lemma FirstFreeUnique(m: seq<bv8>, r: int)
    requires |m| == 8 && IsFirstEligible(m, true, r)
    ensures FirstFree(Bits(m), 0) == if r == -1 then SLOTS else r
  {
    var i := FirstFree(Bits(m), 0);
    if r == -1 {
      assert i < SLOTS ==> !Eligible(m, i, true);
    } else {
      assert r !in Bits(m);
      assert i < r ==> !Eligible(m, i, true);
    }
  }
}
