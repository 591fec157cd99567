/** How large the log files get. */
module LogSizes {
  import opened LogDirs
  import opened LogStore

  /** The limit, a banner, and one record of at most 960 bytes for each of `n`. */
  function Bound(banner: nat, n: nat): nat { 512000 + banner + 960 * n }

  predicate FullSize(t: Text, banner: nat, bound: nat) { 512000 <= Len(t, banner) < bound }

  predicate Finished(logs: Files, banner: nat, bound: nat)
  {
    forall i :: i in logs && i > 0 ==> FullSize(logs[i], banner, bound)
  }

  predicate AllFull(packed: seq<Files>, banner: nat, bound: nat)
  {
    forall j, i :: 0 <= j < |packed| && i in packed[j] ==> FullSize(packed[j][i], banner, bound)
  }

  /** `r` counts the restarts so far. A file reopened after a restart may take one more
      record than the limit allows. */
  ghost predicate SizeOk(s: Store, u: Uuid, r: nat)
  {
    var d, bound := DirOf(s, u), Bound(s.banner, r + 1);
    && Finished(d.logs, s.banner, bound)
    && AllFull(d.packed, s.banner, bound)
    && CurrentLen(s, u) < if NoSlotOf(s.slots, u) then Bound(s.banner, r) else bound
  }

  ghost predicate SizeInv(s: Store, r: nat) { forall u: Uuid :: SizeOk(s, u, r) }

  lemma FullSizes(d: Dir, k: nat, banner: nat, bound: nat)
    requires 0 in d.logs && FullSize(d.logs[0], banner, bound) && Finished(d.logs, banner, bound) && k < 4
    ensures Finished(Full(d, k).logs, banner, bound) && 0 !in Full(d, k).logs && Full(d, k).packed == d.packed
  {
    hide FullSize;
  }

  lemma CompressSizes(d: Dir, banner: nat, bound: nat)
    requires 0 in d.logs && FullSize(d.logs[0], banner, bound) && Finished(d.logs, banner, bound)
    requires AllFull(d.packed, banner, bound)
    ensures Finished(Compress(d).logs, banner, bound) && AllFull(Compress(d).packed, banner, bound)
    ensures 0 !in Compress(d).logs
  {
    hide FullSize, FreeArchive, Arrange;
  }

  lemma RollSizes(s: Store, i: nat, r: nat)
    requires Inv(s) && SizeInv(s, r) && i < |s.slots| && AtLimit(s.slots[i])
    ensures SizeInv(RollSlot(s, i), r)
  {
    hide Roll, DirOk, Bound, Len, FileIndex, AllFull, Finished;
    var s', u, k := RollSlot(s, i), s.slots[i].uuid, s.slots[i].fileIndex;
    var d, bound := DirOf(s, u), Bound(s.banner, r + 1);
    assert SlotOk(s, s.slots[i]) && SizeOk(s, u, r);
    RollDir(d, k, s.banner, bound);
    EmptyLength(s.banner, r);
    forall v: Uuid
      ensures SizeOk(s', v, r)
    {
      assert SizeOk(s, v, r);
      if v != u {
        SlotsOfOthers(s.slots, i, NoFile, v);
      }
    }
  }

  lemma EmptyLength(banner: nat, r: nat)
    ensures Len([], banner) == 0 < Bound(banner, r) <= Bound(banner, r + 1)
  {
  }

  lemma RollDir(d: Dir, k: nat, banner: nat, bound: nat)
    requires 0 in d.logs && k == FileIndex(d) && FullSize(d.logs[0], banner, bound)
    requires Finished(d.logs, banner, bound) && AllFull(d.packed, banner, bound)
    ensures Finished(Roll(d, k).logs, banner, bound) && AllFull(Roll(d, k).packed, banner, bound)
    ensures 0 !in Roll(d, k).logs
  {
    hide Compress, Full, FullSize, Finished, AllFull;
    if k >= 3 {
      CompressSizes(d, banner, bound);
    } else {
      FullSizes(d, k, banner, bound);
    }
  }

  /** Changing a slot that is not, and does not become, one of `v`. */
  lemma SlotsOfOthers(slots: seq<Slot>, i: nat, slot: Slot, v: Uuid)
    requires i < |slots| && (slots[i].InUse? ==> slots[i].uuid != v) && (slot.InUse? ==> slot.uuid != v)
    ensures NoSlotOf(slots[i := slot], v) <==> NoSlotOf(slots, v)
  {
    if NoSlotOf(slots[i := slot], v) {
      forall j | 0 <= j < |slots|
        ensures !(slots[j].InUse? && slots[j].uuid == v)
      {
        assert j != i ==> slots[i := slot][j] == slots[j];
      }
    }
  }

  lemma DropSizes(s: Store, i: nat, r: nat)
    requires Inv(s) && SizeInv(s, r) && i < |s.slots| && !AtLimit(s.slots[i])
    ensures SizeInv(SetSlot(s, i, NoFile), r)
  {
    hide DirOk, Len, FileIndex, AllFull, Finished;
    var s' := SetSlot(s, i, NoFile);
    assert SlotOk(s, s.slots[i]);
    forall v: Uuid
      ensures SizeOk(s', v, r)
    {
      assert SizeOk(s, v, r);
      if s.slots[i].NoFile? || v != s.slots[i].uuid {
        SlotsOfOthers(s.slots, i, NoFile, v);
      }
    }
  }

  lemma {:induction false} UsableSizes(s: Store, u: Uuid, i: nat, r: nat)
    requires Inv(s) && SizeInv(s, r) && i <= |s.slots|
    ensures SizeInv(Usable(s, u, i).0, r)
    ensures Usable(s, u, i).1 < |s.slots| ==> CurrentLen(Usable(s, u, i).0, u) < Bound(s.banner, r)
    decreases |s.slots| - i
  {
    hide RollSlot, OnePerUuid, DirOk, SizeInv, Len;
    if i < |s.slots| {
      if !s.slots[i].InUse? || s.slots[i].uuid != u {
        UsableSizes(s, u, i + 1, r);
      } else if AtLimit(s.slots[i]) {
        RollSlotKeeps(s, i);
        RollSlots(s, i);
        RollSizes(s, i, r);
        UsableSizes(RollSlot(s, i), u, i + 1, r);
      } else {
        assert SlotOk(s, s.slots[i]);
      }
    }
  }

  lemma OpenedLength(d: Dir, banner: nat)
    ensures Len(Get(Open(d).logs, 0), banner) == if 0 in d.logs then OpenLen(d, banner) else banner
  {
    assert [] + [Banner] == [Banner];
  }

  lemma OpenNewSizes(s: Store, u: Uuid, r: nat)
    requires SizeInv(s, r) && NoSlotOf(s.slots, u)
    ensures SizeInv(OpenNew(s, u).0, r)
    ensures CurrentLen(OpenNew(s, u).0, u) < Bound(s.banner, r)
  {
    hide Len, FileIndex, AllFull, FullSize;
    var (s', i) := OpenNew(s, u);
    OpenedLength(DirOf(s, u), s.banner);
    assert SizeOk(s, u, r);
    forall v: Uuid
      ensures SizeOk(s', v, r)
    {
      assert SizeOk(s, v, r);
      if v != u && i < |s.slots| {
        SlotsOfOthers(s.slots, i, s'.slots[i], v);
      }
    }
  }

  lemma AddSizes(s: Store, i: nat, p: Piece, r: nat)
    requires Inv(s) && SizeInv(s, r) && i < |s.slots| && s.slots[i].InUse? && PieceLen(p, s.banner) <= 960
    requires CurrentLen(s, s.slots[i].uuid) < Bound(s.banner, r)
    ensures SizeInv(AddPiece(s, i, p), r)
  {
    hide Len, FileIndex, AllFull, FullSize, DirOk;
    var s', u := AddPiece(s, i, p), s.slots[i].uuid;
    assert SlotOk(s, s.slots[i]);
    AppendLength(DirOf(s, u), p, s.banner);
    forall v: Uuid
      ensures SizeOk(s', v, r)
    {
      assert SizeOk(s, v, r);
      if v != u {
        SlotsOfOthers(s.slots, i, s'.slots[i], v);
      } else {
        assert s'.slots[i].InUse? && s'.slots[i].uuid == v;
      }
    }
  }

  lemma {:induction false} CloseSizes(s: Store, i: nat, r: nat)
    requires Inv(s) && SizeInv(s, r) && i <= |s.slots|
    ensures SizeInv(CloseFrom(s, i), r)
    decreases |s.slots| - i
  {
    hide Inv, RollSlot, SetSlot, SizeInv;
    if i < |s.slots| {
      if AtLimit(s.slots[i]) {
        RollSlotKeeps(s, i);
        RollSlots(s, i);
        RollSizes(s, i, r);
        CloseSizes(RollSlot(s, i), i + 1, r);
      } else {
        DropSlotKeeps(s, i);
        DropSlots(s, i);
        DropSizes(s, i, r);
        CloseSizes(SetSlot(s, i, NoFile), i + 1, r);
      }
    }
  }

  lemma RestartSizes(s: Store, r: nat)
    requires SizeInv(s, r)
    ensures SizeInv(s.(slots := NoFiles(|s.slots|)), r + 1)
  {
    hide Len;
    var s', r' := s.(slots := NoFiles(|s.slots|)), r + 1;
    forall v: Uuid
      ensures SizeOk(s', v, r')
    {
      assert SizeOk(s, v, r);
    }
  }

  lemma WriteSizes(s: Store, u: Uuid, p: Piece, r: nat)
    requires Inv(s) && SizeInv(s, r) && p.Record? && p.len <= 960
    ensures SizeInv(WriteStep(s, u, p), r)
  {
    hide Inv, Usable, OpenNew, AddPiece, SizeInv, CurrentLen, Bound;
    UsableKeeps(s, u, 0);
    UsableSizes(s, u, 0, r);
    var (s1, i) := Usable(s, u, 0);
    if i == |s.slots| {
      OpenNewKeeps(s1, u);
      OpenNewSizes(s1, u, r);
    }
    var (s2, j) := GetFile(s, u);
    if j < |s.slots| {
      AddSizes(s2, j, p, r);
    }
  }

  function Restarts(es: seq<Event>): nat
  {
    if es == [] then 0 else Restarts(es[..|es| - 1]) + if es[|es| - 1].Restart? then 1 else 0
  }

  predicate RecordsFit(es: seq<Event>)
  {
    es == [] || (RecordsFit(es[..|es| - 1]) && (es[|es| - 1].Write? ==> es[|es| - 1].len <= 960))
  }

  lemma {:induction false} RunSizes(banner: nat, es: seq<Event>)
    requires RecordsFit(es)
    ensures SizeInv(Exec(banner, es), Restarts(es)) && Exec(banner, es).banner == banner
  {
    hide WriteStep, CloseFrom, SizeOk, Inv;
    if es == [] {
      EmptySizes(banner);
    } else {
      var prev, e, r := es[..|es| - 1], es[|es| - 1], Restarts(es[..|es| - 1]);
      RunSizes(banner, prev);
      RunInv(banner, prev);
      BannerStays(Exec(banner, prev), e);
      match e
      case Write(u, len, id) => WriteSizes(Exec(banner, prev), u, Record(len, id), r);
      case Close => CloseSizes(Exec(banner, prev), 0, r);
      case Restart => RestartSizes(Exec(banner, prev), r);
    }
  }

  lemma EmptySizes(banner: nat)
    ensures SizeInv(Exec(banner, []), 0)
  {
  }

  lemma BannerStays(s: Store, e: Event)
    ensures Apply(s, e).banner == s.banner
  {
    if e.Close? {
      CloseBanner(s, 0);
    }
  }

  /** Every finished file, also inside the archives, reached the limit; none exceeds it
      by more than the banner and one record for the run and for each restart. */
  lemma FileSizes(banner: nat, es: seq<Event>, u: Uuid, i: nat)
    requires RecordsFit(es)
    ensures var d, bound := DirOf(Exec(banner, es), u), 512000 + banner + 960 * (Restarts(es) + 1);
            && (i in d.logs && i > 0 ==> 512000 <= Len(d.logs[i], banner) < bound)
            && Len(Get(d.logs, 0), banner) < bound
            && forall j :: 0 <= j < |d.packed| && i in d.packed[j] ==> 512000 <= Len(d.packed[j][i], banner) < bound
  {
    RunSizes(banner, es);
    assert SizeOk(Exec(banner, es), u, Restarts(es));
    hide Len, Exec;
    assert forall j :: 0 <= j < |DirOf(Exec(banner, es), u).packed| && i in DirOf(Exec(banner, es), u).packed[j] ==>
      FullSize(DirOf(Exec(banner, es), u).packed[j][i], banner, Bound(banner, Restarts(es) + 1));
  }

  // The bound is reached.

  /** One source, whose file 0 is open in slot 0: `counted` bytes by its slot, `len` in fact. */
  predicate OneFile(s: Store, counted: nat, len: nat)
  {
    && |s.slots| == LOG_FILES_MAX && s.slots[0] == InUse(0, counted, 0)
    && (forall j :: 0 < j < |s.slots| ==> s.slots[j].NoFile?)
    && DirOf(s, 0).logs.Keys == {0} && CurrentLen(s, 0) == len
  }

  lemma {:induction false} UsableFirst(s: Store, i: nat)
    requires i <= |s.slots| && forall j :: i <= j < |s.slots| ==> s.slots[j].NoFile?
    ensures Usable(s, 0, i) == (s, |s.slots|)
    decreases |s.slots| - i
  {
    if i < |s.slots| {
      UsableFirst(s, i + 1);
    }
  }

  lemma OnlyIndex(logs: Files)
    requires logs.Keys == {0}
    ensures IndexFrom(logs, 3) == 0
  {
    IndexCases(logs);
  }

  /** A write to a file below the limit goes into it, however long the record is. */
  lemma WriteMore(s: Store, counted: nat, len: nat, n: nat, id: nat)
    requires OneFile(s, counted, len) && counted < 512000
    ensures OneFile(Apply(s, Write(0, n, id)), counted + n, len + n)
  {
    hide Len;
    assert Usable(s, 0, 0) == (s, 0);
    AppendLength(DirOf(s, 0), Record(n, id), s.banner);
    assert Apply(s, Write(0, n, id)) == AddPiece(s, 0, Record(n, id));
  }

  /** The first write of all: the banner goes in front and is not counted. */
  lemma FirstWrite(banner: nat, n: nat, id: nat)
    ensures OneFile(Apply(Exec(banner, []), Write(0, n, id)), n, banner + n)
  {
    hide Len;
    var s := Exec(banner, []);
    UsableFirst(s, 0);
    OpenedLength(NO_DIR, banner);
    EmptyLength(banner, 0);
    IndexCases(NO_DIR.logs);
    AppendLength(Open(NO_DIR), Record(n, id), banner);
  }

  /** After a restart the file is opened with its full length, and the next record goes
      into it even when that length has reached the limit. */
  lemma WriteAfterRestart(s: Store, counted: nat, len: nat, n: nat, id: nat)
    requires OneFile(s, counted, len)
    ensures OneFile(Apply(Apply(s, Restart), Write(0, n, id)), len + n, len + n)
  {
    hide Len;
    var s' := Apply(s, Restart);
    UsableFirst(s', 0);
    OpenedLength(DirOf(s, 0), s.banner);
    OnlyIndex(DirOf(s, 0).logs);
    AppendLength(DirOf(s, 0), Record(n, id), s.banner);
  }

  /** 319 bytes, then records of 960 bytes: the limit is missed by one and then passed. */
  function Filling(k: nat): (es: seq<Event>)
    ensures |es| == k + 1
  {
    if k == 0 then [Write(0, 319, 0)] else Filling(k - 1) + [Write(0, 960, k)]
  }

  /** And then restarts, each followed by one more record. */
  function Overfilling(r: nat): seq<Event>
  {
    if r == 0 then Filling(534) else Overfilling(r - 1) + [Restart] + [Write(0, 960, r)]
  }

  lemma OneMoreEvent(banner: nat, es: seq<Event>, e: Event)
    ensures Exec(banner, es + [e]) == Apply(Exec(banner, es), e)
    ensures Restarts(es + [e]) == Restarts(es) + if e.Restart? then 1 else 0
    ensures RecordsFit(es + [e]) <==> RecordsFit(es) && (e.Write? ==> e.len <= 960)
  {
    hide Apply;
    assert (es + [e])[..|es|] == es;
  }

  lemma {:induction false} Fills(banner: nat, k: nat)
    requires k <= 534
    ensures OneFile(Exec(banner, Filling(k)), 319 + 960 * k, banner + 319 + 960 * k)
    ensures Restarts(Filling(k)) == 0 && RecordsFit(Filling(k))
  {
    hide Apply, OneFile, Exec, Restarts, RecordsFit;
    if k == 0 {
      FirstWrite(banner, 319, 0);
      OneMoreEvent(banner, [], Write(0, 319, 0));
      assert [] + [Write(0, 319, 0)] == Filling(0);
      NoEvents();
    } else {
      Fills(banner, k - 1);
      WriteMore(Exec(banner, Filling(k - 1)), 319 + 960 * (k - 1), banner + 319 + 960 * (k - 1), 960, k);
      OneMoreEvent(banner, Filling(k - 1), Write(0, 960, k));
    }
  }

  lemma NoEvents()
    ensures Restarts([]) == 0 && RecordsFit([])
  {
  }

  /** The length of file 0 after that: all of it is counted once it has been reopened. */
  function Reached(banner: nat, r: nat): nat { 512000 + banner + 960 * (r + 1) - 1 }

  function CountedLen(banner: nat, r: nat): nat { if r == 0 then 512959 else Reached(banner, r) }

  lemma {:induction false} Overfills(banner: nat, r: nat)
    ensures OneFile(Exec(banner, Overfilling(r)), CountedLen(banner, r), Reached(banner, r))
    ensures Restarts(Overfilling(r)) == r && RecordsFit(Overfilling(r))
  {
    hide Apply, OneFile, Exec, Restarts, RecordsFit, Filling;
    if r == 0 {
      Fills(banner, 534);
    } else {
      var es := Overfilling(r - 1);
      Overfills(banner, r - 1);
      WriteAfterRestart(Exec(banner, es), CountedLen(banner, r - 1), Reached(banner, r - 1), 960, r);
      OneMoreEvent(banner, es, Restart);
      OneMoreEvent(banner, es + [Restart], Write(0, 960, r));
    }
  }

  /** For every banner and every number of restarts there is a run after which file 0 has
      one byte less than the bound: no smaller bound holds. */
  lemma BoundReached(banner: nat, r: nat)
    ensures RecordsFit(Overfilling(r)) && Restarts(Overfilling(r)) == r
    ensures Len(Get(DirOf(Exec(banner, Overfilling(r)), 0).logs, 0), banner) == 512000 + banner + 960 * (r + 1) - 1
  {
    hide Exec, Restarts, RecordsFit, Overfilling, Len;
    Overfills(banner, r);
    RunSizes(banner, Overfilling(r));
  }
}
