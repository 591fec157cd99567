/** What the log collector guarantees over whole runs. */
module LogHistory {
  import opened LogDirs
  import opened LogStore

  /** There is at most one open file for a source; it is number 0, its slot knows the
      last number, and the name it would be renamed to is free. */
  lemma RenamesAreSafe(banner: nat, es: seq<Event>, i: nat)
    requires i < LOG_FILES_MAX
    ensures var s := Exec(banner, es);
            s.slots[i].InUse? ==>
              var d, k := DirOf(s, s.slots[i].uuid), s.slots[i].fileIndex;
              && 0 in d.logs && k == FileIndex(d) && k + 1 !in d.logs
              && (k >= 3 ==> Numbered(d.logs).Keys == {0, 1, 2, 3})
              && forall j :: 0 <= j < LOG_FILES_MAX && j != i && s.slots[j].InUse? ==>
                   s.slots[j].uuid != s.slots[i].uuid
  {
    hide Compress, CurrentLen;
    var s := Exec(banner, es);
    RunInv(banner, es);
    if s.slots[i].InUse? {
      var d := DirOf(s, s.slots[i].uuid);
      assert DirOk(d) && SlotOk(s, s.slots[i]);
      IndexMeans(d.logs);
      CompressKeeps(d);
    }
  }

  /** The log files of a source are number 1 up to some k below 4, and possibly 0. */
  lemma FilesContiguous(banner: nat, es: seq<Event>, u: Uuid)
    ensures var logs := DirOf(Exec(banner, es), u).logs;
            && (forall i: nat :: 0 < i ==> (i in logs <==> i <= IndexFrom(logs, 3)))
            && forall i :: i in logs ==> i < 4
  {
    RunInv(banner, es);
    assert DirOk(DirOf(Exec(banner, es), u));
    IndexMeans(DirOf(Exec(banner, es), u).logs);
  }

  /** The archives of a source are numbers 0 up to min(n, 4) - 1 after n compressions,
      and hold the last min(n, 4) of them from the oldest to the newest. */
  lemma ArchiveWindow(banner: nat, es: seq<Event>, u: Uuid)
    ensures var d := DirOf(Exec(banner, es), u);
            var n, w := |d.packed|, Window(|d.packed|);
            && (forall i: nat :: i in d.archives <==> i < w)
            && forall i: nat :: i < w ==> d.archives[i] == d.packed[n - w + i]
  {
    hide Exec, AllInOrder, InOrder, NoGaps, OnePerUuid, SlotOk;
    RunInv(banner, es);
    assert DirOk(DirOf(Exec(banner, es), u));
  }

  // Conservation of records.

  function Records(t: Text): Text
  {
    if t == [] then []
    else Records(t[..|t| - 1]) + if t[|t| - 1].Record? then [t[|t| - 1]] else []
  }

  /** A place in the table that a write for `u` can use. */
  predicate HasRoom(slots: seq<Slot>, u: Uuid)
  {
    exists j :: 0 <= j < |slots| && (slots[j].NoFile? || slots[j].uuid == u)
  }

  ghost predicate SameWritten(s: Store, s': Store)
  {
    forall v: Uuid :: DirOf(s', v).written == DirOf(s, v).written
  }

  lemma RollSlotWrites(s: Store, i: nat)
    requires Inv(s) && i < |s.slots| && s.slots[i].InUse?
    ensures SameWritten(s, RollSlot(s, i))
  {
    hide Roll, DirOk;
    var u := s.slots[i].uuid;
    assert SlotOk(s, s.slots[i]) && DirOk(DirOf(s, u));
    RollKeeps(DirOf(s, u), s.slots[i].fileIndex);
  }

  lemma {:induction false} UsableWrites(s: Store, u: Uuid, i: nat)
    requires Inv(s) && i <= |s.slots|
    ensures SameWritten(s, Usable(s, u, i).0)
    ensures HasRoom(Usable(s, u, i).0.slots, u) <==> HasRoom(s.slots, u)
    decreases |s.slots| - i
  {
    hide Inv, RollSlot;
    if i < |s.slots| {
      if !s.slots[i].InUse? || s.slots[i].uuid != u {
        UsableWrites(s, u, i + 1);
      } else if AtLimit(s.slots[i]) {
        RollSlotKeeps(s, i);
        RollSlots(s, i);
        RollSlotWrites(s, i);
        assert RollSlot(s, i).slots[i].NoFile? && HasRoom(RollSlot(s, i).slots, u);
        UsableWrites(RollSlot(s, i), u, i + 1);
      }
    }
  }

  lemma RecordsSnoc(t: Text, p: Piece)
    ensures Records(t + [p]) == Records(t) + if p.Record? then [p] else []
  {
    assert (t + [p])[..|t|] == t;
  }

  lemma OpenNewWrites(s: Store, u: Uuid)
    requires NoSlotOf(s.slots, u)
    ensures var (s', i) := OpenNew(s, u);
            && (i < |s.slots| <==> HasRoom(s.slots, u))
            && Records(DirOf(s', u).written) == Records(DirOf(s, u).written)
            && forall v: Uuid :: v != u ==> DirOf(s', v).written == DirOf(s, v).written
  {
    hide Records, OpenLen, FileIndex;
    RecordsSnoc(DirOf(s, u).written, Banner);
  }

  lemma AddWrites(s: Store, i: nat, p: Piece)
    requires Inv(s) && i < |s.slots| && s.slots[i].InUse?
    ensures var u := s.slots[i].uuid;
            && DirOf(AddPiece(s, i, p), u).written == DirOf(s, u).written + [p]
            && forall v: Uuid :: v != u ==> DirOf(AddPiece(s, i, p), v).written == DirOf(s, v).written
  {
    assert SlotOk(s, s.slots[i]);
  }

  /** One write adds the record to its source, or nothing when the table has no place,
      and leaves every other source alone. */
  lemma WriteWrites(s: Store, u: Uuid, p: Piece)
    requires Inv(s) && p.Record?
    ensures var s' := WriteStep(s, u, p);
            && Records(DirOf(s', u).written) ==
               Records(DirOf(s, u).written) + (if HasRoom(s.slots, u) then [p] else [])
            && forall v: Uuid :: v != u ==> DirOf(s', v).written == DirOf(s, v).written
  {
    hide Inv, Usable, OpenNew, AddPiece, Records, HasRoom;
    UsableKeeps(s, u, 0);
    UsableWrites(s, u, 0);
    var (s1, i) := Usable(s, u, 0);
    if i == |s.slots| {
      OpenNewKeeps(s1, u);
      OpenNewWrites(s1, u);
    } else {
      RoomAt(s1.slots, i, u);
    }
    var (s2, j) := GetFile(s, u);
    if j < |s.slots| {
      AddWrites(s2, j, p);
      RecordsSnoc(DirOf(s2, u).written, p);
    }
  }

  lemma RoomAt(slots: seq<Slot>, i: nat, u: Uuid)
    requires i < |slots| && slots[i].InUse? && slots[i].uuid == u
    ensures HasRoom(slots, u)
  {
  }

  lemma {:induction false} CloseWrites(s: Store, i: nat)
    requires Inv(s) && i <= |s.slots|
    ensures SameWritten(s, CloseFrom(s, i))
    decreases |s.slots| - i
  {
    hide Inv, RollSlot;
    if i < |s.slots| {
      if AtLimit(s.slots[i]) {
        RollSlotKeeps(s, i);
        RollSlots(s, i);
        RollSlotWrites(s, i);
        CloseWrites(RollSlot(s, i), i + 1);
      } else {
        DropSlotKeeps(s, i);
        CloseWrites(SetSlot(s, i, NoFile), i + 1);
      }
    }
  }

  /** The records handed in for a source while the table had a place for it. */
  function Saved(banner: nat, es: seq<Event>, u: Uuid): Text
  {
    if es == [] then []
    else
      var prev, e := es[..|es| - 1], es[|es| - 1];
      Saved(banner, prev, u) +
      if e.Write? && e.uuid == u && HasRoom(Exec(banner, prev).slots, u) then [Record(e.len, e.id)] else []
  }

  function Handed(es: seq<Event>, u: Uuid): Text
  {
    if es == [] then []
    else
      var e := es[|es| - 1];
      Handed(es[..|es| - 1], u) + if e.Write? && e.uuid == u then [Record(e.len, e.id)] else []
  }

  predicate AlwaysRoom(banner: nat, es: seq<Event>, u: Uuid)
  {
    es == [] ||
    var prev, e := es[..|es| - 1], es[|es| - 1];
    AlwaysRoom(banner, prev, u) && (e.Write? && e.uuid == u ==> HasRoom(Exec(banner, prev).slots, u))
  }

  lemma {:induction false} WrittenIsSaved(banner: nat, es: seq<Event>, u: Uuid)
    ensures Records(DirOf(Exec(banner, es), u).written) == Saved(banner, es, u)
  {
    hide Apply, WriteStep, HasRoom;
    if es != [] {
      var prev, e := es[..|es| - 1], es[|es| - 1];
      var s := Exec(banner, prev);
      WrittenIsSaved(banner, prev, u);
      RunInv(banner, prev);
      ApplyWrites(s, e, u);
    }
  }

  lemma ApplyWrites(s: Store, e: Event, u: Uuid)
    requires Inv(s)
    ensures Records(DirOf(Apply(s, e), u).written) ==
            Records(DirOf(s, u).written)
            + if e.Write? && e.uuid == u && HasRoom(s.slots, u) then [Record(e.len, e.id)] else []
  {
    hide Inv, WriteStep, CloseFrom, Records, HasRoom;
    match e
    case Write(v, len, id) => WriteWrites(s, v, Record(len, id));
    case Close => CloseWrites(s, 0);
    case Restart =>
  }

  /** Conservation: the archives ever made, in order, followed by the log files from
      number 1 up and then number 0, hold exactly the records that found a place, in
      the order in which they came. */
  lemma RecordsConserved(banner: nat, es: seq<Event>, u: Uuid)
    ensures var d := DirOf(Exec(banner, es), u);
            Records(AllInOrder(d.packed) + InOrder(d.logs)) == Saved(banner, es, u)
  {
    RunInv(banner, es);
    assert DirOk(DirOf(Exec(banner, es), u));
    WrittenIsSaved(banner, es, u);
  }

  lemma {:induction false} SavedIsHanded(banner: nat, es: seq<Event>, u: Uuid)
    ensures |Saved(banner, es, u)| <= |Handed(es, u)|
    ensures Saved(banner, es, u) == Handed(es, u) <==> AlwaysRoom(banner, es, u)
    ensures |Saved(banner, es, u)| == |Handed(es, u)| ==> AlwaysRoom(banner, es, u)
  {
    hide HasRoom, Exec;
    if es != [] {
      var e, prev := es[|es| - 1], es[..|es| - 1];
      SavedIsHanded(banner, prev, u);
    }
  }

  lemma {:induction false} RecordsOfBoth(a: Text, b: Text)
    ensures Records(a + b) == Records(a) + Records(b)
  {
    if b == [] {
      assert a + b == a;
    } else {
      assert (a + b)[..|a + b| - 1] == a + b[..|b| - 1];
      RecordsOfBoth(a, b[..|b| - 1]);
    }
  }

  lemma {:induction false} ArchivesOfBoth(a: seq<Files>, b: seq<Files>)
    ensures AllInOrder(a + b) == AllInOrder(a) + AllInOrder(b)
  {
    hide InOrder;
    if b == [] {
      assert a + b == a;
    } else {
      assert (a + b)[..|a + b| - 1] == a + b[..|b| - 1];
      ArchivesOfBoth(a, b[..|b| - 1]);
    }
  }

  /** The archives on disk, from number `i` on. */
  function ArchivesFrom(archives: map<nat, Files>, i: nat): seq<Files>
    requires i <= 4
    decreases 4 - i
  {
    if i == 4 then [] else (if i in archives then [archives[i]] else []) + ArchivesFrom(archives, i + 1)
  }

  /** What can still be read from the disk: archives 0 to 3, then the log files in order. */
  function OnDisk(d: Dir): Text { Records(AllInOrder(ArchivesFrom(d.archives, 0)) + InOrder(d.logs)) }

  /** The records in archives that the shift has deleted: all but the last four. */
  function Deleted(d: Dir): Text { Records(AllInOrder(d.packed[..|d.packed| - Window(|d.packed|)])) }

  lemma {:induction false} ArchivesAreLast(archives: map<nat, Files>, packed: seq<Files>, i: nat)
    requires ArchivesOk(archives, packed) && i <= Window(|packed|)
    ensures ArchivesFrom(archives, i) == packed[|packed| - Window(|packed|) + i..]
    decreases 4 - i
  {
    if i < Window(|packed|) {
      var k := |packed| - Window(|packed|) + i;
      ArchivesAreLast(archives, packed, i + 1);
      assert packed[k..] == [packed[k]] + packed[k + 1..];
    } else {
      NoneFrom(archives, i);
    }
  }

  lemma {:induction false} NoneFrom(archives: map<nat, Files>, i: nat)
    requires i <= 4 && forall j: nat :: i <= j ==> j !in archives
    ensures ArchivesFrom(archives, i) == []
    decreases 4 - i
  {
    if i < 4 {
      NoneFrom(archives, i + 1);
    }
  }

  /** What was deleted, followed by what is on disk, is every record that found a place,
      in the order in which they came. */
  lemma DiskConserved(banner: nat, es: seq<Event>, u: Uuid)
    ensures var d := DirOf(Exec(banner, es), u); Deleted(d) + OnDisk(d) == Saved(banner, es, u)
  {
    hide Exec, Records, InOrder, AllInOrder, Saved, ArchivesFrom;
    var d := DirOf(Exec(banner, es), u);
    RunInv(banner, es);
    assert DirOk(d);
    RecordsConserved(banner, es, u);
    var k := |d.packed| - Window(|d.packed|);
    ArchivesAreLast(d.archives, d.packed, 0);
    assert d.packed == d.packed[..k] + d.packed[k..];
    ArchivesOfBoth(d.packed[..k], d.packed[k..]);
    var gone, kept, now := AllInOrder(d.packed[..k]), AllInOrder(d.packed[k..]), InOrder(d.logs);
    assert gone + kept + now == gone + (kept + now);
    RecordsOfBoth(gone, kept + now);
  }

  // A file that is rolled holds a record, so every archive does.

  /** Only the first piece of a file can be a banner. */
  predicate OneBanner(t: Text) { forall j :: 0 < j < |t| ==> t[j].Record? }

  predicate Rich(d: Dir)
  {
    OneBanner(Get(d.logs, 0)) && forall j :: 0 <= j < |d.packed| ==> Records(InOrder(d.packed[j])) != []
  }

  ghost predicate AllRich(s: Store) { forall u: Uuid :: Rich(DirOf(s, u)) }

  lemma LongHasRecord(t: Text, banner: nat)
    requires OneBanner(t) && Len(t, banner) > banner
    ensures Records(t) != []
  {
  }

  lemma RecordsOfFour(a: Text, b: Text, c: Text, d: Text)
    requires Records(d) != []
    ensures Records(a + b + c + d) != []
  {
    hide Records;
    RecordsOfBoth(a + b + c, d);
  }

  lemma RollRich(d: Dir, k: nat, banner: nat)
    requires Rich(d) && 0 in d.logs && banner < 512000 <= Len(d.logs[0], banner) && k == FileIndex(d) <= 3
    ensures Rich(Roll(d, k))
  {
    hide Records, Len, FreeArchive, Arrange, OneBanner, IndexFrom;
    LongHasRecord(d.logs[0], banner);
    NoPieces();
    var f := Numbered(d.logs);
    RecordsOfFour(Get(f, 1), Get(f, 2), Get(f, 3), Get(f, 0));
  }

  lemma NoPieces()
    ensures OneBanner([])
  {
  }

  lemma RollSlotRich(s: Store, i: nat)
    requires Inv(s) && AllRich(s) && s.banner < 512000 && i < |s.slots| && AtLimit(s.slots[i])
    ensures AllRich(RollSlot(s, i))
  {
    hide Roll, Rich, DirOk, Len, IndexFrom;
    var s', u, k := RollSlot(s, i), s.slots[i].uuid, s.slots[i].fileIndex;
    assert SlotOk(s, s.slots[i]);
    RollRich(DirOf(s, u), k, s.banner);
    forall v: Uuid
      ensures Rich(DirOf(s', v))
    {
      assert Rich(DirOf(s, v));
    }
  }

  lemma {:induction false} UsableRich(s: Store, u: Uuid, i: nat)
    requires Inv(s) && AllRich(s) && s.banner < 512000 && i <= |s.slots|
    ensures AllRich(Usable(s, u, i).0)
    decreases |s.slots| - i
  {
    hide Inv, RollSlot, AllRich;
    if i < |s.slots| {
      if !s.slots[i].InUse? || s.slots[i].uuid != u {
        UsableRich(s, u, i + 1);
      } else if AtLimit(s.slots[i]) {
        RollSlotKeeps(s, i);
        RollSlots(s, i);
        RollSlotRich(s, i);
        UsableRich(RollSlot(s, i), u, i + 1);
      }
    }
  }

  lemma {:induction false} CloseRich(s: Store, i: nat)
    requires Inv(s) && AllRich(s) && s.banner < 512000 && i <= |s.slots|
    ensures AllRich(CloseFrom(s, i))
    decreases |s.slots| - i
  {
    hide Inv, RollSlot, SetSlot, AllRich;
    if i < |s.slots| {
      if AtLimit(s.slots[i]) {
        RollSlotKeeps(s, i);
        RollSlots(s, i);
        RollSlotRich(s, i);
        CloseRich(RollSlot(s, i), i + 1);
      } else {
        DropSlotKeeps(s, i);
        DropSlots(s, i);
        SameDirsRich(s, SetSlot(s, i, NoFile));
        CloseRich(SetSlot(s, i, NoFile), i + 1);
      }
    }
  }

  lemma SameDirsRich(s: Store, s': Store)
    requires AllRich(s) && s'.dirs == s.dirs
    ensures AllRich(s')
  {
    hide Rich;
    forall u: Uuid
      ensures Rich(DirOf(s', u))
    {
      assert Rich(DirOf(s, u));
    }
  }

  lemma OpenRich(d: Dir)
    requires Rich(d)
    ensures Rich(Open(d))
  {
    hide Records, InOrder;
  }

  lemma AppendRich(d: Dir, p: Piece)
    requires Rich(d) && 0 in d.logs && p.Record?
    ensures Rich(Append(d, p))
  {
    hide Records, InOrder;
  }

  lemma OpenNewRich(s: Store, u: Uuid)
    requires AllRich(s)
    ensures AllRich(OpenNew(s, u).0)
  {
    hide Rich, Open, OpenLen, FileIndex;
    assert Rich(DirOf(s, u));
    OpenRich(DirOf(s, u));
    forall v: Uuid
      ensures Rich(DirOf(OpenNew(s, u).0, v))
    {
      assert Rich(DirOf(s, v));
    }
  }

  lemma AddRich(s: Store, i: nat, p: Piece)
    requires AllRich(s) && i < |s.slots| && s.slots[i].InUse? && p.Record?
    ensures AllRich(AddPiece(s, i, p))
  {
    hide Rich, Append;
    var u := s.slots[i].uuid;
    assert Rich(DirOf(s, u));
    if 0 in DirOf(s, u).logs {
      AppendRich(DirOf(s, u), p);
    }
    forall v: Uuid
      ensures Rich(DirOf(AddPiece(s, i, p), v))
    {
      assert Rich(DirOf(s, v));
    }
  }

  lemma ApplyRich(s: Store, e: Event)
    requires Inv(s) && AllRich(s) && s.banner < 512000
    ensures AllRich(Apply(s, e)) && Apply(s, e).banner == s.banner
  {
    hide Inv, AllRich, Usable, OpenNew, AddPiece, CloseFrom;
    match e
    case Write(u, len, id) =>
      UsableRich(s, u, 0);
      UsableKeeps(s, u, 0);
      OpenNewRich(Usable(s, u, 0).0, u);
      var (s2, j) := GetFile(s, u);
      if j < |s.slots| {
        AddRich(s2, j, Record(len, id));
        AddBanner(s2, j, Record(len, id));
      }
    case Close =>
      CloseRich(s, 0);
      CloseBanner(s, 0);
    case Restart => SameDirsRich(s, s.(slots := NoFiles(|s.slots|)));
  }

  lemma AddBanner(s: Store, i: nat, p: Piece)
    requires i < |s.slots| && s.slots[i].InUse?
    ensures AddPiece(s, i, p).banner == s.banner
  {
  }

  lemma {:induction false} RunRich(banner: nat, es: seq<Event>)
    requires banner < 512000
    ensures AllRich(Exec(banner, es)) && Exec(banner, es).banner == banner
  {
    hide Apply, Rich;
    if es == [] {
      NoDirRich();
    } else {
      RunRich(banner, es[..|es| - 1]);
      RunInv(banner, es[..|es| - 1]);
      ApplyRich(Exec(banner, es[..|es| - 1]), es[|es| - 1]);
    }
  }

  lemma NoDirRich()
    ensures Rich(NO_DIR)
  {
  }

  lemma DeletedRich(d: Dir)
    requires Rich(d)
    ensures Deleted(d) == [] <==> |d.packed| <= 4
  {
    hide Records, InOrder;
    if |d.packed| > 4 {
      var gone := d.packed[..|d.packed| - 4];
      var n := |gone| - 1;
      assert gone[n] == d.packed[n];
      RecordsOfBoth(AllInOrder(gone[..n]), InOrder(gone[n]));
    } else {
      assert d.packed[..0] == [];
      NoRecordsIn();
    }
  }

  lemma NoRecordsIn()
    ensures Records(AllInOrder([])) == []
  {
  }

  /** The disk still has every record handed in for a source, in order, exactly when each
      of its writes found a place in the table and there were at most four compressions:
      the fifth deletes the oldest archive. The version text has less than 256 bytes. */
  lemma NothingLost(banner: nat, es: seq<Event>, u: Uuid)
    requires banner < 256
    ensures var d := DirOf(Exec(banner, es), u);
            OnDisk(d) == Handed(es, u) <==> AlwaysRoom(banner, es, u) && |d.packed| <= 4
  {
    hide Exec, OnDisk, Deleted, Saved, Handed, AlwaysRoom, Rich;
    DiskConserved(banner, es, u);
    SavedIsHanded(banner, es, u);
    RunRich(banner, es);
    assert Rich(DirOf(Exec(banner, es), u));
    DeletedRich(DirOf(Exec(banner, es), u));
  }
}
