/** The log collector: a table of open files over the directories of all sources. */
module LogStore {
  import opened LogDirs

  const LOG_FILES_MAX: nat := 128
  const LOG_FILE_LIMIT: nat := 512000

  type Uuid = nat

  datatype Slot = NoFile | InUse(uuid: Uuid, fileLen: nat, fileIndex: nat)

  /** `banner` is the length of the version text. */
  datatype Store = Store(banner: nat, slots: seq<Slot>, dirs: map<Uuid, Dir>)

  datatype Event = Write(uuid: Uuid, len: nat, id: nat) | Close | Restart

  function DirOf(s: Store, u: Uuid): Dir { if u in s.dirs then s.dirs[u] else NO_DIR }

  function PieceLen(p: Piece, banner: nat): nat { if p.Banner? then banner else p.len }

  function Len(t: Text, banner: nat): nat
  {
    if t == [] then 0 else Len(t[..|t| - 1], banner) + PieceLen(t[|t| - 1], banner)
  }

  function CurrentLen(s: Store, u: Uuid): nat { Len(Get(DirOf(s, u).logs, 0), s.banner) }

  // The operations.

  /** LogFilesChecklimit once the limit is reached: the slot becomes free. */
  function RollSlot(s: Store, i: nat): Store
    requires i < |s.slots| && s.slots[i].InUse?
  {
    var slot := s.slots[i];
    s.(slots := s.slots[i := NoFile], dirs := s.dirs[slot.uuid := Roll(DirOf(s, slot.uuid), slot.fileIndex)])
  }

  predicate AtLimit(slot: Slot) { slot.InUse? && slot.fileLen >= LOG_FILE_LIMIT }

  /** GetUsableFile from slot `i` on; the place is the table size if there is none. */
  function Usable(s: Store, u: Uuid, i: nat): (r: (Store, nat))
    requires i <= |s.slots|
    ensures |r.0.slots| == |s.slots| && i <= r.1 <= |s.slots| && r.0.banner == s.banner
    ensures r.1 < |s.slots| ==> r.0.slots[r.1].InUse? && r.0.slots[r.1].uuid == u
    decreases |s.slots| - i
  {
    if i == |s.slots| then (s, i)
    else if !s.slots[i].InUse? || s.slots[i].uuid != u then Usable(s, u, i + 1)
    else if AtLimit(s.slots[i]) then Usable(RollSlot(s, i), u, i + 1)
    else (s, i)
  }

  /** LogFilesAdd: the first free place, or the table size. */
  function FreeSlot(slots: seq<Slot>, i: nat): (r: nat)
    requires i <= |slots|
    ensures i <= r <= |slots| && (r < |slots| ==> slots[r].NoFile?)
    ensures forall j :: i <= j < r ==> !slots[j].NoFile?
    decreases |slots| - i
  {
    if i == |slots| || slots[i].NoFile? then i else FreeSlot(slots, i + 1)
  }

  function SetDir(s: Store, u: Uuid, d: Dir): Store { s.(dirs := s.dirs[u := d]) }

  function SetSlot(s: Store, i: nat, slot: Slot): Store
    requires i < |s.slots|
  {
    s.(slots := s.slots[i := slot])
  }

  /** The length a file is opened with: a banner just written is not in it. */
  function OpenLen(d: Dir, banner: nat): nat { Len(Get(d.logs, 0), banner) }

  /** The rest of LogFilesGet, when no open file can be used. */
  function OpenNew(s: Store, u: Uuid): (r: (Store, nat))
    ensures |r.0.slots| == |s.slots| && r.1 <= |s.slots| && r.0.banner == s.banner
    ensures r.1 < |s.slots| ==> r.0.slots[r.1].InUse? && r.0.slots[r.1].uuid == u && 0 in DirOf(r.0, u).logs
  {
    var d, i := DirOf(s, u), FreeSlot(s.slots, 0);
    var s' := SetDir(s, u, Open(d));
    (if i == |s.slots| then s' else SetSlot(s', i, InUse(u, OpenLen(d, s.banner), FileIndex(d))), i)
  }

  function GetFile(s: Store, u: Uuid): (r: (Store, nat))
    ensures |r.0.slots| == |s.slots| && r.1 <= |s.slots| && r.0.banner == s.banner
    ensures r.1 < |s.slots| ==> r.0.slots[r.1].InUse? && r.0.slots[r.1].uuid == u
  {
    var (s', i) := Usable(s, u, 0);
    if i < |s.slots| then (s', i) else OpenNew(s', u)
  }

  function AddPiece(s: Store, i: nat, p: Piece): Store
    requires i < |s.slots| && s.slots[i].InUse?
  {
    var slot := s.slots[i];
    var d := DirOf(s, slot.uuid);
    if 0 !in d.logs then s
    else SetSlot(SetDir(s, slot.uuid, Append(d, p)), i, slot.(fileLen := slot.fileLen + PieceLen(p, s.banner)))
  }

  /** WritePrivateLogFile. */
  function WriteStep(s: Store, u: Uuid, p: Piece): Store
  {
    var (s', i) := GetFile(s, u);
    if i < |s.slots| then AddPiece(s', i, p) else s'
  }

  /** LogFilesClose from slot `i` on. */
  function CloseFrom(s: Store, i: nat): (s': Store)
    requires i <= |s.slots|
    ensures |s'.slots| == |s.slots|
    decreases |s.slots| - i
  {
    if i == |s.slots| then s
    else if AtLimit(s.slots[i]) then CloseFrom(RollSlot(s, i), i + 1)
    else CloseFrom(SetSlot(s, i, NoFile), i + 1)
  }

  function NoFiles(n: nat): (slots: seq<Slot>)
    ensures |slots| == n && forall i :: 0 <= i < n ==> slots[i].NoFile?
  {
    seq(n, i => NoFile)
  }

  /** A restart forgets the table and leaves the files. */
  function Apply(s: Store, e: Event): (s': Store)
    ensures |s'.slots| == |s.slots|
  {
    match e
    case Write(u, len, id) => WriteStep(s, u, Record(len, id))
    case Close => CloseFrom(s, 0)
    case Restart => s.(slots := NoFiles(|s.slots|))
  }

  function Exec(banner: nat, es: seq<Event>): (s: Store)
    ensures |s.slots| == LOG_FILES_MAX
  {
    if es == [] then Store(banner, NoFiles(LOG_FILES_MAX), map[])
    else Apply(Exec(banner, es[..|es| - 1]), es[|es| - 1])
  }

  lemma {:induction false} CloseBanner(s: Store, i: nat)
    requires i <= |s.slots|
    ensures CloseFrom(s, i).banner == s.banner
    decreases |s.slots| - i
  {
    if i < |s.slots| {
      CloseBanner(if AtLimit(s.slots[i]) then RollSlot(s, i) else SetSlot(s, i, NoFile), i + 1);
    }
  }

  /** A close frees every place of the table. */
  lemma {:induction false} CloseEmpties(s: Store, i: nat, j: nat)
    requires i <= |s.slots| && j < |s.slots|
    ensures CloseFrom(s, i).slots[j] == if j < i then s.slots[j] else NoFile
    decreases |s.slots| - i
  {
    if i < |s.slots| {
      CloseEmpties(if AtLimit(s.slots[i]) then RollSlot(s, i) else SetSlot(s, i, NoFile), i + 1, j);
    }
  }

  // The invariant.

  /** An open file is number 0 of its source, and its slot knows the last number. */
  ghost predicate SlotOk(s: Store, slot: Slot)
  {
    slot.InUse? ==>
      var d := DirOf(s, slot.uuid);
      && 0 in d.logs && slot.fileIndex == FileIndex(d)
      && slot.fileLen <= CurrentLen(s, slot.uuid) <= slot.fileLen + s.banner
  }

  ghost predicate OnePerUuid(slots: seq<Slot>)
  {
    forall i, j :: 0 <= i < j < |slots| && slots[i].InUse? && slots[j].InUse? ==> slots[i].uuid != slots[j].uuid
  }

  ghost predicate Inv(s: Store)
  {
    && OnePerUuid(s.slots)
    && (forall i :: 0 <= i < |s.slots| ==> SlotOk(s, s.slots[i]))
    && (forall u: Uuid :: DirOk(DirOf(s, u)))
  }

  /** Rolling a file that its slot describes. */
  lemma RollKeeps(d: Dir, k: nat)
    requires DirOk(d) && 0 in d.logs && k == FileIndex(d)
    ensures DirOk(Roll(d, k)) && 0 !in Roll(d, k).logs && Roll(d, k).written == d.written
  {
    hide Compress, Full, DirOk;
    if k >= 3 {
      CompressKeeps(d);
      CompressWrites(d);
    } else {
      FullKeeps(d, k);
      FullWrites(d, k);
    }
  }

  lemma CompressWrites(d: Dir)
    ensures Compress(d).written == d.written
  {
  }

  lemma FullWrites(d: Dir, k: nat)
    ensures Full(d, k).written == d.written
  {
  }

  lemma RollSlotKeeps(s: Store, i: nat)
    requires Inv(s) && i < |s.slots| && s.slots[i].InUse?
    ensures Inv(RollSlot(s, i))
  {
    hide Roll, DirOk, FileIndex, Len;
    var s', slot := RollSlot(s, i), s.slots[i];
    assert SlotOk(s, slot);
    RollKeeps(DirOf(s, slot.uuid), slot.fileIndex);
    forall j | 0 <= j < |s'.slots|
      ensures SlotOk(s', s'.slots[j])
    {
      if j != i {
        assert SlotOk(s, s.slots[j]);
      }
    }
    forall u: Uuid
      ensures DirOk(DirOf(s', u))
    {
      assert DirOk(DirOf(s, u));
    }
  }

  lemma DropSlotKeeps(s: Store, i: nat)
    requires Inv(s) && i < |s.slots|
    ensures Inv(SetSlot(s, i, NoFile))
  {
    hide DirOk, FileIndex, Len;
    var s' := SetSlot(s, i, NoFile);
    forall j | 0 <= j < |s'.slots|
      ensures SlotOk(s', s'.slots[j])
    {
      assert SlotOk(s, s.slots[j]);
    }
    forall u: Uuid
      ensures DirOk(DirOf(s', u))
    {
      assert DirOk(DirOf(s, u));
    }
  }

  lemma {:induction false} UsableKeeps(s: Store, u: Uuid, i: nat)
    requires Inv(s) && i <= |s.slots|
    ensures Inv(Usable(s, u, i).0)
    ensures (forall j :: 0 <= j < i ==> !(s.slots[j].InUse? && s.slots[j].uuid == u)) &&
            Usable(s, u, i).1 == |s.slots| ==>
              var slots := Usable(s, u, i).0.slots;
              forall j :: 0 <= j < |s.slots| ==> !(slots[j].InUse? && slots[j].uuid == u)
    decreases |s.slots| - i
  {
    hide Inv, RollSlot;
    if i < |s.slots| {
      if !s.slots[i].InUse? || s.slots[i].uuid != u {
        UsableKeeps(s, u, i + 1);
      } else if AtLimit(s.slots[i]) {
        RollSlotKeeps(s, i);
        RollSlots(s, i);
        UsableKeeps(RollSlot(s, i), u, i + 1);
      }
    }
  }

  lemma RollSlots(s: Store, i: nat)
    requires i < |s.slots| && s.slots[i].InUse?
    ensures RollSlot(s, i).slots == s.slots[i := NoFile] && RollSlot(s, i).banner == s.banner
  {
  }

  predicate NoSlotOf(slots: seq<Slot>, u: Uuid)
  {
    forall j :: 0 <= j < |slots| ==> !(slots[j].InUse? && slots[j].uuid == u)
  }

  lemma OpenNewKeeps(s: Store, u: Uuid)
    requires Inv(s) && NoSlotOf(s.slots, u)
    ensures Inv(OpenNew(s, u).0)
  {
    hide DirOk, FileIndex, Open;
    var (s', i) := OpenNew(s, u);
    var d := DirOf(s, u);
    assert DirOk(d);
    OpenKeeps(d);
    OpenLength(d, s.banner);
    forall j | 0 <= j < |s'.slots|
      ensures SlotOk(s', s'.slots[j])
    {
      assert SlotOk(s, s.slots[j]);
    }
    forall v: Uuid
      ensures DirOk(DirOf(s', v))
    {
      assert DirOk(DirOf(s, v));
    }
  }

  /** Opening adds at most the banner, which the slot does not count. */
  lemma OpenLength(d: Dir, banner: nat)
    ensures OpenLen(d, banner) <= Len(Get(Open(d).logs, 0), banner) <= OpenLen(d, banner) + banner
  {
    assert [] + [Banner] == [Banner];
  }

  lemma AppendLength(d: Dir, p: Piece, banner: nat)
    requires 0 in d.logs
    ensures Len(Get(Append(d, p).logs, 0), banner) == Len(Get(d.logs, 0), banner) + PieceLen(p, banner)
  {
  }

  lemma AddKeeps(s: Store, i: nat, p: Piece)
    requires Inv(s) && i < |s.slots| && s.slots[i].InUse?
    ensures Inv(AddPiece(s, i, p))
  {
    hide DirOk, FileIndex, Append, Len;
    var s', u := AddPiece(s, i, p), s.slots[i].uuid;
    var d := DirOf(s, u);
    assert SlotOk(s, s.slots[i]) && DirOk(d);
    AppendKeeps(d, p);
    AppendLength(d, p, s.banner);
    assert 0 in Append(d, p).logs by {
      AppendStays(d, p);
    }
    forall j | 0 <= j < |s'.slots|
      ensures SlotOk(s', s'.slots[j])
    {
      assert SlotOk(s, s.slots[j]);
    }
    forall v: Uuid
      ensures DirOk(DirOf(s', v))
    {
      assert DirOk(DirOf(s, v));
    }
  }

  lemma AppendStays(d: Dir, p: Piece)
    requires 0 in d.logs
    ensures 0 in Append(d, p).logs
  {
  }

  lemma {:induction false} CloseKeeps(s: Store, i: nat)
    requires Inv(s) && i <= |s.slots|
    ensures Inv(CloseFrom(s, i))
    decreases |s.slots| - i
  {
    hide Inv, RollSlot, SetSlot;
    if i < |s.slots| {
      if AtLimit(s.slots[i]) {
        RollSlotKeeps(s, i);
        RollSlots(s, i);
        CloseKeeps(RollSlot(s, i), i + 1);
      } else {
        DropSlotKeeps(s, i);
        DropSlots(s, i);
        CloseKeeps(SetSlot(s, i, NoFile), i + 1);
      }
    }
  }

  lemma DropSlots(s: Store, i: nat)
    requires i < |s.slots|
    ensures SetSlot(s, i, NoFile).slots == s.slots[i := NoFile]
    ensures SetSlot(s, i, NoFile).banner == s.banner && SetSlot(s, i, NoFile).dirs == s.dirs
  {
  }

  lemma StepInv(s: Store, e: Event)
    requires Inv(s)
    ensures Inv(Apply(s, e))
  {
    hide Inv, Usable, OpenNew, AddPiece;
    match e
    case Write(u, len, id) =>
      UsableKeeps(s, u, 0);
      var (s1, i) := Usable(s, u, 0);
      if i == |s.slots| {
        OpenNewKeeps(s1, u);
      }
      var (s2, j) := GetFile(s, u);
      if j < |s.slots| {
        AddKeeps(s2, j, Record(len, id));
      }
    case Close => CloseKeeps(s, 0);
    case Restart => RestartKeeps(s);
  }

  /** A close rolls the files that are at the limit, which leaves their sources without a file
      to be appended to, and leaves the files of every other source alone. */
  lemma {:induction false} CloseRolls(s: Store, i: nat, u: Uuid)
    requires Inv(s) && i <= |s.slots|
    ensures forall j :: i <= j < |s.slots| && AtLimit(s.slots[j]) && s.slots[j].uuid == u ==>
              && DirOf(CloseFrom(s, i), u) == Roll(DirOf(s, u), s.slots[j].fileIndex)
              && 0 !in DirOf(CloseFrom(s, i), u).logs
    ensures (forall j :: i <= j < |s.slots| && AtLimit(s.slots[j]) ==> s.slots[j].uuid != u) ==>
              DirOf(CloseFrom(s, i), u) == DirOf(s, u)
    decreases |s.slots| - i
  {
    hide Inv, RollSlot, SetSlot, Roll;
    if i < |s.slots| {
      if AtLimit(s.slots[i]) {
        OthersDiffer(s, i);
        RollSlotKeeps(s, i);
        RollSlots(s, i);
        RollDirs(s, i, u);
        var s' := RollSlot(s, i);
        assert forall j :: i < j < |s.slots| ==> s'.slots[j] == s.slots[j];
        CloseRolls(s', i + 1, u);
      } else {
        DropSlotKeeps(s, i);
        DropSlots(s, i);
        var s' := SetSlot(s, i, NoFile);
        assert forall j :: i < j < |s.slots| ==> s'.slots[j] == s.slots[j];
        CloseRolls(s', i + 1, u);
      }
    }
  }

  lemma OthersDiffer(s: Store, i: nat)
    requires Inv(s) && i < |s.slots| && s.slots[i].InUse?
    ensures forall j :: i < j < |s.slots| && s.slots[j].InUse? ==> s.slots[j].uuid != s.slots[i].uuid
  {
  }

  lemma RollDirs(s: Store, i: nat, u: Uuid)
    requires Inv(s) && i < |s.slots| && s.slots[i].InUse?
    ensures DirOf(RollSlot(s, i), u) ==
            if u == s.slots[i].uuid then Roll(DirOf(s, u), s.slots[i].fileIndex) else DirOf(s, u)
    ensures 0 !in DirOf(RollSlot(s, i), s.slots[i].uuid).logs
  {
    var d := DirOf(s, s.slots[i].uuid);
    assert SlotOk(s, s.slots[i]) && DirOk(d);
    RollKeeps(d, s.slots[i].fileIndex);
  }

  lemma RestartKeeps(s: Store)
    requires Inv(s)
    ensures Inv(s.(slots := NoFiles(|s.slots|)))
  {
    hide DirOk;
    forall u: Uuid
      ensures DirOk(DirOf(s.(slots := NoFiles(|s.slots|)), u))
    {
      assert DirOk(DirOf(s, u));
    }
  }

  lemma {:induction false} RunInv(banner: nat, es: seq<Event>)
    ensures Inv(Exec(banner, es))
  {
    hide Apply;
    if es == [] {
      assert DirOk(NO_DIR);
    } else {
      RunInv(banner, es[..|es| - 1]);
      StepInv(Exec(banner, es[..|es| - 1]), es[|es| - 1]);
    }
  }
}
