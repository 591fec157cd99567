/** The files of one log source: the numbered log files and the window of archives. */
module LogDirs {
  const LOG_FILE_INDEX_MAX: nat := 4

  /** What gets written: the version banner of a new file, or one record. */
  datatype Piece = Banner | Record(len: nat, id: nat)

  type Text = seq<Piece>

  /** An archive holds the log files that were there, under their numbers. */
  type Files = map<nat, Text>

  /** `written` and `packed` record the past: everything written, in order, and every
      archive ever made, in order. */
  datatype Dir = Dir(logs: Files, archives: map<nat, Files>, written: Text, packed: seq<Files>)

  const NO_DIR := Dir(map[], map[], [], [])

  // Operations on names.

  /** rename(2): replaces the target; without a source it fails and changes nothing. */
  function Rename<T>(m: map<nat, T>, src: nat, dst: nat): map<nat, T>
    requires src != dst
  {
    if src in m then m[dst := m[src]] - {src} else m
  }

  /** GetFileIndex: the largest number in use from `i` down, and 0 if there is none. */
  function IndexFrom(logs: Files, i: nat): (k: nat)
    ensures k <= i
  {
    if i == 0 || i in logs then i else IndexFrom(logs, i - 1)
  }

  function FileIndex(d: Dir): nat { IndexFrom(d.logs, 3) }

  /** LogFileFull for a file opened when `k` was the last number. */
  function Full(d: Dir, k: nat): Dir
  {
    if k >= LOG_FILE_INDEX_MAX then d else d.(logs := Rename(d.logs, 0, k + 1))
  }

  /** GetCompressFile: the first free archive number, or 4. */
  function FreeArchive(archives: map<nat, Files>, i: nat): (r: nat)
    requires i <= 4
    ensures i <= r <= 4
    decreases 4 - i
  {
    if i == 4 || i !in archives then i else FreeArchive(archives, i + 1)
  }

  /** The renaming loop of ArrangeCompressFile, from `i` on. */
  function ShiftFrom(archives: map<nat, Files>, i: nat): map<nat, Files>
    requires 1 <= i <= 4
    decreases 4 - i
  {
    if i == 4 then archives else ShiftFrom(Rename(archives, i, i - 1), i + 1)
  }

  function Arrange(archives: map<nat, Files>): map<nat, Files> { ShiftFrom(archives - {0}, 1) }

  function Numbered(logs: Files): Files { map i | i in logs && i < 4 :: logs[i] }

  /** LogFilesCompress: all numbers go into one new archive. */
  function Compress(d: Dir): Dir
  {
    var r := FreeArchive(d.archives, 0);
    var base, name := if r == 4 then Arrange(d.archives) else d.archives, if r == 4 then 3 else r;
    d.(logs := d.logs - {0, 1, 2, 3}, archives := base[name := Numbered(d.logs)],
       packed := d.packed + [Numbered(d.logs)])
  }

  /** What LogFilesChecklimit and LogFilesClose do to a file that has reached the limit. */
  function Roll(d: Dir, k: nat): Dir { if k >= 3 then Compress(d) else Full(d, k) }

  /** LogFilesOpen on number 0. A new file starts with the banner. */
  function Open(d: Dir): Dir
  {
    if 0 in d.logs then d else d.(logs := d.logs[0 := [Banner]], written := d.written + [Banner])
  }

  function Append(d: Dir, p: Piece): Dir
    requires 0 in d.logs
  {
    d.(logs := d.logs[0 := d.logs[0] + [p]], written := d.written + [p])
  }

  // What must hold of a directory.

  function Get(logs: Files, i: nat): Text { if i in logs then logs[i] else [] }

  /** The order of writing: the filled files from 1 up, and last the current one. */
  function InOrder(logs: Files): Text { Get(logs, 1) + Get(logs, 2) + Get(logs, 3) + Get(logs, 0) }

  function AllInOrder(packed: seq<Files>): Text
  {
    if packed == [] then [] else AllInOrder(packed[..|packed| - 1]) + InOrder(packed[|packed| - 1])
  }

  /** The numbers in use are 1 up to some k below 4, and possibly 0. */
  predicate NoGaps(logs: Files)
  {
    (3 in logs ==> 2 in logs) && (2 in logs ==> 1 in logs) && forall i :: i in logs ==> i < 4
  }

  function Window(n: nat): nat { if n < 4 then n else 4 }

  /** The archives present hold the most recent compressions, oldest first. */
  ghost predicate ArchivesOk(archives: map<nat, Files>, packed: seq<Files>)
  {
    && (forall i: nat :: i in archives <==> i < Window(|packed|))
    && forall i: nat :: i < Window(|packed|) ==> archives[i] == packed[|packed| - Window(|packed|) + i]
  }

  ghost predicate DirOk(d: Dir)
  {
    && NoGaps(d.logs)
    && ArchivesOk(d.archives, d.packed)
    && d.written == AllInOrder(d.packed) + InOrder(d.logs)
  }

  lemma IndexCases(logs: Files)
    ensures IndexFrom(logs, 3) == if 3 in logs then 3 else if 2 in logs then 2 else if 1 in logs then 1 else 0
  {
    assert IndexFrom(logs, 1) == if 1 in logs then 1 else 0;
  }

  lemma IndexMeans(logs: Files)
    requires NoGaps(logs)
    ensures var k := IndexFrom(logs, 3);
            && (forall i: nat :: 0 < i ==> (i in logs <==> i <= k))
            && k + 1 !in logs
  {
    IndexCases(logs);
  }

  /** Renaming a full file never replaces another one. */
  lemma FullKeeps(d: Dir, k: nat)
    requires DirOk(d) && k == FileIndex(d) && k < 3 && 0 in d.logs
    ensures k + 1 !in d.logs
    ensures DirOk(Full(d, k)) && 0 !in Full(d, k).logs && FileIndex(Full(d, k)) == k + 1
  {
    IndexCases(d.logs);
    IndexCases(Full(d, k).logs);
    var logs' := Full(d, k).logs;
    assert InOrder(logs') == InOrder(d.logs);
  }

  lemma FirstFree(archives: map<nat, Files>, packed: seq<Files>, i: nat)
    requires ArchivesOk(archives, packed) && i <= Window(|packed|)
    ensures FreeArchive(archives, i) == Window(|packed|)
    decreases 4 - i
  {
  }

  /** From `i` on, every rename finds its source and a free target. */
  predicate ShiftSafe(archives: map<nat, Files>, i: nat)
    requires 1 <= i <= 4
    decreases 4 - i
  {
    i == 4 || (i in archives && i - 1 !in archives && ShiftSafe(Rename(archives, i, i - 1), i + 1))
  }

  /** Shifting down: the oldest goes, the others move by one, and no rename meets a
      name in use. */
  lemma Shifted(archives: map<nat, Files>)
    requires forall i: nat :: i in archives <==> i < 4
    ensures ShiftSafe(archives - {0}, 1)
    ensures Arrange(archives) == map[0 := archives[1], 1 := archives[2], 2 := archives[3]]
  {
    var a0 := archives - {0};
    var a1 := Rename(a0, 1, 0);
    var a2 := Rename(a1, 2, 1);
    var a3 := Rename(a2, 3, 2);
    assert a1 == map[0 := archives[1], 2 := archives[2], 3 := archives[3]];
    assert a2 == map[0 := archives[1], 1 := archives[2], 3 := archives[3]];
    assert a3 == map[0 := archives[1], 1 := archives[2], 2 := archives[3]];
    assert ShiftSafe(a3, 4) && ShiftSafe(a2, 3) && ShiftSafe(a1, 2);
    assert ShiftFrom(a3, 4) == a3;
    assert ShiftFrom(a2, 3) == a3;
    assert ShiftFrom(a1, 2) == a3;
  }

  lemma RoomLeft(archives: map<nat, Files>, packed: seq<Files>, made: Files)
    requires ArchivesOk(archives, packed) && |packed| < 4
    ensures ArchivesOk(archives[|packed| := made], packed + [made])
  {
  }

  lemma LastFour(packed: seq<Files>, archives: map<nat, Files>)
    requires |packed| >= 4 && forall i: nat :: i in archives <==> i < 4
    requires archives[0] == packed[|packed| - 4] && archives[1] == packed[|packed| - 3]
    requires archives[2] == packed[|packed| - 2] && archives[3] == packed[|packed| - 1]
    ensures ArchivesOk(archives, packed)
  {
  }

  lemma FourArchives(archives: map<nat, Files>, packed: seq<Files>)
    requires ArchivesOk(archives, packed) && |packed| >= 4
    ensures forall i: nat :: i in archives <==> i < 4
    ensures archives[1] == packed[|packed| - 3] && archives[2] == packed[|packed| - 2]
    ensures archives[3] == packed[|packed| - 1]
  {
  }

  lemma NoRoomLeft(archives: map<nat, Files>, packed: seq<Files>, made: Files)
    requires ArchivesOk(archives, packed) && |packed| >= 4
    ensures ArchivesOk(Arrange(archives)[3 := made], packed + [made])
  {
    hide Arrange, ArchivesOk;
    FourArchives(archives, packed);
    Shifted(archives);
    var n, next := |packed|, packed + [made];
    assert next[n - 3] == packed[n - 3] && next[n - 2] == packed[n - 2] && next[n - 1] == packed[n - 1];
    LastFour(next, Arrange(archives)[3 := made]);
  }

  lemma CompressArchives(d: Dir)
    requires ArchivesOk(d.archives, d.packed)
    ensures ArchivesOk(Compress(d).archives, Compress(d).packed)
  {
    hide Arrange, FreeArchive, Numbered, ArchivesOk;
    FirstFree(d.archives, d.packed, 0);
    if |d.packed| >= 4 {
      NoRoomLeft(d.archives, d.packed, Numbered(d.logs));
    } else {
      RoomLeft(d.archives, d.packed, Numbered(d.logs));
    }
  }

  lemma CompressKeeps(d: Dir)
    requires DirOk(d)
    ensures DirOk(Compress(d)) && Compress(d).logs == map[]
    ensures FileIndex(d) == 3 && 0 in d.logs ==> Numbered(d.logs).Keys == {0, 1, 2, 3}
  {
    hide Arrange, FreeArchive, ArchivesOk;
    CompressArchives(d);
    assert Compress(d).logs == map[];
    assert Numbered(d.logs) == d.logs;
    assert Compress(d).packed[..|d.packed|] == d.packed;
  }

  lemma OpenKeeps(d: Dir)
    requires DirOk(d)
    ensures DirOk(Open(d)) && 0 in Open(d).logs && FileIndex(Open(d)) == FileIndex(d)
  {
    hide ArchivesOk, AllInOrder;
    IndexCases(d.logs);
    IndexCases(Open(d).logs);
    assert InOrder(Open(d).logs) == InOrder(d.logs) + (if 0 in d.logs then [] else [Banner]);
  }

  lemma AppendKeeps(d: Dir, p: Piece)
    requires DirOk(d) && 0 in d.logs
    ensures DirOk(Append(d, p)) && FileIndex(Append(d, p)) == FileIndex(d)
  {
    hide ArchivesOk, AllInOrder;
    IndexCases(d.logs);
    IndexCases(Append(d, p).logs);
    assert InOrder(Append(d, p).logs) == InOrder(d.logs) + [p];
  }
}
