/** The collector's own procedures over the table of open files and the disk. */
module LogCollector {
  import opened LogDirs
  import opened LogStore

  class Collector {
    const banner: nat
    const files: array<Slot>
    var dirs: map<Uuid, Dir>

    ghost function View(): Store
      reads this, files
    {
      Store(banner, files[..], dirs)
    }

    function Directory(u: Uuid): Dir
      reads this
    {
      if u in dirs then dirs[u] else NO_DIR
    }

    constructor (banner: nat)
      ensures View() == Exec(banner, []) && fresh(files)
    {
      this.banner, dirs := banner, map[];
      files := new Slot[LOG_FILES_MAX](i => NoFile);
      new;
      assert files[..] == NoFiles(LOG_FILES_MAX);
    }

    method GetFileIndex(u: Uuid) returns (fileIndex: nat)
      ensures fileIndex == FileIndex(Directory(u))
    {
      var logs := Directory(u).logs;
      fileIndex := 3;
      while fileIndex > 0 && fileIndex !in logs
        invariant fileIndex <= 3 && IndexFrom(logs, fileIndex) == IndexFrom(logs, 3)
      {
        fileIndex := fileIndex - 1;
      }
    }

    /** The file is full: it gets the next number. */
    method LogFileFull(i: nat)
      requires i < files.Length && files[i].InUse?
      modifies this`dirs
      ensures dirs == old(dirs)[files[i].uuid := Full(old(Directory(files[i].uuid)), files[i].fileIndex)]
    {
      var u, k := files[i].uuid, files[i].fileIndex;
      var d := Directory(u);
      if k < LOG_FILE_INDEX_MAX {
        d := d.(logs := Rename(d.logs, 0, k + 1));
      }
      dirs := dirs[u := d];
    }

    method GetCompressFile(archives: map<nat, Files>) returns (r: nat)
      ensures r == FreeArchive(archives, 0)
    {
      r := 0;
      while r < LOG_FILE_INDEX_MAX && r in archives
        invariant r <= 4 && FreeArchive(archives, r) == FreeArchive(archives, 0)
      {
        r := r + 1;
      }
    }

    /** The oldest archive goes and the others move down. */
    method ArrangeCompressFile(before: map<nat, Files>) returns (archives: map<nat, Files>)
      ensures archives == Arrange(before)
    {
      archives := before - {0};
      for i := 1 to LOG_FILE_INDEX_MAX
        invariant ShiftFrom(archives, i) == Arrange(before)
      {
        archives := Rename(archives, i, i - 1);
      }
    }

    /** Moving the numbered files to the temporary directory, from the last one down. */
    method MoveFilesToTmpPath(files: Files) returns (logs: Files, moved: Files)
      ensures logs == files - {0, 1, 2, 3} && moved == Numbered(files)
    {
      logs, moved := files, map[];
      var i := LOG_FILE_INDEX_MAX;
      while i > 0
        invariant i <= 4
        invariant forall j: nat :: j in moved <==> j in files && i <= j < 4
        invariant forall j: nat :: j in logs <==> j in files && !(i <= j < 4)
        invariant forall j <- moved :: moved[j] == files[j]
        invariant forall j <- logs :: logs[j] == files[j]
      {
        i := i - 1;
        if i in logs {
          moved := moved[i := logs[i]];
        }
        logs := logs - {i};
      }
    }

    method LogFilesCompress(u: Uuid)
      modifies this`dirs
      ensures dirs == old(dirs)[u := Compress(old(Directory(u)))]
    {
      hide FreeArchive, Arrange, Numbered;
      var d := Directory(u);
      var logs, moved := MoveFilesToTmpPath(d.logs);
      var archives := d.archives;
      var r := GetCompressFile(archives);
      if r == 4 {
        archives := ArrangeCompressFile(archives);
        r := 3;
      }
      dirs := dirs[u := Dir(logs, archives[r := moved], d.written, d.packed + [moved])];
    }

    method LogFilesChecklimit(i: nat) returns (ret: int)
      requires i < files.Length && files[i].InUse?
      modifies files, this`dirs
      ensures ret == if old(AtLimit(files[i])) then -1 else 0
      ensures View() == if ret == 0 then old(View()) else RollSlot(old(View()), i)
    {
      hide Compress, Full;
      if files[i].fileLen >= LOG_FILE_LIMIT {
        if files[i].fileIndex >= LOG_FILE_INDEX_MAX - 1 {
          LogFilesCompress(files[i].uuid);
        } else {
          LogFileFull(i);
        }
        files[i] := NoFile;
        return -1;
      }
      return 0;
    }

    method GetUsableFile(u: Uuid) returns (i: nat)
      modifies files, this`dirs
      ensures (View(), i) == Usable(old(View()), u, 0) && i <= files.Length
      ensures i < files.Length ==> files[i].InUse? && files[i].uuid == u
    {
      hide RollSlot;
      ghost var s := View();
      i := 0;
      while i < files.Length
        invariant i <= files.Length && Usable(View(), u, i) == Usable(s, u, 0)
      {
        if files[i].InUse? && files[i].uuid == u {
          var ret := LogFilesChecklimit(i);
          if ret == 0 {
            return;
          }
        }
        i := i + 1;
      }
    }

    method LogFilesAdd(u: Uuid, fileLen: nat, fileIndex: nat) returns (i: nat)
      modifies files
      ensures i == FreeSlot(old(files[..]), 0)
      ensures files[..] ==
              if i < files.Length then old(files[..])[i := InUse(u, fileLen, fileIndex)] else old(files[..])
    {
      i := 0;
      while i < files.Length && files[i].InUse?
        invariant i <= files.Length && FreeSlot(files[..], i) == FreeSlot(files[..], 0)
      {
        i := i + 1;
      }
      if i < files.Length {
        files[i] := InUse(u, fileLen, fileIndex);
      }
    }

    method LogFilesGet(u: Uuid) returns (i: nat)
      modifies files, this`dirs
      ensures (View(), i) == GetFile(old(View()), u)
    {
      hide Usable, Open, FileIndex, OpenLen, FreeSlot;
      i := GetUsableFile(u);
      if i < files.Length {
        return;
      }
      var d := Directory(u);
      var fileIndex := GetFileIndex(u);
      dirs := dirs[u := Open(d)];
      i := LogFilesAdd(u, OpenLen(d, banner), fileIndex);
    }

    /** A record for which the table has no place is not written. */
    method WritePrivateLogFile(u: Uuid, len: nat, id: nat)
      modifies files, this`dirs
      ensures View() == Apply(old(View()), Write(u, len, id))
    {
      hide GetFile, Append;
      ghost var s := View();
      var i := LogFilesGet(u);
      var p := Record(len, id);
      if i < files.Length {
        var slot := files[i];
        if 0 in Directory(slot.uuid).logs {
          dirs := dirs[slot.uuid := Append(Directory(slot.uuid), p)];
          files[i] := slot.(fileLen := slot.fileLen + len);
        }
      }
    }

    method LogFilesClose()
      modifies files, this`dirs
      ensures View() == Apply(old(View()), Close)
    {
      hide RollSlot;
      ghost var s := View();
      for i := 0 to files.Length
        invariant CloseFrom(View(), i) == CloseFrom(s, 0)
      {
        if files[i].InUse? {
          var ret := LogFilesChecklimit(i);
          if ret == 0 {
            files[i] := NoFile;
          }
        } else {
          assert files[..] == files[..][i := NoFile];
        }
      }
    }
  }
}
