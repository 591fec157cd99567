/** The agent's ring of open files, which has no sentinel. */
module OpenFiles {
  import opened Rings

  /** The stream kept with a ring node, and its descriptor. */
  datatype Stream = NoStream | Stream(fileno: int)

  type OpenedFile = Node<Stream>

  class OpenFileList {
    var firstFile: Node?<Stream>
    ghost var files: seq<OpenedFile>

    ghost predicate Valid()
      reads this, files
    {
      if firstFile == null then files == [] else Ring(files) && files[0] == firstFile
    }

    constructor ()
      ensures Valid() && files == []
    {
      firstFile, files := null, [];
    }

    /** `room` says whether malloc finds memory. A new file goes to the end. */
    method AddOpenFile(file: Stream, room: bool) returns (ret: int)
      requires Valid()
      modifies this, files
      ensures Valid() && ret == if room then 0 else -1
      ensures ret != 0 ==> files == old(files)
      ensures ret == 0 ==> exists f: OpenedFile :: fresh(f) && f.value == file && files == old(files) + [f]
    {
      if !room {
        return -1;
      }
      var newFile := new Node(file);
      if firstFile == null {
        firstFile := newFile;
        newFile.next := newFile;
        newFile.prev := newFile;
        files := [newFile];
        assert Linked(files, 0);
      } else {
        ghost var r, n := files, |files|;
        Neighbours(r, 0);
        Neighbours(r, n - 1);
        if firstFile.prev == null {
          return -1;
        }
        firstFile.prev.next := newFile;
        newFile.prev := firstFile.prev;
        newFile.next := firstFile;
        firstFile.prev := newFile;
        files := r + [newFile];
        forall i | 0 <= i < |files|
          ensures Linked(files, i)
        {
          if i < n - 1 {
            assert old(Linked(r, i));
          }
        }
      }
      return 0;
    }

    /** Taking a file out; when it is the first one, the next becomes the first. */
    method DelOpenFile(file: Node?<Stream>, ghost at: nat)
      requires Valid() && (file != null ==> at < |files| && files[at] == file)
      modifies this, files
      ensures Valid() && files == if file == null then old(files) else RemoveAt(old(files), at)
    {
      if file == null {
        return;
      }
      ghost var r := files;
      Neighbours(r, at);
      var next := file.next;
      if file == next {
        firstFile, files := null, [];
      } else {
        if file.next == null || file.prev == null {
          return;
        }
        if file == firstFile {
          firstFile := file.next;
        }
        next.prev := file.prev;
        file.prev.next := next;
        RemovedDistinct(r, at);
        files := RemoveAt(r, at);
        forall i | 0 <= i < |files|
          ensures Linked(files, i)
        {
          assert old(Linked(r, if i < at then i else i + 1)) && old(Linked(r, at));
        }
      }
    }

    /** One lap at most: the first file with this descriptor, or null. On an empty ring
        the caller's variable, here `file`, is left alone. */
    method FindOpenFile(fd: int, file: Node?<Stream>) returns (findFlag: int, file': Node?<Stream>, ghost at: nat)
      requires Valid()
      ensures findFlag ==
              if exists i :: 0 <= i < |files| && files[i].value.Stream? && files[i].value.fileno == fd then 1 else 0
      ensures findFlag == 1 ==> at < |files| && file' == files[at] && file'.value.Stream? && file'.value.fileno == fd
      ensures findFlag == 1 ==> forall j :: 0 <= j < at ==> !(files[j].value.Stream? && files[j].value.fileno == fd)
      ensures findFlag == 0 ==> file' == if files == [] then file else null
    {
      if firstFile == null {
        return 0, file, 0;
      }
      var p := firstFile;
      at := 0;
      while true
        invariant at < |files| && p == files[at]
        invariant forall j :: 0 <= j < at ==> !(files[j].value.Stream? && files[j].value.fileno == fd)
        decreases |files| - at
      {
        if p.value.Stream? && p.value.fileno == fd {
          return 1, p, at;
        }
        Neighbours(files, at);
        if p.next == firstFile || p.next == null {
          return 0, null, at;
        }
        p, at := p.next, at + 1;
      }
    }
  }
}
