/** Writing the archive: headers field by field, contents block by block. */
module TarWriter {
  import opened Bytes
  import opened Tar

  /** The compressed output, as the bytes that went into it. */
  class GzFile {
    var data: Text

    constructor ()
      ensures data == []
    {
      data := [];
    }

    method Write(buf: Text)
      modifies this
      ensures data == old(data) + buf
    {
      data := data + buf;
    }
  }

  /** Copies a field and adds up its chars. */
  method WriteOneUint(startIndex: nat, input: Text, output: array<byte>, signed: bool) returns (sum: int)
    requires startIndex + |input| <= output.Length
    modifies output
    ensures output[..] == Splice(old(output[..]), startIndex, input)
    ensures sum == CharSum(input, signed)
  {
    ghost var was := output[..];
    sum := 0;
    for i := 0 to |input|
      invariant sum == CharSum(input[..i], signed)
      invariant forall j :: 0 <= j < output.Length ==>
        output[j] == if startIndex <= j < startIndex + i then input[j - startIndex] else was[j]
    {
      output[startIndex + i] := input[i];
      var c: int := input[i];
      sum := sum + if signed && c >= 128 then c - 256 else c;
      assert input[..i + 1][..i] == input[..i];
    }
    assert input[..|input|] == input;
    assert output[..] == Splice(was, startIndex, input);
  }

  lemma HeaderSplices(n: Text, size: Text, check: Text)
    requires |n| < 100 && |size| == 12 && |check| == 8
    ensures var h1 := Splice(Zeros(512), 0, n);
            var h2 := Splice(Splice(h1, 100, FILE_MODE), 108, ID_BYTE);
            Splice(Splice(h2, 124, size), 148, check) ==
            n + Zeros(100 - |n|) + FILE_MODE + ID_BYTE + size + Zeros(12) + check + Zeros(356)
  {
    var h1 := Splice(Zeros(512), 0, n);
    assert h1 == n + Zeros(100 - |n|) + Zeros(412);
    var h2 := Splice(Splice(h1, 100, FILE_MODE), 108, ID_BYTE);
    assert h2 == n + Zeros(100 - |n|) + FILE_MODE + ID_BYTE + Zeros(388);
    var h3 := Splice(h2, 124, size);
    assert h3 == n + Zeros(100 - |n|) + FILE_MODE + ID_BYTE + size + Zeros(376);
  }

  lemma FieldsAre(name: Text, size: nat, signed: bool)
    ensures |Octal(size % 0x1_0000_0000)| < 12
    ensures SizeField(size) == Print(Zeros(12), size % 0x1_0000_0000)
    ensures HeaderSum(name, size, signed) ==
            CharSum(ShortName(name), signed) + CharSum(FILE_MODE, signed) + CharSum(ID_BYTE, signed)
            + CharSum(SizeField(size), signed) + 256
    ensures |Octal(HeaderSum(name, size, signed) % 0x1_0000_0000)| < 12
    ensures SumField(name, size, signed) == Print(SizeField(size), HeaderSum(name, size, signed) % 0x1_0000_0000)[..8]
  {
    hide Octal, CharSum, Print, ShortName;
    Fits32(size % 0x1_0000_0000);
    Fits32(HeaderSum(name, size, signed) % 0x1_0000_0000);
  }

  /** Nothing for an empty file, else field by field with a running sum. */
  method WriteHeader(header: array<byte>, fileName: Text, fileSize: nat, signed: bool)
    requires header.Length == 512 && header[..] == Zeros(512)
    modifies header
    ensures header[..] == Header(fileName, fileSize, signed)
  {
    hide Octal, CharSum, Splice, Print, ShortName, SizeField, SumField, HeaderSum;
    if fileSize == 0 {
      return;
    }
    var name := ShortName(fileName);
    var sumAppend := WriteOneUint(0, name, header, signed);
    var more := WriteOneUint(100, FILE_MODE, header, signed);
    sumAppend := sumAppend + more;
    more := WriteOneUint(108, ID_BYTE, header, signed);
    sumAppend := sumAppend + more;
    FieldsAre(fileName, fileSize, signed);
    var buf := Print(Zeros(12), fileSize % 0x1_0000_0000);
    more := WriteOneUint(124, buf, header, signed);
    sumAppend := sumAppend + more + 256;
    buf := Print(buf, sumAppend % 0x1_0000_0000);
    HeaderSplices(name, SizeField(fileSize), buf[..8]);
    Memcpy(header, 148, buf[..8]);
  }

  lemma NextBlock(c: Text, at: nat)
    requires at < |c| && at % 512 == 0
    ensures at + 512 <= |Padded(c)|
    ensures Padded(c)[at..at + 512] == Splice(Zeros(512), 0, c[at..Min(at + 512, |c|)])
    ensures Padded(c)[..at] + Padded(c)[at..at + 512] == Padded(c)[..at + 512]
  {
    hide Splice, Padded, Zeros;
    var p, part := Padded(c), c[at..Min(at + 512, |c|)];
    PaddedIs(c);
    WholeBlock(at, |p|);
    PartOfZeros(part);
    assert p[at..at + 512] == Splice(Zeros(512), 0, part);
    assert p[..at] + p[at..at + 512] == p[..at + 512];
  }

  lemma PaddedIs(c: Text)
    ensures |Padded(c)| % 512 == 0 && |Padded(c)| >= |c|
    ensures forall i :: 0 <= i < |Padded(c)| ==> Padded(c)[i] == if i < |c| then c[i] else 0
  {
    hide Blocks;
  }

  lemma WholeBlock(at: nat, len: nat)
    requires at % 512 == 0 && len % 512 == 0 && at < len
    ensures at + 512 <= len
  {
  }

  lemma PartOfZeros(part: Text)
    requires |part| <= 512
    ensures forall i :: 0 <= i < 512 ==> Splice(Zeros(512), 0, part)[i] == if i < |part| then part[i] else 0
  {
    hide Splice;
    var r := Splice(Zeros(512), 0, part);
    assert r[0..0 + |part|] == part;
    assert forall i :: 0 <= i < |part| ==> r[i] == r[0..0 + |part|][i];
  }

  /** One block at a time, the last one filled up with zeros. */
  method WriteZipContent(gz: GzFile, contents: Text)
    modifies gz
    ensures gz.data == old(gz.data) + Padded(contents)
  {
    hide Padded, Splice, Zeros, Blocks;
    if |contents| == 0 {
      PaddedEnd(contents, 0);
      return;
    }
    var temFileSize: int, read: nat := |contents|, 0;
    while temFileSize > 0
      invariant read % 512 == 0 && temFileSize == |contents| - read && (read > 0 ==> read - 512 < |contents|)
      invariant read <= |Padded(contents)| && gz.data == old(gz.data) + Padded(contents)[..read]
    {
      NextBlock(contents, read);
      var buf := Splice(Zeros(512), 0, contents[read..Min(read + 512, |contents|)]);
      gz.Write(buf);
      read := read + 512;
      temFileSize := temFileSize - 512;
    }
    PaddedEnd(contents, read);
  }

  lemma PaddedEnd(c: Text, at: nat)
    requires at % 512 == 0 && at >= |c| && (at > 0 ==> at - 512 < |c|)
    ensures |Padded(c)| == at && Padded(c)[..at] == Padded(c)
  {
  }

  /** Only a path that cannot be used is an error. `signed` says whether char is. */
  method WriteSingleFile(f: Source, gz: GzFile, signed: bool) returns (ret: int)
    modifies gz
    ensures ret == if f.Regular? && !PathOk(f.path) then -1 else 0
    ensures gz.data == old(gz.data)
                       + if f.Regular? && ret == 0 then Member(BaseName(f.path), f.contents, signed) else []
  {
    hide Header, Padded, Tail;
    if f.Missing? {
      return 0;
    }
    var s1 := Tail(f.path);
    if |s1| < 8 {
      return -1;
    }
    var header := new byte[512](i => 0);
    assert header[..] == Zeros(512);
    WriteHeader(header, s1[1..], |f.contents|, signed);
    gz.Write(header[..]);
    WriteZipContent(gz, f.contents);
    return 0;
  }

  lemma ArchiveStep(fs: seq<Source>, i: nat, signed: bool)
    requires i < |fs|
    ensures Archive(fs[i..], signed) ==
            if fs[i].Missing? then Archive(fs[i + 1..], signed)
            else if !PathOk(fs[i].path) then []
            else Member(BaseName(fs[i].path), fs[i].contents, signed) + Archive(fs[i + 1..], signed)
  {
    hide Member, PathOk, BaseName;
    assert fs[i..][0] == fs[i] && fs[i..][1..] == fs[i + 1..];
  }

  lemma ArchiveEnd(fs: seq<Source>, signed: bool)
    requires fs == []
    ensures Archive(fs, signed) == Zeros(512)
  {
  }

  method TarZipFiles(fs: seq<Source>, signed: bool) returns (gz: GzFile?)
    ensures gz != null <==> |fs| == 4
    ensures gz != null ==> fresh(gz) && gz.data == Archive(fs, signed)
  {
    hide Member, PathOk, Archive, BaseName, Zeros;
    if |fs| != 4 {
      return null;
    }
    gz := new GzFile();
    for i := 0 to |fs|
      invariant fresh(gz) && gz.data + Archive(fs[i..], signed) == Archive(fs, signed)
    {
      ArchiveStep(fs, i, signed);
      var ret := WriteSingleFile(fs[i], gz, signed);
      if ret != 0 {
        return;
      }
    }
    ArchiveEnd(fs[|fs|..], signed);
    gz.Write(Zeros(512));
  }
}
