/** The archive format: for every file a 512-byte header and its contents in 512-byte
    blocks, then one block of zeros. */
module Tar {
  import opened Bytes

  type Text = seq<byte>

  // Octal numbers.

  function Octal(n: nat): (s: Text)
    ensures |s| > 0
  {
    if n < 8 then [48 + n] else Octal(n / 8) + [48 + n % 8]
  }

  /** Reading a number: the leading octal digits. */
  function OctalValue(s: Text, acc: nat): nat
  {
    if s == [] || !(48 <= s[0] < 56) then acc else OctalValue(s[1..], 8 * acc + (s[0] as int) - 48)
  }

  function Pow8(k: nat): nat { if k == 0 then 1 else 8 * Pow8(k - 1) }

  lemma {:induction false} OctalReadsBack(n: nat, t: Text)
    ensures OctalValue(Octal(n) + t, 0) == OctalValue(t, n)
  {
    if n < 8 {
      assert (Octal(n) + t)[1..] == t;
    } else {
      var d: Text := [48 + n % 8];
      OctalReadsBack(n / 8, d + t);
      assert Octal(n) + t == Octal(n / 8) + (d + t);
      assert (d + t)[1..] == t;
    }
  }

  lemma {:induction false} OctalLength(n: nat, k: nat)
    requires k > 0 && n < Pow8(k)
    ensures |Octal(n)| <= k
  {
    if n >= 8 {
      OctalLength(n / 8, k - 1);
    }
  }

  lemma Powers()
    ensures Pow8(6) == 262144 && Pow8(11) == 0x2_0000_0000
  {
    assert Pow8(2) == 64 && Pow8(4) == 4096 && Pow8(8) == 4096 * 4096;
  }

  // Sums of bytes.

  function Sum(s: Text): nat { if s == [] then 0 else Sum(s[..|s| - 1]) + s[|s| - 1] }

  lemma {:induction false} SumSplit(a: Text, b: Text)
    ensures Sum(a + b) == Sum(a) + Sum(b)
  {
    if b == [] {
      assert a + b == a;
    } else {
      assert (a + b)[..|a + b| - 1] == a + b[..|b| - 1];
      SumSplit(a, b[..|b| - 1]);
    }
  }

  lemma {:induction false} SumBound(s: Text)
    ensures Sum(s) <= 255 * |s|
  {
    if s != [] {
      SumBound(s[..|s| - 1]);
    }
  }

  lemma {:induction false} SumSpaces(s: Text)
    requires forall i :: 0 <= i < |s| ==> s[i] == 32
    ensures Sum(s) == 32 * |s|
  {
    if s != [] {
      SumSpaces(s[..|s| - 1]);
    }
  }

  lemma {:induction false} SumZeros(n: nat)
    ensures Sum(Zeros(n)) == 0
  {
    if n > 0 {
      assert Zeros(n)[..n - 1] == Zeros(n - 1);
      SumZeros(n - 1);
    }
  }

  // The header.

  const FILE_MODE: Text := [0x31, 0x30, 0x30, 0x36, 0x36, 0x36, 0x20, 0]
  const ID_BYTE: Text := [0x20, 0x20, 0x20, 0x20, 0x20, 0x30, 0x20, 0, 0x20, 0x20, 0x20, 0x20, 0x20, 0x30, 0x20, 0]

  /** snprintf into a buffer of 12 bytes that keeps what lies behind the terminator. */
  function Print(buf: Text, n: nat): (r: Text)
    requires |buf| == 12 && |Octal(n)| < 12
    ensures |r| == 12
  {
    Splice(buf, 0, Octal(n) + [0])
  }

  function ShortName(name: Text): (s: Text)
    ensures |s| < 100
  {
    if |name| >= 100 then name[..99] else name
  }

  /** What a C string can hold. */
  predicate NameOk(name: Text) { forall i :: 0 <= i < |name| ==> 0 < name[i] }

  lemma Fits32(n: nat)
    requires n < 0x1_0000_0000
    ensures |Octal(n)| < 12
  {
    Powers();
    OctalLength(n, 11);
  }

  /** A size is printed as an unsigned int. */
  function SizeField(size: nat): (r: Text)
    ensures |r| == 12
  {
    Fits32(size % 0x1_0000_0000);
    Print(Zeros(12), size % 0x1_0000_0000)
  }

  /** The bytes that are negative where char is signed. */
  function High(s: Text): nat { if s == [] then 0 else High(s[..|s| - 1]) + if s[|s| - 1] >= 128 then 1 else 0 }

  /** A sum of chars; whether char is signed is up to the platform. */
  function CharSum(s: Text, signed: bool): int { Sum(s) - if signed then 256 * High(s) else 0 }

  /** The running sum of WriteHeader. */
  function HeaderSum(name: Text, size: nat, signed: bool): int
  {
    CharSum(ShortName(name), signed) + CharSum(FILE_MODE, signed) + CharSum(ID_BYTE, signed)
    + CharSum(SizeField(size), signed) + 256
  }

  /** Digits of the size can stay behind the terminator. */
  function SumField(name: Text, size: nat, signed: bool): (r: Text)
    ensures |r| == 8
  {
    Fits32(HeaderSum(name, size, signed) % 0x1_0000_0000);
    Print(SizeField(size), HeaderSum(name, size, signed) % 0x1_0000_0000)[..8]
  }

  function Header(name: Text, size: nat, signed: bool): (h: Text)
    ensures |h| == 512
  {
    var n := ShortName(name);
    if size == 0 then Zeros(512)
    else
      n + Zeros(100 - |n|) + FILE_MODE + ID_BYTE + SizeField(size) + Zeros(12)
      + SumField(name, size, signed) + Zeros(356)
  }

  /** The checksum a reader computes: the field itself counts as eight spaces. */
  function CheckSum(h: Text): nat
    requires |h| == 512
  {
    Sum(h[..148] + [32, 32, 32, 32, 32, 32, 32, 32] + h[156..])
  }

  /** Where the fields of a header are. */
  lemma HeaderParts(name: Text, size: nat, signed: bool)
    requires 0 < size
    ensures var h, n := Header(name, size, signed), ShortName(name);
            && h[..148] == n + Zeros(100 - |n|) + FILE_MODE + ID_BYTE + SizeField(size) + Zeros(12)
            && h[..100] == n + Zeros(100 - |n|) && h[124..136] == SizeField(size)
            && h[148..156] == SumField(name, size, signed) && h[156..] == Zeros(356) && h[100] == 0x31
  {
    hide SizeField, SumField, ShortName;
  }

  lemma {:induction false} NoHigh(s: Text)
    requires forall i :: 0 <= i < |s| ==> s[i] < 128
    ensures High(s) == 0
  {
    if s != [] {
      NoHigh(s[..|s| - 1]);
    }
  }

  lemma {:induction false} Digits(n: nat)
    ensures forall i :: 0 <= i < |Octal(n)| ==> 48 <= Octal(n)[i] < 56
  {
    if n >= 8 {
      Digits(n / 8);
    }
  }

  lemma SizeFieldLow(size: nat)
    ensures forall i :: 0 <= i < 12 ==> SizeField(size)[i] < 128
  {
    hide Octal;
    var n := size % 0x1_0000_0000;
    Digits(n);
    Fits32(n);
    var p, r := Octal(n) + [0], SizeField(size);
    assert r[0..0 + |p|] == p;
    forall i | 0 <= i < 12
      ensures r[i] < 128
    {
      assert i < |p| ==> r[i] == r[0..0 + |p|][i] == p[i];
    }
  }

  /** Only the name can hold negative chars. */
  lemma SumIs(name: Text, size: nat, signed: bool)
    ensures HeaderSum(name, size, signed) ==
            Sum(ShortName(name)) + Sum(FILE_MODE) + Sum(ID_BYTE) + Sum(SizeField(size)) + 256
            - if signed then 256 * High(ShortName(name)) else 0
    ensures Sum(ShortName(name)) + Sum(FILE_MODE) + Sum(ID_BYTE) + Sum(SizeField(size)) + 256 < 262144
    ensures High(ShortName(name)) <= 99
  {
    hide SizeField, Sum, High;
    NoHigh(FILE_MODE);
    NoHigh(ID_BYTE);
    SizeFieldLow(size);
    NoHigh(SizeField(size));
    HighBound(ShortName(name));
    SumBound(ShortName(name));
    SumBound(FILE_MODE);
    SumBound(ID_BYTE);
    SumBound(SizeField(size));
  }

  lemma {:induction false} HighBound(s: Text)
    ensures High(s) <= |s|
  {
    if s != [] {
      HighBound(s[..|s| - 1]);
    }
  }

  /** The sum of the whole header as a reader takes it. */
  lemma CheckSumIs(name: Text, size: nat, signed: bool)
    requires 0 < size
    ensures CheckSum(Header(name, size, signed)) ==
            Sum(ShortName(name)) + Sum(FILE_MODE) + Sum(ID_BYTE) + Sum(SizeField(size)) + 256
  {
    hide SizeField, SumField, ShortName, Header, Sum;
    HeaderParts(name, size, signed);
    var n, h := ShortName(name), Header(name, size, signed);
    var spaces: Text := [32, 32, 32, 32, 32, 32, 32, 32];
    SumSix(n, Zeros(100 - |n|), FILE_MODE, ID_BYTE, SizeField(size), Zeros(12));
    SumZeros(100 - |n|);
    SumZeros(12);
    SumSplit(h[..148] + spaces, Zeros(356));
    SumSplit(h[..148], spaces);
    SumZeros(356);
    SumSpaces(spaces);
  }

  lemma {:induction false} OctalLonger(n: nat, k: nat)
    requires n >= Pow8(k)
    ensures |Octal(n)| > k
  {
    if k > 0 {
      OctalLonger(n / 8, k - 1);
    }
  }

  /** Eleven digits cut to eight: the number divided by 512. */
  lemma CutField(buf: Text, n: nat)
    requires |buf| == 12 && 0xFFFC_0000 <= n < 0x1_0000_0000
    ensures |Octal(n)| == 11 && OctalValue(Print(buf, n)[..8], 0) == n / 512
  {
    Fits32(n);
    Powers();
    var x := n / 8 / 8 / 8;
    OctalLength(x, 8);
    OctalLonger(x, 7);
    hide OctalValue, Pow8;
    var tail: Text := [48 + n / 8 / 8 % 8] + [48 + n / 8 % 8] + [48 + n % 8];
    assert Octal(n) == Octal(x) + tail by {
      assert Octal(n / 8 / 8) == Octal(x) + [48 + n / 8 / 8 % 8];
      assert Octal(n / 8) == Octal(n / 8 / 8) + [48 + n / 8 % 8];
      assert Octal(n) == Octal(n / 8) + [48 + n % 8];
    }
    var p := Octal(n) + [0];
    assert Print(buf, n)[0..0 + |p|] == p;
    assert Print(buf, n)[..8] == p[..8] == Octal(x) + [];
    OctalReadsBack(x, []);
  }

  /** A header carries the right checksum exactly when char is unsigned or the name, as far
      as it is written, has no byte of 128 or more. */
  lemma ChecksumExact(name: Text, size: nat, signed: bool)
    requires 0 < size
    ensures var h := Header(name, size, signed);
            OctalValue(h[148..156], 0) == CheckSum(h) <==> !signed || High(ShortName(name)) == 0
  {
    hide SizeField, ShortName, Header, HeaderSum, CheckSum, Sum, High, Octal, OctalValue, Pow8, Print;
    HeaderParts(name, size, signed);
    CheckSumIs(name, size, signed);
    SumIs(name, size, signed);
    var sum := HeaderSum(name, size, signed);
    if sum >= 0 {
      Powers();
      OctalLength(sum, 6);
      FieldReadsBack(SizeField(size), sum, 8);
    } else {
      CutField(SizeField(size), sum % 0x1_0000_0000);
    }
  }

  lemma SumSix(a: Text, b: Text, c: Text, d: Text, e: Text, f: Text)
    ensures Sum(a + b + c + d + e + f) == Sum(a) + Sum(b) + Sum(c) + Sum(d) + Sum(e) + Sum(f)
  {
    hide Sum;
    SumSplit(a, b);
    SumSplit(a + b, c);
    SumSplit(a + b + c, d);
    SumSplit(a + b + c + d, e);
    SumSplit(a + b + c + d + e, f);
  }

  /** What was printed is what is read, whatever the buffer held before. */
  lemma FieldReadsBack(buf: Text, n: nat, k: nat)
    requires |buf| == 12 && |Octal(n)| < k <= 12
    ensures OctalValue(Print(buf, n)[..k], 0) == n
  {
    hide Octal;
    var t := Print(buf, n)[..k][|Octal(n)|..];
    assert Print(buf, n)[..k] == Octal(n) + t && t[0] == 0 by {
      var p := Octal(n) + [0];
      assert Print(buf, n)[0..0 + |p|] == p;
      assert forall i :: 0 <= i < |p| ==> Print(buf, n)[i] == Print(buf, n)[0..0 + |p|][i];
    }
    OctalReadsBack(n, t);
  }

  // Files, the archive, and a reader of archives.

  /** One of the names to archive: nothing there, or a regular file. */
  datatype Source = Missing | Regular(path: Text, contents: Text)

  datatype Entry = Entry(name: Text, contents: Text)

  /** strrchr: the last part of the path, with its slash. */
  function Tail(path: Text): (t: Text)
    ensures |t| <= |path|
  {
    if path == [] then [] else if path[|path| - 1] == 47 then [47] else
      var t := Tail(path[..|path| - 1]);
      if t == [] then [] else t + [path[|path| - 1]]
  }

  /** A path without a slash, or with a very short name, ends the archive early. */
  predicate PathOk(path: Text) { |Tail(path)| >= 8 }

  function BaseName(path: Text): Text { if Tail(path) == [] then path else Tail(path)[1..] }

  /** The path ends in a slash and `name`. */
  predicate EndsIn(path: Text, dir: Text, name: Text) { path == dir + [47] + name && 47 !in name }

  lemma {:induction false} TailIs(dir: Text, name: Text)
    requires 47 !in name
    ensures Tail(dir + [47] + name) == [47] + name
  {
    var path, n := dir + [47] + name, |name|;
    if n == 0 {
      assert path == dir + [47] && [47] + name == [47];
    } else {
      assert 47 !in name[..n - 1] && name[n - 1] in name;
      TailIs(dir, name[..n - 1]);
      assert path[..|path| - 1] == dir + [47] + name[..n - 1];
      assert [47] + name[..n - 1] + [name[n - 1]] == [47] + name;
    }
  }

  lemma {:induction false} NoTail(path: Text)
    requires 47 !in path
    ensures Tail(path) == []
  {
    if path != [] {
      assert path[|path| - 1] in path;
      NoTail(path[..|path| - 1]);
    }
  }

  /** The last part of a path is what follows its last slash; it is usable exactly from
      seven characters on, and a path without a slash never is. */
  lemma PathExact(dir: Text, name: Text)
    requires 47 !in name
    ensures BaseName(dir + [47] + name) == name && (PathOk(dir + [47] + name) <==> |name| >= 7)
    ensures !PathOk(name)
  {
    hide Tail;
    TailIs(dir, name);
    NoTail(name);
    assert ([47] + name)[1..] == name;
  }

  lemma {:induction false} PathSplits(path: Text) returns (dir: Text, name: Text)
    ensures EndsIn(path, dir, name) || (47 !in path && name == path)
  {
    if path == [] {
      return [], [];
    }
    var n := |path| - 1;
    if path[n] == 47 {
      return path[..n], [];
    }
    dir, name := PathSplits(path[..n]);
    name := name + [path[n]];
    assert path == path[..n] + [path[n]];
  }

  predicate Readable(f: Source)
  {
    f.Regular? && PathOk(f.path) ==> NameOk(BaseName(f.path))
  }

  predicate AllReadable(fs: seq<Source>) { forall i :: 0 <= i < |fs| ==> Readable(fs[i]) }

  function Blocks(size: nat): nat { (size + 511) / 512 }

  function Padded(c: Text): (p: Text)
    ensures |p| == 512 * Blocks(|c|)
  {
    c + Zeros(512 * Blocks(|c|) - |c|)
  }

  function Member(name: Text, c: Text, signed: bool): Text
  {
    Header(name, |c|, signed) + Padded(c)
  }

  /** TarZipFiles, before compression. */
  function Archive(fs: seq<Source>, signed: bool): Text
  {
    if fs == [] then Zeros(512)
    else if fs[0].Missing? then Archive(fs[1..], signed)
    else if !PathOk(fs[0].path) then []
    else Member(BaseName(fs[0].path), fs[0].contents, signed) + Archive(fs[1..], signed)
  }

  /** A reader stops at a block of zeros, or when the archive ends. */
  function Read(s: Text): seq<Entry>
    decreases |s|
  {
    if Ends(s) then [] else [FirstOf(s)] + Read(Behind(s))
  }

  function SizeOf(s: Text): nat
    requires |s| >= 512
  {
    OctalValue(s[124..136], 0)
  }

  predicate Ends(s: Text) { |s| < 512 || s[..512] == Zeros(512) || |s| < 512 + 512 * Blocks(SizeOf(s)) }

  function FirstOf(s: Text): Entry
    requires !Ends(s)
  {
    Entry(CString(s[..100]), s[512..512 + SizeOf(s)])
  }

  function Behind(s: Text): (t: Text)
    requires !Ends(s)
    ensures |t| < |s|
  {
    s[512 + 512 * Blocks(SizeOf(s))..]
  }

  /** All the files that are there. */
  function Files(fs: seq<Source>): seq<Entry>
  {
    if fs == [] then []
    else if fs[0].Missing? then Files(fs[1..])
    else [Entry(BaseName(fs[0].path), fs[0].contents)] + Files(fs[1..])
  }

  /** What survives: a path that cannot be used ends the archive, an empty file, whose header
      is a block of zeros, looks like its end, and names are cut to 99 characters. */
  function Surviving(fs: seq<Source>): seq<Entry>
  {
    if fs == [] then []
    else if fs[0].Missing? then Surviving(fs[1..])
    else if !PathOk(fs[0].path) || fs[0].contents == [] then []
    else [Entry(ShortName(BaseName(fs[0].path)), fs[0].contents)] + Surviving(fs[1..])
  }

  lemma {:induction false} NameReadsBack(n: Text, k: nat)
    requires NameOk(n) && k > 0
    ensures CString(n + Zeros(k)) == n
  {
    if n != [] {
      NameReadsBack(n[1..], k);
      assert (n + Zeros(k))[1..] == n[1..] + Zeros(k);
    }
  }

  lemma ShortNameOk(name: Text)
    requires NameOk(name)
    ensures NameOk(ShortName(name))
  {
  }

  /** Also where char is signed and the checksum wrong, name and size read back; the size
      only up to 32 bits. */
  lemma HeaderReadsBack(name: Text, size: nat, signed: bool)
    requires NameOk(name) && 0 < size
    ensures var h := Header(name, size, signed);
            && h != Zeros(512) && OctalValue(h[124..136], 0) == size % 0x1_0000_0000
            && CString(h[..100]) == ShortName(name)
  {
    hide Header, ShortName, Octal, OctalValue, NameOk, SumField;
    HeaderParts(name, size, signed);
    ShortNameOk(name);
    NameReadsBack(ShortName(name), 100 - |ShortName(name)|);
    var n := size % 0x1_0000_0000;
    Fits32(n);
    FieldReadsBack(Zeros(12), n, 12);
    assert Print(Zeros(12), n)[..12] == Print(Zeros(12), n);
  }

  lemma ModeReadsBack()
    ensures OctalValue(FILE_MODE, 0) == 0x81B6
  {
    assert Octal(1) == [0x31] && Octal(8) == [0x31, 0x30] && Octal(64) == [0x31, 0x30, 0x30];
    assert Octal(518) == [0x31, 0x30, 0x30, 0x36] && Octal(4150) == [0x31, 0x30, 0x30, 0x36, 0x36];
    assert FILE_MODE == Octal(0x81B6) + [0x20, 0];
    OctalReadsBack(0x81B6, [0x20, 0]);
  }

  /** The other fields: a regular file with mode 0666, of user and group 0, of time 0. */
  lemma FieldsReadBack(name: Text, size: nat, signed: bool)
    requires 0 < size
    ensures var h := Header(name, size, signed);
            && OctalValue(h[100..108], 0) == 0x81B6
            && h[108..116] == [32, 32, 32, 32, 32, 48, 32, 0] == h[116..124]
            && OctalValue(h[136..148], 0) == 0 && h[156..] == Zeros(356)
  {
    hide Octal, SizeField, SumField;
    HeaderParts(name, size, signed);
    var h := Header(name, size, signed);
    assert h[100..108] == h[..148][100..108] == FILE_MODE;
    assert h[108..116] == h[..148][108..116] == ID_BYTE[..8] && h[116..124] == h[..148][116..124] == ID_BYTE[8..];
    assert h[136..148] == h[..148][136..148] == Zeros(12);
    ModeReadsBack();
  }

  lemma Slices(h: Text, p: Text, rest: Text, m: nat)
    requires |h| == 512 && m <= |p|
    ensures var s := h + p + rest;
            && s[..512] == h && s[124..136] == h[124..136] && s[..100] == h[..100]
            && s[512..512 + m] == p[..m] && (m == |p| ==> s[512 + m..] == rest)
  {
  }

  lemma ReadEntry(s: Text, size: nat)
    requires |s| >= 512 + 512 * Blocks(size) && s[..512] != Zeros(512) && OctalValue(s[124..136], 0) == size
    ensures Read(s) == [Entry(CString(s[..100]), s[512..512 + size])] + Read(s[512 + 512 * Blocks(size)..])
  {
    hide Read, OctalValue, CString, Blocks, Ends, FirstOf, Behind;
    FewerBlocks(size, size);
    EntryParts(s, size);
    ReadUnfolds(s);
  }

  lemma EntryParts(s: Text, size: nat)
    requires |s| >= 512 + 512 * Blocks(size) && s[..512] != Zeros(512) && OctalValue(s[124..136], 0) == size
    ensures !Ends(s) && Behind(s) == s[512 + 512 * Blocks(size)..]
    ensures size <= 512 * Blocks(size) && FirstOf(s) == Entry(CString(s[..100]), s[512..512 + size])
  {
    hide OctalValue, CString, Blocks, Zeros;
    FewerBlocks(size, size);
  }

  lemma {:induction false} ReadUnfolds(s: Text)
    ensures Read(s) == if Ends(s) then [] else [FirstOf(s)] + Read(Behind(s))
  {
    hide Ends, FirstOf, Behind;
  }

  /** The first entry of a reader. Only contents below 2^32 bytes come back whole. */
  lemma MemberReadsFirst(name: Text, c: Text, rest: Text, signed: bool)
    requires NameOk(name) && 0 < |c|
    ensures var es := Read(Member(name, c, signed) + rest);
            && es != [] && es[0].name == ShortName(name) && |es[0].contents| == |c| % 0x1_0000_0000
  {
    hide Header, ShortName, OctalValue, CString, Blocks, NameOk, Read, Padded;
    var m := |c| % 0x1_0000_0000;
    HeaderReadsBack(name, |c|, signed);
    Slices(Header(name, |c|, signed), Padded(c), rest, 0);
    FewerBlocks(m, |c|);
    ReadEntry(Member(name, c, signed) + rest, m);
  }

  lemma FewerBlocks(a: nat, b: nat)
    requires a <= b
    ensures Blocks(a) <= Blocks(b) && a <= 512 * Blocks(a)
  {
  }

  lemma MemberReadsBack(name: Text, c: Text, rest: Text, signed: bool)
    requires NameOk(name) && 0 < |c| < 0x1_0000_0000
    ensures Read(Member(name, c, signed) + rest) == [Entry(ShortName(name), c)] + Read(rest)
  {
    hide Header, ShortName, OctalValue, CString, Blocks, NameOk, Read, Padded;
    HeaderReadsBack(name, |c|, signed);
    FewerBlocks(|c|, |c|);
    Slices(Header(name, |c|, signed), Padded(c), rest, |c|);
    Slices(Header(name, |c|, signed), Padded(c), rest, |Padded(c)|);
    ReadEntry(Member(name, c, signed) + rest, |c|);
    assert Padded(c)[..|c|] == c by {
      PaddedStart(c);
    }
  }

  lemma PaddedStart(c: Text)
    ensures Padded(c)[..|c|] == c
  {
    hide Blocks;
  }

  lemma StopsAtZeros(rest: Text)
    ensures Read(Zeros(512) + rest) == [] && Read([]) == []
    ensures Zeros(512) + [] == Zeros(512)
  {
    assert (Zeros(512) + rest)[..512] == Zeros(512);
  }

  /** An empty file is a block of zeros. */
  lemma EmptyMember(name: Text, rest: Text, signed: bool)
    ensures Member(name, [], signed) == Zeros(512) && Read(Member(name, [], signed) + rest) == []
  {
    hide Read;
    StopsAtZeros(rest);
    assert Member(name, [], signed) == Zeros(512);
  }

  /** One step along the list of names. */
  lemma ReadsFirst(fs: seq<Source>, signed: bool)
    requires AllReadable(fs)
    ensures var es := Read(Archive(fs, signed));
            if fs == [] then es == []
            else if fs[0].Missing? then es == Read(Archive(fs[1..], signed))
            else
              var name, c := BaseName(fs[0].path), fs[0].contents;
              && (!PathOk(fs[0].path) || c == [] ==> es == [])
              && (PathOk(fs[0].path) && c != [] ==>
                    && es != [] && es[0].name == ShortName(name) && |es[0].contents| == |c| % 0x1_0000_0000
                    && (|c| < 0x1_0000_0000 ==>
                          es == [Entry(ShortName(name), c)] + Read(Archive(fs[1..], signed))))
  {
    hide Read, Member, ShortName, BaseName, PathOk, NameOk;
    StopsAtZeros([]);
    if fs != [] && fs[0].Regular? && PathOk(fs[0].path) {
      var name, c, rest := BaseName(fs[0].path), fs[0].contents, Archive(fs[1..], signed);
      if c == [] {
        EmptyMember(name, rest, signed);
      } else {
        MemberReadsFirst(name, c, rest, signed);
        if |c| < 0x1_0000_0000 {
          MemberReadsBack(name, c, rest, signed);
        }
      }
    }
  }

  /** The round trip: when the files that survive are below 2^32 bytes, a reader recovers
      exactly them, in order. */
  lemma {:induction false} ReadsBack(fs: seq<Source>, signed: bool)
    requires AllReadable(fs) && forall e <- Surviving(fs) :: |e.contents| < 0x1_0000_0000
    ensures Read(Archive(fs, signed)) == Surviving(fs)
  {
    hide Read, Archive, ShortName, PathOk, BaseName, Readable;
    ReadsFirst(fs, signed);
    if fs != [] && (fs[0].Missing? || (PathOk(fs[0].path) && fs[0].contents != [])) {
      var es, more := Surviving(fs), Surviving(fs[1..]);
      if fs[0].Regular? {
        assert es[1..] == more && es[0] in es;
        assert forall e <- more :: e in es;
      }
      ReadsBack(fs[1..], signed);
    }
  }

  /** In terms of the path itself: behind its last slash are 7 to 99 characters. */
  ghost predicate Kept(f: Source)
  {
    f.Regular? ==>
      0 < |f.contents| < 0x1_0000_0000 && exists dir, name :: EndsIn(f.path, dir, name) && 7 <= |name| < 100
  }

  lemma MissingKept()
    ensures Kept(Missing)
  {
  }

  lemma KeptIs(f: Source)
    requires f.Regular?
    ensures Kept(f) <==> PathOk(f.path) && 0 < |f.contents| < 0x1_0000_0000 && |BaseName(f.path)| < 100
  {
    hide PathOk, BaseName;
    var dir, name := PathSplits(f.path);
    if EndsIn(f.path, dir, name) {
      PathExact(dir, name);
      forall d, n | EndsIn(f.path, d, n)
        ensures n == name
      {
        PathExact(d, n);
      }
    } else {
      PathExact([], name);
      HasSlash(f.path);
    }
  }

  lemma HasSlash(path: Text)
    ensures forall dir, name :: EndsIn(path, dir, name) ==> 47 in path
  {
    forall dir, name | EndsIn(path, dir, name)
      ensures 47 in path
    {
      assert path[|dir|] == 47;
    }
  }

  /** The archive gives back exactly the files that are there when each has a usable path,
      contents, less than 2^32 bytes of them, and a name of less than 100 characters; and
      only then. */
  lemma {:induction false} RoundTripExact(fs: seq<Source>, signed: bool)
    requires AllReadable(fs)
    ensures Read(Archive(fs, signed)) == Files(fs) <==> forall f <- fs :: Kept(f)
  {
    hide Read, Archive, ShortName, PathOk, BaseName, Readable, Kept;
    ReadsFirst(fs, signed);
    if fs != [] {
      assert forall f :: f in fs <==> f == fs[0] || f in fs[1..];
      RoundTripExact(fs[1..], signed);
      if fs[0].Missing? {
        assert Kept(fs[0]) by {
          MissingKept();
        }
      } else {
        var es, rest := Read(Archive(fs, signed)), Read(Archive(fs[1..], signed));
        FirstKept(fs[0], Files(fs[1..]), es);
        KeptIs(fs[0]);
        if Kept(fs[0]) {
          assert es[1..] == rest;
        }
      }
    }
  }

  lemma FirstKept(f: Source, more: seq<Entry>, es: seq<Entry>)
    requires f.Regular?
    requires !PathOk(f.path) || f.contents == [] ==> es == []
    requires PathOk(f.path) && f.contents != [] ==>
               && es != [] && es[0].name == ShortName(BaseName(f.path))
               && |es[0].contents| == |f.contents| % 0x1_0000_0000
    requires PathOk(f.path) && 0 < |f.contents| < 0x1_0000_0000 ==> es[0].contents == f.contents
    ensures es == [Entry(BaseName(f.path), f.contents)] + more <==> Kept(f) && es != [] && es[1..] == more
  {
    hide PathOk, BaseName, Kept;
    KeptIs(f);
    var e := Entry(BaseName(f.path), f.contents);
    assert ([e] + more)[0] == e && ([e] + more)[1..] == more;
    if es != [] {
      assert es == [es[0]] + es[1..];
    }
  }

  /** The name /a has too few characters: the archive is empty, without an end block, and
      every file behind it is lost. */
  lemma ShortPathExample(c: Text, fs: seq<Source>, signed: bool)
    ensures var all := [Regular([47, 97], c)] + fs;
            Archive(all, signed) == [] && Files(all) == [Entry([97], c)] + Files(fs)
  {
    hide Member;
    assert [47, 97][..1] == [47] && [47, 97][1..] == [97];
    assert Tail([47]) == [47] && Tail([47, 97]) == [47, 97];
  }
}
