/** Framed log records: a 64-byte header with two lengths, then the padded text. */
module LogParser {
  import opened Bytes

  const LOG_ITEM_MAX_LEN: nat := 1024

  function U16(s: seq<byte>, at: nat): nat
    requires at + 2 <= |s|
  {
    (s[at] as int) + 256 * (s[at + 1] as int)
  }

  function Magic(s: seq<byte>): nat requires |s| >= 64 { U16(s, 32) }

  function RealLen(s: seq<byte>): nat requires |s| >= 64 { U16(s, 40) }

  function BufferLen(s: seq<byte>): nat requires |s| >= 64 { U16(s, 42) }

  /** The header is followed by `BufferLen` bytes, of which `RealLen` are text. */
  predicate ValidHeader(s: seq<byte>)
  {
    && |s| >= 64
    && Magic(s) == 0x5A5A
    && 0 < RealLen(s) <= BufferLen(s)
    && BufferLen(s) % 64 == 0
    && BufferLen(s) - RealLen(s) < 64
    && BufferLen(s) + 64 <= LOG_ITEM_MAX_LEN
  }

  /** LogItemGetNext on what is left of the buffer. */
  predicate ItemNext(s: seq<byte>)
  {
    ValidHeader(s) && BufferLen(s) + 64 <= |s|
  }

  function ItemLen(s: seq<byte>): (n: nat)
    requires ItemNext(s)
    ensures 64 < n <= |s|
  {
    64 + BufferLen(s)
  }

  /** The chunks of the buffer that ReadLogBuffer takes as records. */
  function Parse(s: seq<byte>): seq<seq<byte>>
  {
    if !ItemNext(s) then [] else [s[..ItemLen(s)]] + Parse(s[ItemLen(s)..])
  }

  /** What it leaves behind them. */
  function Rest(s: seq<byte>): seq<byte>
  {
    if !ItemNext(s) then s else Rest(s[ItemLen(s)..])
  }

  /** A byte string that is exactly one record. */
  predicate WellFormed(c: seq<byte>) { ValidHeader(c) && |c| == 64 + BufferLen(c) }

  predicate AllWellFormed(cs: seq<seq<byte>>) { forall c <- cs :: WellFormed(c) }

  function Concat(cs: seq<seq<byte>>): seq<byte>
  {
    if cs == [] then [] else cs[0] + Concat(cs[1..])
  }

  /** Nothing at the front of `s` is a record. */
  ghost predicate NoneNext(s: seq<byte>)
  {
    forall n: nat :: n <= |s| ==> !WellFormed(s[..n])
  }

  lemma NextIsWellFormed(s: seq<byte>, n: nat)
    requires n <= |s|
    ensures WellFormed(s[..n]) <==> ItemNext(s) && n == ItemLen(s)
  {
    if n >= 64 {
      SameHeader(s[..n], s);
    }
  }

  function TwoBytes(n: nat): (s: seq<byte>)
    requires n < 0x1_0000
  {
    [n % 256, n / 256]
  }

  /** What a record is: anything in the first 32 bytes, the magic, six bytes, the length of
      the text, the length of its buffer, twenty bytes, and the buffer: the text with less
      than 64 bytes of padding up to a multiple of 64, and at most 960 bytes in all. */
  lemma RecordExact(a: seq<byte>, magic: nat, b: seq<byte>, textLen: nat, len: nat, d: seq<byte>, buffer: seq<byte>)
    requires |a| == 32 && |b| == 6 && |d| == 20 && magic < 0x1_0000 && textLen < 0x1_0000 && len < 0x1_0000
    ensures var c := a + TwoBytes(magic) + b + TwoBytes(textLen) + TwoBytes(len) + d + buffer;
            && (WellFormed(c) <==>
                  && magic == 0x5A5A && |buffer| == len && 0 < textLen <= len <= 960
                  && len % 64 == 0 && len - textLen < 64)
            && (WellFormed(c) ==> Text(c) == buffer[..textLen])
  {
    var c := a + TwoBytes(magic) + b + TwoBytes(textLen) + TwoBytes(len) + d + buffer;
    assert c[32] == TwoBytes(magic)[0] && c[33] == TwoBytes(magic)[1];
    assert c[40] == TwoBytes(textLen)[0] && c[41] == TwoBytes(textLen)[1];
    assert c[42] == TwoBytes(len)[0] && c[43] == TwoBytes(len)[1];
    assert c[64..] == buffer;
  }

  lemma SameHeader(a: seq<byte>, b: seq<byte>)
    requires |a| >= 64 && |b| >= 64 && a[..64] == b[..64]
    ensures Magic(a) == Magic(b) && RealLen(a) == RealLen(b) && BufferLen(a) == BufferLen(b)
    ensures ValidHeader(a) <==> ValidHeader(b)
  {
    assert forall i :: 0 <= i < 64 ==> a[i] == a[..64][i] && b[i] == b[..64][i];
  }

  lemma NothingNext(s: seq<byte>)
    requires !ItemNext(s)
    ensures NoneNext(s)
  {
    hide WellFormed, ItemNext;
    forall n: nat | n <= |s|
      ensures !WellFormed(s[..n])
    {
      NextIsWellFormed(s, n);
    }
  }

  lemma OneMore(c: seq<byte>, cs: seq<seq<byte>>)
    ensures Concat([c] + cs) == c + Concat(cs)
    ensures AllWellFormed([c] + cs) <==> WellFormed(c) && AllWellFormed(cs)
  {
    hide WellFormed;
    assert ([c] + cs)[1..] == cs;
    assert AllWellFormed([c] + cs) ==> WellFormed(([c] + cs)[0]) && forall d <- cs :: d in [c] + cs;
  }

  /** The records taken are well formed, lie one after the other from the start of the
      buffer, and after the last one there is no further record. */
  lemma {:induction false} ParseSound(s: seq<byte>)
    ensures AllWellFormed(Parse(s)) && s == Concat(Parse(s)) + Rest(s) && NoneNext(Rest(s))
  {
    hide WellFormed, ItemNext, Concat, AllWellFormed, NoneNext;
    if ItemNext(s) {
      var n := ItemLen(s);
      NextIsWellFormed(s, n);
      ParseSound(s[n..]);
      OneMore(s[..n], Parse(s[n..]));
    } else {
      NothingNext(s);
      NoRecords(s);
    }
  }

  lemma NoRecords(s: seq<byte>)
    ensures AllWellFormed([]) && Concat([]) + s == s
  {
  }

  /** No other division of the buffer has these properties: any well-formed records,
      followed by something that starts with none, are recovered in full. */
  lemma {:induction false} ParseComplete(cs: seq<seq<byte>>, rest: seq<byte>)
    requires AllWellFormed(cs) && NoneNext(rest)
    ensures Parse(Concat(cs) + rest) == cs
  {
    hide WellFormed, ValidHeader;
    var s := Concat(cs) + rest;
    if cs == [] {
      assert s == rest;
      if ItemNext(s) {
        NextIsWellFormed(s, ItemLen(s));
        assert false;
      }
    } else {
      var n := |cs[0]|;
      assert WellFormed(cs[0]);
      assert s == cs[0] + (Concat(cs[1..]) + rest);
      assert s[..n] == cs[0];
      NextIsWellFormed(s, n);
      assert s[n..] == Concat(cs[1..]) + rest;
      ParseComplete(cs[1..], rest);
    }
  }

  // What is done with a record.

  function Text(c: seq<byte>): seq<byte>
    requires WellFormed(c)
  {
    c[64..64 + RealLen(c)]
  }

  /** Where print mode writes its terminator: after the text, or over its last byte when
      there is no padding. */
  function StopAt(c: seq<byte>): (i: nat)
    requires WellFormed(c)
    ensures 64 <= i < |c|
  {
    if RealLen(c) < BufferLen(c) then 64 + RealLen(c) else 64 + RealLen(c) - 1
  }

  function Stopped(c: seq<byte>): seq<byte>
    requires WellFormed(c)
  {
    c[StopAt(c) := 0]
  }

  function Printed(c: seq<byte>): seq<byte>
    requires WellFormed(c)
  {
    CString(Stopped(c)[64..])
  }

  /** Printing shows the text up to its first zero byte, without the last byte when the
      text fills the buffer. */
  lemma PrintedIsText(c: seq<byte>)
    requires WellFormed(c)
    ensures Printed(c) == CString(if RealLen(c) < BufferLen(c) then Text(c) else Text(c)[..RealLen(c) - 1])
  {
    hide CString;
    var s, i := Stopped(c)[64..], StopAt(c) - 64;
    CStringStops(s, i);
    assert s[..i] == if RealLen(c) < BufferLen(c) then Text(c) else Text(c)[..RealLen(c) - 1];
  }

  lemma StoppedHeader(c: seq<byte>)
    requires WellFormed(c)
    ensures WellFormed(Stopped(c)) && RealLen(Stopped(c)) == RealLen(c)
  {
    SameHeader(Stopped(c), c);
  }

  function AllStopped(cs: seq<seq<byte>>): (ds: seq<seq<byte>>)
    requires AllWellFormed(cs)
    ensures |ds| == |cs|
  {
    if cs == [] then [] else [Stopped(cs[0])] + AllStopped(cs[1..])
  }

  lemma {:induction false} StoppedWellFormed(cs: seq<seq<byte>>)
    requires AllWellFormed(cs)
    ensures AllWellFormed(AllStopped(cs)) && |Concat(AllStopped(cs))| == |Concat(cs)|
  {
    hide WellFormed, Stopped;
    if cs != [] {
      StoppedHeader(cs[0]);
      StoppedLength(cs[0]);
      StoppedWellFormed(cs[1..]);
    }
  }

  lemma StoppedLength(c: seq<byte>)
    requires WellFormed(c)
    ensures |Stopped(c)| == |c|
  {
  }

  // The loop over the buffer.

  /** What each record contributes to the output: its text, or what printing shows. */
  function Output(cs: seq<seq<byte>>, writeFile: bool): seq<seq<byte>>
    requires AllWellFormed(cs)
  {
    if cs == [] then [] else [if writeFile then Text(cs[0]) else Printed(cs[0])] + Output(cs[1..], writeFile)
  }

  method LogItemGetNext(logBuffer: array<byte>, at: nat, scopeLen: nat) returns (found: bool)
    requires at + scopeLen <= logBuffer.Length
    ensures found == ItemNext(logBuffer[at..at + scopeLen])
  {
    var itemMaxSize := if scopeLen > LOG_ITEM_MAX_LEN then LOG_ITEM_MAX_LEN else scopeLen;
    if scopeLen < 64 {
      return false;
    }
    var s := logBuffer[at..at + scopeLen];
    found := && Magic(s) == 0x5A5A
             && BufferLen(s) > 0 && RealLen(s) > 0
             && BufferLen(s) % 64 == 0
             && RealLen(s) <= BufferLen(s)
             && BufferLen(s) - RealLen(s) < 64
             && BufferLen(s) + 64 <= itemMaxSize;
  }

  lemma Inside(done: seq<byte>, c: seq<byte>, tail: seq<byte>, i: nat, j: nat)
    requires i <= j <= |c|
    ensures (done + c + tail)[|done| + i..|done| + j] == c[i..j]
    ensures i < |c| ==> (done + c + tail)[|done| + i := 0] == done + c[i := 0] + tail
  {
  }

  lemma Lengths(c: seq<byte>)
    requires WellFormed(c)
    ensures |c| == 64 + BufferLen(c) && 0 < RealLen(c) <= BufferLen(c)
  {
  }

  lemma StopsInside(done: seq<byte>, c: seq<byte>, tail: seq<byte>)
    requires WellFormed(c)
    ensures |done| + StopAt(c) < |done + c + tail|
    ensures var after := (done + c + tail)[|done| + StopAt(c) := 0];
            after == done + Stopped(c) + tail && after[|done| + 64..|done| + |c|] == Stopped(c)[64..]
  {
    hide WellFormed, RealLen, BufferLen;
    Inside(done, c, tail, StopAt(c), StopAt(c));
    Inside(done, Stopped(c), tail, 64, |c|);
    assert Stopped(c)[64..|c|] == Stopped(c)[64..];
  }

  /** One record, at `at`. Print mode writes into the buffer. */
  method OutputLog(logBuffer: array<byte>, at: nat, writeFile: bool,
                   ghost done: seq<byte>, ghost c: seq<byte>, ghost tail: seq<byte>) returns (out: seq<byte>)
    requires WellFormed(c) && at == |done| && logBuffer[..] == done + c + tail
    modifies logBuffer
    ensures out == if writeFile then Text(c) else Printed(c)
    ensures logBuffer[..] == done + (if writeFile then c else Stopped(c)) + tail
  {
    hide CString, WellFormed, ValidHeader, RealLen, BufferLen, Magic;
    Lengths(c);
    Inside(done, c, tail, 0, 64);
    var s := logBuffer[at..at + 64];
    assert s == c[0..64] && s[..64] == c[..64];
    SameHeader(s, c);
    var textLen, len := RealLen(s), BufferLen(s);
    if writeFile {
      Inside(done, c, tail, 64, 64 + textLen);
      return logBuffer[at + 64..at + 64 + textLen];
    }
    ghost var was := logBuffer[..];
    StopsInside(done, c, tail);
    var stop := if textLen < len then at + 64 + textLen else at + 64 + textLen - 1;
    logBuffer[stop] := 0;
    assert logBuffer[..] == was[at + StopAt(c) := 0];
    out := CString(logBuffer[at + 64..at + 64 + len]);
  }

  /** The buffer afterwards. */
  function After(s: seq<byte>, writeFile: bool): (r: seq<byte>)
    ensures |r| == |s|
    decreases |s|
  {
    if !ItemNext(s) then s
    else
      NextIsWellFormed(s, ItemLen(s));
      (if writeFile then s[..ItemLen(s)] else Stopped(s[..ItemLen(s)])) + After(s[ItemLen(s)..], writeFile)
  }

  lemma {:induction false} AfterIs(s: seq<byte>, writeFile: bool)
    ensures AllWellFormed(Parse(s))
    ensures After(s, writeFile) == Concat(if writeFile then Parse(s) else AllStopped(Parse(s))) + Rest(s)
  {
    hide WellFormed, Stopped, ItemNext, Concat, AllWellFormed;
    ParseSound(s);
    if ItemNext(s) {
      var n := ItemLen(s);
      AfterIs(s[n..], writeFile);
      NextIsWellFormed(s, n);
      FirstStopped(s[..n], Parse(s[n..]));
      OneMore(s[..n], Parse(s[n..]));
      OneMore(Stopped(s[..n]), AllStopped(Parse(s[n..])));
    } else {
      NoRecords(s);
      assert AllStopped([]) == [];
    }
  }

  lemma FirstStopped(c: seq<byte>, cs: seq<seq<byte>>)
    requires WellFormed(c) && AllWellFormed(cs)
    ensures AllWellFormed([c] + cs) && AllStopped([c] + cs) == [Stopped(c)] + AllStopped(cs)
  {
    hide WellFormed, Stopped;
    OneMore(c, cs);
    assert ([c] + cs)[1..] == cs;
  }

  /** The terminators change no frame: the buffer that print mode leaves behind parses
      into the same records, each with its terminator. */
  lemma PrintKeepsFrames(s: seq<byte>)
    ensures AllWellFormed(Parse(s)) && Parse(After(s, false)) == AllStopped(Parse(s))
  {
    hide Parse, Rest, Concat, AllStopped, NoneNext, AllWellFormed, After;
    ParseSound(s);
    AfterIs(s, false);
    StoppedWellFormed(Parse(s));
    ParseComplete(AllStopped(Parse(s)), Rest(s));
  }

  lemma ParseStep(s: seq<byte>, writeFile: bool)
    requires ItemNext(s)
    ensures var n := ItemLen(s);
            && WellFormed(s[..n]) && AllWellFormed(Parse(s)) && AllWellFormed(Parse(s[n..]))
            && Output(Parse(s), writeFile) ==
               [if writeFile then Text(s[..n]) else Printed(s[..n])] + Output(Parse(s[n..]), writeFile)
            && After(s, writeFile) ==
               (if writeFile then s[..n] else Stopped(s[..n])) + After(s[n..], writeFile)
  {
    hide WellFormed, ValidHeader, Stopped;
    NextIsWellFormed(s, ItemLen(s));
    ParseSound(s);
    ParseSound(s[ItemLen(s)..]);
    assert Parse(s)[1..] == Parse(s[ItemLen(s)..]);
  }

  lemma Regroup(done: seq<byte>, t: seq<byte>, tail: seq<byte>, n: nat)
    requires n <= |t|
    ensures done + t + tail == done + t[..n] + (t[n..] + tail)
    ensures forall c: seq<byte> :: done + c + (t[n..] + tail) == (done + c) + t[n..] + tail
  {
  }

  /** Where the loop stands: `done` is behind it, `t` ahead. */
  ghost predicate Standing(s: seq<byte>, writeFile: bool, out: seq<seq<byte>>, done: seq<byte>, t: seq<byte>)
  {
    && AllWellFormed(Parse(s)) && AllWellFormed(Parse(t))
    && out + Output(Parse(t), writeFile) == Output(Parse(s), writeFile)
    && done + After(t, writeFile) == After(s, writeFile)
  }

  lemma Start(s: seq<byte>, writeFile: bool)
    ensures Standing(s, writeFile, [], [], s)
  {
    hide Parse, After, Output;
    ParseSound(s);
  }

  lemma Advance(s: seq<byte>, writeFile: bool, out: seq<seq<byte>>, done: seq<byte>, t: seq<byte>)
    requires Standing(s, writeFile, out, done, t) && ItemNext(t)
    ensures var c := t[..ItemLen(t)];
            && WellFormed(c)
            && Standing(s, writeFile, out + [if writeFile then Text(c) else Printed(c)],
                        done + (if writeFile then c else Stopped(c)), t[ItemLen(t)..])
  {
    hide WellFormed, ItemNext, Stopped, Parse, After, Output, Text, Printed, AllWellFormed;
    ParseStep(t, writeFile);
  }

  lemma Finish(s: seq<byte>, writeFile: bool, out: seq<seq<byte>>, done: seq<byte>, t: seq<byte>)
    requires Standing(s, writeFile, out, done, t) && (t == [] || !ItemNext(t))
    ensures AllWellFormed(Parse(s)) && out == Output(Parse(s), writeFile) && done + t == After(s, writeFile)
  {
    Finished(t, writeFile);
  }

  lemma Finished(t: seq<byte>, writeFile: bool)
    requires !ItemNext(t)
    ensures Parse(t) == [] && Output(Parse(t), writeFile) == [] && After(t, writeFile) == t
  {
  }

  lemma Middle(done: seq<byte>, t: seq<byte>, tail: seq<byte>)
    ensures (done + t + tail)[|done|..|done| + |t|] == t
  {
  }

  /** Every record is handed on in order; print mode leaves its terminators behind. */
  method ReadLogBuffer(writeFile: bool, logBuffer: array<byte>, readLen: nat) returns (out: seq<seq<byte>>)
    requires readLen <= logBuffer.Length
    modifies logBuffer
    ensures AllWellFormed(Parse(old(logBuffer[..readLen])))
    ensures out == Output(Parse(old(logBuffer[..readLen])), writeFile)
    ensures logBuffer[..] == After(old(logBuffer[..readLen]), writeFile) + old(logBuffer[readLen..])
  {
    hide WellFormed, Stopped, Parse, After, Output, Text, Printed, AllWellFormed, ItemNext, Standing;
    ghost var s, tail := logBuffer[..readLen], logBuffer[readLen..];
    ghost var done: seq<byte>, t := [], s;
    Start(s, writeFile);
    out := [];
    var total := 0;
    assert logBuffer[..] == done + t + tail;
    while true
      invariant total == |done| && total + |t| == readLen && logBuffer[..] == done + t + tail
      invariant Standing(s, writeFile, out, done, t)
      decreases |t|
    {
      Middle(done, t, tail);
      var found := LogItemGetNext(logBuffer, total, readLen - total);
      if !found {
        Finish(s, writeFile, out, done, t);
        return;
      }
      var len := ItemLen(logBuffer[total..total + (readLen - total)]);
      ghost var c := t[..len];
      Advance(s, writeFile, out, done, t);
      Regroup(done, t, tail, len);
      StoppedLength(c);
      var text := OutputLog(logBuffer, total, writeFile, done, c, t[len..] + tail);
      out := out + [text];
      total := total + len;
      done, t := done + (if writeFile then c else Stopped(c)), t[len..];
      if total >= readLen {
        Finish(s, writeFile, out, done, t);
        return;
      }
    }
  }
}
