/** The tokenizer over a C string, and the joiner over the buffer that is handed on. */
module ArgumentCalls {
  import opened Bytes
  import opened Arguments

  const EFAULT := -14

  lemma {:induction false} CStringLength(s: Text)
    requires 0 in s
    ensures var n := |CString(s)|;
            n < |s| && s[n] == 0 && CString(s) == s[..n] && forall i :: 0 <= i < n ==> s[i] != 0
  {
    if s[0] != 0 {
      CStringLength(s[1..]);
      var n := |CString(s[1..])|;
      assert s[..n + 1] == [s[0]] + s[1..][..n];
      forall i | 0 <= i < n + 1
        ensures s[i] != 0
      {
        assert i > 0 ==> s[i] == s[1..][i - 1];
      }
    }
  }

  lemma {:induction false} CStringIs(s: Text, n: nat)
    requires n < |s| && s[n] == 0 && forall i :: 0 <= i < n ==> s[i] != 0
    ensures CString(s) == s[..n]
  {
    if n > 0 {
      CStringIs(s[1..], n - 1);
      assert s[..n] == [s[0]] + s[1..][..n - 1];
    }
  }

  /** Word `t` stands at `at`, ended by a zero before `limit`. */
  ghost predicate StandsAt(s: Text, at: nat, t: Text, limit: nat)
  {
    at + |t| < limit && at + |t| < |s| && s[at..at + |t|] == t && s[at + |t|] == 0 && 0 !in t
  }

  lemma StandsStays(s: Text, s': Text, at: nat, t: Text, limit: nat, limit': nat)
    requires StandsAt(s, at, t, limit) && limit <= limit' && |s| == |s'|
    requires forall i :: 0 <= i < limit && i < |s| ==> s'[i] == s[i]
    ensures StandsAt(s', at, t, limit')
  {
    assert s'[at..at + |t|] == s[at..at + |t|];
  }

  lemma StandsRead(s: Text, at: nat, t: Text, limit: nat)
    requires StandsAt(s, at, t, limit)
    ensures CString(s[at..]) == t
  {
    var r := s[at..];
    assert r[..|t|] == t && forall i :: 0 <= i < |t| ==> r[i] == t[i];
    CStringIs(r, |t|);
  }

  /** The end of the blanks from `start` on. */
  method SkipSpaces(param: array<byte>, start: nat, ghost s: Text) returns (at: nat)
    requires start <= |s| < param.Length && param[|s|] == 0 && param[start..|s|] == s[start..]
    ensures start <= at <= |s| && at == start + Spaces(s[start..])
  {
    at := start;
    while IsSpace(param[at])
      invariant start <= at <= |s| && at + Spaces(s[at..]) == start + Spaces(s[start..])
      decreases |s| - at
    {
      assert param[at] == param[start..|s|][at - start];
      assert s[at..][1..] == s[at + 1..];
      at := at + 1;
    }
    assert at < |s| ==> param[at] == param[start..|s|][at - start];
  }

  method FindEnd(param: array<byte>, start: nat, ghost s: Text) returns (len: nat)
    requires start <= |s| < param.Length && param[|s|] == 0 && param[start..|s|] == s[start..] && 0 !in s
    ensures start + len <= |s| && len == WordLen(s[start..])
  {
    len := 0;
    while !IsSpace(param[start + len]) && param[start + len] != 0
      invariant start + len <= |s| && len + WordLen(s[start + len..]) == WordLen(s[start..])
      decreases |s| - start - len
    {
      assert start + len < |s| ==> param[start + len] == param[start..|s|][len];
      assert start + len < |s| ==> s[start + len..][1..] == s[start + len + 1..];
      len := len + 1;
    }
    assert start + len < |s| ==> param[start + len] == param[start..|s|][len] && s[start + len] in s;
  }

  lemma SplitSome(s: Text, n: nat, w: nat)
    requires n == Spaces(s) < |s| && w == WordLen(s[n..])
    ensures Split(s) == [s[n..n + w]] + Split(s[n + w..])
  {
  }

  lemma SliceSlice(s: Text, i: nat, j: nat, k: nat)
    requires j <= k && i + k <= |s|
    ensures s[i..][j..k] == s[i + j..i + k] && s[i..][k..] == s[i + k..] && s[i..][j..] == s[i + j..]
  {
  }

  lemma SpacesMore(s: Text)
    requires s != [] && IsSpace(s[0])
    ensures Spaces(s) == 1 + Spaces(s[1..])
  {
  }

  lemma SkipOne(s: Text)
    requires s != [] && IsSpace(s[0])
    ensures Split(s) == Split(s[1..])
  {
    hide Split, Spaces, WordLen, IsSpace, Blank;
    var n := Spaces(s[1..]);
    SpacesMore(s);
    if n < |s[1..]| {
      SliceSlice(s, 1, n, n);
      var w := WordLen(s[n + 1..]);
      SliceSlice(s, 1, n, n + w);
      SplitSome(s, n + 1, w);
      SplitSome(s[1..], n, w);
    } else {
      AllBlank(s);
      AllBlank(s[1..]);
    }
  }

  lemma AllBlank(s: Text)
    requires Spaces(s) == |s|
    ensures Split(s) == []
  {
  }

  /** What one round of the tokenizer finds from `start` on. */
  lemma SplitAt(s: Text, start: nat, at: nat)
    requires start <= at <= |s| && at == start + Spaces(s[start..])
    ensures at == |s| ==> Split(s[start..]) == []
    ensures at < |s| ==>
              var w := WordLen(s[at..]);
              && Split(s[start..]) == [s[at..at + w]] + (if at + w < |s| then Split(s[at + w + 1..]) else [])
  {
    hide IsSpace, Spaces, WordLen, Split, Blank, Solid;
    var t, n := s[start..], at - start;
    SliceSlice(s, start, n, n);
    if at < |s| {
      var w := WordLen(s[at..]);
      SliceSlice(s, start, n, n + w);
      SplitSome(t, n, w);
      WordSolid(s[at..]);
      SplitRest(s, at, w);
    } else {
      AllBlank(t);
    }
  }

  lemma SplitRest(s: Text, at: nat, w: nat)
    requires at + w <= |s| && (at + w < |s| ==> IsSpace(s[at..][w]))
    ensures Split(s[at + w..]) == if at + w < |s| then Split(s[at + w + 1..]) else []
  {
    hide Split, IsSpace, Spaces;
    if at + w < |s| {
      SkipOne(s[at + w..]);
      SliceSlice(s, at + w, 1, 1);
    } else {
      SplitNone(s[at + w..]);
    }
  }

  /** Every word of `words` stands at its place, before `limit`. */
  ghost predicate AllStand(p: Text, result: seq<nat>, words: seq<Text>, limit: nat)
  {
    |result| == |words| && forall k :: 0 <= k < |words| ==> StandsAt(p, result[k], words[k], limit)
  }

  /** From `start` on the string is as it was. */
  predicate Untouched(p: Text, s: Text, start: nat)
  {
    |s| < |p| && start <= |s| + 1 && p[|s|] == 0 && 0 !in s && (start <= |s| ==> p[start..|s|] == s[start..])
  }

  /** The words still to come. */
  function Coming(s: Text, start: nat): seq<Text> { if start <= |s| then Split(s[start..]) else [] }

  /** Where the tokenizer stands between two rounds. */
  ghost predicate Standing(p: Text, s: Text, start: nat, result: seq<nat>, st: Parsed, maxNum: nat)
  {
    && st.Parsed? && Settled(st)
    && Untouched(p, s, start) && AllStand(p, result, st.words, start) && |result| <= maxNum
    && ParseFrom(st, Coming(s, start), maxNum) == Parse(Split(s), maxNum)
  }

  lemma Start(p: Text, maxNum: nat)
    requires 0 in p
    ensures Standing(p, CString(p), 0, [], NOTHING, maxNum)
  {
    CStringLength(p);
    var s := CString(p);
    assert p[0..|s|] == s && s[0..] == s;
  }

  /** The write that ends the word at `at` of length `w`. */
  lemma Ended(p: Text, s: Text, start: nat, at: nat, w: nat, result: seq<nat>, words: seq<Text>)
    requires Untouched(p, s, start) && AllStand(p, result, words, start)
    requires start <= at && at + w <= |s| && w == WordLen(s[at..])
    ensures var p', start' := p[at + w := 0], at + w + 1;
            && Untouched(p', s, start') && AllStand(p', result, words, start')
            && (at < |s| ==> AllStand(p', result + [at], words + [s[at..at + w]], start'))
  {
    hide WordLen, StandsAt;
    var p', start' := p[at + w := 0], at + w + 1;
    forall k | 0 <= k < |words|
      ensures StandsAt(p', result[k], words[k], start')
    {
      StandsStays(p, p', result[k], words[k], start, start');
    }
    if start' <= |s| {
      assert p'[start'..|s|] == p[start'..|s|];
    }
    if at < |s| {
      NewStands(p, s, at, w);
    }
  }

  /** What comes after the round. */
  lemma ComingNext(s: Text, start: nat, at: nat, w: nat)
    requires start <= at <= |s| && at == start + Spaces(s[start..])
    requires at + w <= |s| && w == WordLen(s[at..])
    ensures at == |s| ==> Coming(s, start) == [] && w == 0 && Coming(s, at + w + 1) == []
    ensures at < |s| ==> Coming(s, start) == [s[at..at + w]] + Coming(s, at + w + 1)
  {
    hide Split, Spaces, WordLen;
    SplitAt(s, start, at);
  }

  lemma NewStands(p: Text, s: Text, at: nat, w: nat)
    requires at + w <= |s| < |p| && p[at..|s|] == s[at..] && 0 !in s
    ensures StandsAt(p[at + w := 0], at, s[at..at + w], at + w + 1)
  {
    assert p[at + w := 0][at..at + w] == p[at..|s|][..w];
    assert s[at..][..w] == s[at..at + w];
    var t := s[at..at + w];
    forall i | 0 <= i < w
      ensures t[i] != 0
    {
      assert t[i] == s[at + i] && s[at + i] in s;
    }
  }

  /** Before the options are looked at: the words stored, the flag, and what they lead to. */
  ghost predicate Stored(p: Text, s: Text, start: nat, result: seq<nat>, words: seq<Text>,
                         cpFlag: bool, path: ClassPath, maxNum: nat)
  {
    && Untouched(p, s, start) && AllStand(p, result, words, start) && |result| <= maxNum
    && (var st := Settle(words, cpFlag, path);
        && (st.Failed? || Settled(st))
        && ParseFrom(st, Coming(s, start), maxNum) == Parse(Split(s), maxNum))
  }

  /** A round that finds a word. */
  lemma FoundWord(p: Text, s: Text, start: nat, at: nat, w: nat, result: seq<nat>, st: Parsed, maxNum: nat)
    requires Standing(p, s, start, result, st, maxNum) && start <= at < |s| && at == start + Spaces(s[start..])
    requires at + w <= |s| && w == WordLen(s[at..])
    ensures |result| >= maxNum ==> Parse(Split(s), maxNum) == Failed
    ensures |result| < maxNum ==>
              Stored(p[at + w := 0], s, at + w + 1, result + [at], st.words + [s[at..at + w]],
                     st.cpFlag, st.path, maxNum)
  {
    hide Split, Spaces, WordLen, Untouched, AllStand, Settled, Settle, Coming;
    var word := s[at..at + w];
    ComingNext(s, start, at, w);
    Ended(p, s, start, at, w, result, st.words);
    SettledStays(st, word, maxNum);
    SameCount(p, result, st.words, start);
    var more := Coming(s, at + w + 1);
    assert ([word] + more)[0] == word && ([word] + more)[1..] == more;
    if |result| >= maxNum {
      FailedStays(more, maxNum);
    }
  }

  /** The round over trailing blanks. */
  lemma FoundNothing(p: Text, s: Text, start: nat, result: seq<nat>, st: Parsed, maxNum: nat)
    requires Standing(p, s, start, result, st, maxNum) && start < |s| && |s| == start + Spaces(s[start..])
    ensures |s| < |p| && WordLen(s[|s|..]) == 0
    ensures Stored(p[|s| := 0], s, |s| + 1, result, st.words, st.cpFlag, st.path, maxNum)
  {
    hide Split, Spaces, WordLen, AllStand, Settled, Settle, Coming;
    ComingNext(s, start, |s|, 0);
    Ended(p, s, start, |s|, 0, result, st.words);
    SettledStays(st, [], maxNum);
  }

  lemma SameCount(p: Text, result: seq<nat>, words: seq<Text>, limit: nat)
    requires AllStand(p, result, words, limit)
    ensures |result| == |words|
  {
  }

  /** Reading the last word back. */
  lemma LastWord(p: Text, result: seq<nat>, words: seq<Text>, limit: nat)
    requires AllStand(p, result, words, limit) && result != []
    ensures var n := |result| - 1;
            && |words| == n + 1 && result[n] <= |p| && CString(p[result[n]..]) == words[n]
            && AllStand(p, result[..n], words[..n], limit)
  {
    hide StandsAt;
    var n := |result| - 1;
    assert StandsAt(p, result[n], words[n], limit);
    StandsPlace(p, result[n], words[n], limit);
    StandsRead(p, result[n], words[n], limit);
  }

  lemma StandsPlace(p: Text, at: nat, t: Text, limit: nat)
    requires StandsAt(p, at, t, limit)
    ensures at <= |p|
  {
  }

  lemma Finish(p: Text, s: Text, start: nat, result: seq<nat>, st: Parsed, maxNum: nat)
    requires Standing(p, s, start, result, st, maxNum) && start >= |s|
    ensures Parse(Split(s), maxNum) == st && |result| == |st.words|
    ensures forall k :: 0 <= k < |result| ==> result[k] <= |p| && CString(p[result[k]..]) == st.words[k]
  {
    hide StandsAt, Split, CString, Parse;
    NothingComing(s, start);
    forall k | 0 <= k < |result|
      ensures result[k] <= |p| && CString(p[result[k]..]) == st.words[k]
    {
      assert StandsAt(p, result[k], st.words[k], start);
      StandsPlace(p, result[k], st.words[k], start);
      StandsRead(p, result[k], st.words[k], start);
    }
  }

  lemma NothingComing(s: Text, start: nat)
    requires start >= |s|
    ensures Coming(s, start) == []
  {
    if start == |s| {
      SplitNone(s[start..]);
    }
  }

  lemma ByteOf(s: Text, at: nat)
    requires at < |s| && 0 !in s
    ensures s[at] != 0
  {
  }

  lemma FromLater(p: Text, s: Text, start: nat, at: nat)
    requires start <= at <= |s| < |p| && p[start..|s|] == s[start..]
    ensures p[at..|s|] == s[at..] && (at < |s| ==> p[at] == s[at])
  {
    assert p[at..|s|] == p[start..|s|][at - start..];
    assert s[at..] == s[start..][at - start..];
    assert at < |s| ==> p[at..|s|][0] == p[at] && s[at..][0] == s[at];
  }

  lemma Open(p: Text, s: Text, start: nat, result: seq<nat>, st: Parsed, maxNum: nat)
    requires Standing(p, s, start, result, st, maxNum) && start < |s|
    ensures |s| < |p| && p[|s|] == 0 && 0 !in s && p[start..|s|] == s[start..]
    ensures st.Parsed? && |result| <= maxNum
    ensures forall at :: start <= at <= |s| ==> p[at..|s|] == s[at..] && (p[at] != 0 <==> at < |s|)
  {
    forall at | start <= at <= |s|
      ensures p[at..|s|] == s[at..] && (p[at] != 0 <==> at < |s|)
    {
      FromLater(p, s, start, at);
      if at < |s| {
        ByteOf(s, at);
      }
    }
  }

  /** The options, looked at after every round: the option itself is not kept, and when a
      class path is awaited the last word kept becomes it. */
  method TakeOptions(param: array<byte>, places: seq<nat>, cpBefore: bool, pathBefore: ClassPath, maxNum: nat,
                     ghost s: Text, ghost start: nat, ghost words: seq<Text>)
    returns (ok: bool, result: seq<nat>, cpFlag: bool, path: ClassPath)
    requires Stored(param[..], s, start, places, words, cpBefore, pathBefore, maxNum)
    ensures ok <==> Settle(words, cpBefore, pathBefore).Parsed?
    ensures !ok ==> Parse(Split(s), maxNum) == Failed
    ensures ok ==>
              && Settle(words, cpBefore, pathBefore) == Parsed(Settle(words, cpBefore, pathBefore).words, cpFlag, path)
              && Standing(param[..], s, start, result, Settle(words, cpBefore, pathBefore), maxNum)
  {
    hide Split, Coming, Untouched, AllStand, Settled, IsCp, Parse, CString;
    ok, result, cpFlag, path := true, places, cpBefore, pathBefore;
    ghost var kept := words;
    SameCount(param[..], places, words, start);
    if |result| > 0 {
      LastWord(param[..], result, kept, start);
      if IsCp(CString(param[result[|result| - 1]..])) {
        cpFlag := true;
        result, kept := result[..|result| - 1], kept[..|kept| - 1];
      }
    }
    if cpFlag && |result| > 0 {
      LastWord(param[..], result, kept, start);
      var name := CString(param[result[|result| - 1]..]);
      if |name| >= PATH_MAX {
        FailedStays(Coming(s, start), maxNum);
        return false, result, cpFlag, path;
      }
      path := Path(name);
      result, kept := result[..|result| - 1], kept[..|kept| - 1];
      cpFlag := false;
    }
  }

  /** The parameters of the string, in place: every result is where one of the words kept
      now stands as a C string of its own. Too many words, or a class path that is too long,
      are an error. */
  method ParseParam(param: array?<byte>, maxNum: nat) returns (ret: int, result: seq<nat>, path: ClassPath)
    requires param != null ==> 0 in param[..]
    modifies param
    ensures param == null ==> ret == 0 && result == [] && path == NoPath
    ensures param != null ==>
              var st := Parse(Split(CString(old(param[..]))), maxNum);
              && ret == (if st.Failed? then EFAULT else 0)
              && (ret == 0 ==> path == st.path && |result| == |st.words| && forall k :: 0 <= k < |result| ==>
                    result[k] <= param.Length && CString(param[result[k]..]) == st.words[k])
  {
    hide Split, Spaces, WordLen, Standing, Stored, StandsAt, IsSpace, CString, Parse, Settle, Settled;
    result, path := [], NoPath;
    if param == null {
      return 0, result, path;
    }
    ghost var s, st := CString(param[..]), NOTHING;
    Start(param[..], maxNum);
    CStringLength(param[..]);
    var start, end, cpFlag := 0, |CString(param[..])|, false;
    while start < end
      invariant end == |s| && Standing(param[..], s, start, result, st, maxNum)
      invariant st.Parsed? && st == Parsed(st.words, cpFlag, path)
    {
      ghost var p, words := param[..], st.words;
      Open(p, s, start, result, st, maxNum);
      var at := SkipSpaces(param, start, s);
      assert param[at..|s|] == p[at..|s|];
      if param[at] != 0 {
        FoundWord(p, s, start, at, WordLen(s[at..]), result, st, maxNum);
        if |result| >= maxNum {
          return EFAULT, result, path;
        }
        words := words + [s[at..at + WordLen(s[at..])]];
        result := result + [at];
      } else {
        FoundNothing(p, s, start, result, st, maxNum);
      }
      var tmplen := FindEnd(param, at, s);
      param[at + tmplen] := 0;
      start := at + tmplen + 1;
      assert param[..] == p[at + tmplen := 0];
      var ok;
      st := Settle(words, cpFlag, path);
      ok, result, cpFlag, path := TakeOptions(param, result, cpFlag, path, maxNum, s, start, words);
      if !ok {
        return EFAULT, result, path;
      }
    }
    Finish(param[..], s, start, result, st, maxNum);
    assert forall k :: 0 <= k < |result| ==> param[..][result[k]..] == param[result[k]..];
    return 0, result, path;
  }

  // Joining.

  /** An entry of the argument vector. */
  datatype CArg = Null | Str(text: Text)

  function Given(argv: seq<CArg>): seq<Text>
  {
    if argv == [] then []
    else (if argv[0].Null? then [] else [argv[0].text]) + Given(argv[1..])
  }

  lemma {:induction false} GivenBoth(a: seq<CArg>, b: seq<CArg>)
    ensures Given(a + b) == Given(a) + Given(b)
  {
    hide Given;
    NoneGiven();
    if a == [] {
      assert a + b == b;
    } else {
      GivenBoth(a[1..], b);
      assert (a + b)[1..] == a[1..] + b && (a + b)[0] == a[0];
      FirstGiven(a + b);
      FirstGiven(a);
    }
  }

  lemma {:induction false} FirstGiven(argv: seq<CArg>)
    requires argv != []
    ensures Given(argv) == (if argv[0].Null? then [] else [argv[0].text]) + Given(argv[1..])
  {
  }

  lemma {:induction false} GivenOne(a: CArg)
    ensures Given([a]) == if a.Null? then [] else [a.text]
  {
    assert [a][1..] == [] && Given([]) == [];
  }

  /** The arguments that are there, each once and in order. */
  lemma GivenExact(before: seq<CArg>, a: CArg, after: seq<CArg>)
    ensures Given(before + [a] + after) == Given(before) + (if a.Null? then [] else [a.text]) + Given(after)
    ensures Given([]) == []
  {
    hide Given;
    GivenBoth(before + [a], after);
    GivenBoth(before, [a]);
    GivenOne(a);
    NoneGiven();
  }

  lemma NoneGiven()
    ensures Given([]) == []
  {
  }

  /** The words with a space behind each of them. */
  function Trail(ts: seq<Text>): Text
  {
    if ts == [] then [] else ts[0] + [32] + Trail(ts[1..])
  }

  /** The words with a space between them. */
  function Join(ts: seq<Text>): Text
  {
    if ts == [] then [] else if |ts| == 1 then ts[0] else ts[0] + [32] + Join(ts[1..])
  }

  /** One space between any two of them, and nothing else. */
  lemma {:induction false} JoinExact(a: seq<Text>, t: Text, b: seq<Text>)
    requires a != [] && b != []
    ensures Join(a + b) == Join(a) + [32] + Join(b) && Join([t]) == t && Join([]) == []
  {
    if |a| == 1 {
      assert (a + b)[1..] == b;
    } else {
      JoinExact(a[1..], t, b);
      assert (a + b)[1..] == a[1..] + b;
      assert a[0] + [32] + (Join(a[1..]) + [32] + Join(b)) == a[0] + [32] + Join(a[1..]) + [32] + Join(b);
    }
  }

  predicate LengthsOk(ts: seq<Text>) { forall i :: 0 <= i < |ts| ==> 0 < |ts[i]| < 4096 }

  lemma {:induction false} TrailIsJoin(ts: seq<Text>)
    requires ts != []
    ensures Trail(ts) == Join(ts) + [32]
  {
    if |ts| == 1 {
      assert Trail(ts[1..]) == [];
    } else {
      TrailIsJoin(ts[1..]);
    }
  }

  /** Joined words split into the same words again. */
  lemma {:induction false} JoinSplits(ts: seq<Text>)
    requires Words(ts)
    ensures Split(Join(ts)) == ts
  {
    hide Split, Word;
    if ts == [] {
      SplitNone([]);
    } else if |ts| == 1 {
      SplitFirst([], ts[0], []);
      SplitNone([]);
      assert [] + ts[0] + [] == ts[0];
    } else {
      JoinSplits(ts[1..]);
      var rest := [32] + Join(ts[1..]);
      SplitFirst([], ts[0], rest);
      SkipOne(rest);
      assert [] + ts[0] + rest == Join(ts) && rest[1..] == Join(ts[1..]);
    }
  }

  /** What the receiver of the buffer gets when it splits the string again. */
  lemma JoinedReadsBack(ts: seq<Text>, k: nat)
    requires Words(ts) && k > 0 && 0 !in Join(ts)
    ensures Split(CString(Join(ts) + Zeros(k))) == ts
  {
    hide Split, Join;
    JoinSplits(ts);
    assert forall i :: 0 <= i < |Join(ts)| ==> (Join(ts) + Zeros(k))[i] in Join(ts);
    CStringIs(Join(ts) + Zeros(k), |Join(ts)|);
    assert (Join(ts) + Zeros(k))[..|Join(ts)|] == Join(ts);
  }

  /** strcat_s into a cleared buffer that starts with `done`. */
  method Strcat(buf: array<byte>, src: Text, ghost done: Text) returns (ok: bool)
    requires |done| < buf.Length && 0 !in done && buf[..] == done + Zeros(buf.Length - |done|)
    modifies buf
    ensures ok == (|done| + |src| < buf.Length)
    ensures ok ==> buf[..] == done + src + Zeros(buf.Length - |done| - |src|)
  {
    hide CString;
    CStringOfCleared(done, buf.Length - |done|);
    var len := |CString(buf[..])|;
    if len + |src| >= buf.Length {
      buf[0] := 0;
      return false;
    }
    Memcpy(buf, len, src);
    return true;
  }

  lemma CStringOfCleared(done: Text, k: nat)
    requires 0 !in done && k > 0
    ensures CString(done + Zeros(k)) == done
  {
    assert forall i :: 0 <= i < |done| ==> (done + Zeros(k))[i] in done;
    CStringIs(done + Zeros(k), |done|);
  }

  method TotalSize(argv: seq<CArg>) returns (ok: bool, totalSize: nat)
    ensures ok == LengthsOk(Given(argv))
    ensures ok ==> totalSize == |Trail(Given(argv))|
  {
    totalSize := 0;
    for i := 0 to |argv|
      invariant totalSize + |Trail(Given(argv[i..]))| == |Trail(Given(argv))|
      invariant LengthsOk(Given(argv)) <==> LengthsOk(Given(argv[i..]))
    {
      GivenStep(argv, i);
      if argv[i].Str? {
        if |argv[i].text| == 0 || |argv[i].text| >= 4096 {
          return false, totalSize;
        }
        totalSize := totalSize + |argv[i].text| + 1;
      }
    }
    assert argv[|argv|..] == [];
    return true, totalSize;
  }

  lemma GivenStep(argv: seq<CArg>, i: nat)
    requires i < |argv|
    ensures var more := Given(argv[i + 1..]);
            if argv[i].Null? then Given(argv[i..]) == more
            else
              && Trail(Given(argv[i..])) == argv[i].text + [32] + Trail(more)
              && (LengthsOk(Given(argv[i..])) <==> 0 < |argv[i].text| < 4096 && LengthsOk(more))
  {
    assert argv[i..][1..] == argv[i + 1..];
    if argv[i].Str? {
      var ts, more := Given(argv[i..]), Given(argv[i + 1..]);
      assert ts == [argv[i].text] + more && ts[1..] == more;
      assert LengthsOk(ts) ==> 0 < |ts[0]| < 4096 && forall j :: 0 <= j < |more| ==> more[j] == ts[j + 1];
    }
  }

  /** The last entry of the vector is not looked at. Joining fails at exactly the size of
      the buffer, because the space behind the last word still needs room for a zero. */
  method MakeArgs(argc: int, argv: seq<CArg>, xargs: array<byte>) returns (ret: int, size: nat)
    requires argc <= |argv| + 1 && (forall a <- argv :: a.Str? ==> 0 !in a.text)
    modifies xargs
    ensures var ts := Given(argv[..if argc > 0 then argc - 1 else 0]);
            && ret == (if ts != [] && LengthsOk(ts) && |Join(ts)| + 1 < xargs.Length then 0 else -1)
            && (ret == 0 ==> size == |Join(ts)| + 1 && xargs[..] == Join(ts) + Zeros(xargs.Length - |Join(ts)|))
  {
    hide Join, LengthsOk, Trail, Given;
    ghost var ts := Given(argv[..if argc > 0 then argc - 1 else 0]);
    size := xargs.Length;
    var args := argv[..if argc > 0 then argc - 1 else 0];
    var ok, totalSize := TotalSize(args);
    Totals(ts);
    if !ok || totalSize > xargs.Length || totalSize == 0 {
      return -1, size;
    }
    forall i | 0 <= i < xargs.Length {
      xargs[i] := 0;
    }
    ghost var done: Text := [];
    assert xargs[..] == done + Zeros(xargs.Length - |done|);
    for i := 0 to |args|
      invariant done + Trail(Given(args[i..])) == Trail(ts)
      invariant |done| < xargs.Length && 0 !in done && xargs[..] == done + Zeros(xargs.Length - |done|)
    {
      GivenStep(args, i);
      if args[i].Str? {
        assert args[i] in argv;
        var text := args[i].text;
        var fits := Strcat(xargs, text, done);
        if !fits {
          return -1, size;
        }
        done := done + text;
        fits := Strcat(xargs, [32], done);
        if !fits {
          return -1, size;
        }
        done := done + [32];
      }
    }
    TrailOfNone(args[|args|..]);
    assert done == Trail(ts);
    xargs[totalSize - 1] := 0;
    return 0, totalSize;
  }

  lemma Totals(ts: seq<Text>)
    ensures if ts == [] then Trail(ts) == [] else Trail(ts) == Join(ts) + [32] && |Trail(ts)| == |Join(ts)| + 1
  {
    if ts != [] {
      TrailIsJoin(ts);
    }
  }

  lemma TrailOfNone(argv: seq<CArg>)
    requires argv == []
    ensures Trail(Given(argv)) == []
  {
  }
}
