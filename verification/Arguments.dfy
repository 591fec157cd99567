/** Command-line arguments: splitting a parameter string in place, and joining an
    argument vector into one string. */
module Arguments {
  import opened Bytes

  type Text = seq<byte>

  predicate IsSpace(b: byte) { b == 32 || 9 <= b <= 13 }

  /** The number of separators at the front, and the number of other bytes. */
  function Spaces(s: Text): (n: nat)
    ensures n <= |s| && (n < |s| ==> !IsSpace(s[n]))
  {
    if s == [] || !IsSpace(s[0]) then 0 else 1 + Spaces(s[1..])
  }

  function WordLen(s: Text): (n: nat)
    ensures n <= |s| && (s != [] && !IsSpace(s[0]) ==> n > 0)
  {
    if s == [] || IsSpace(s[0]) then 0 else 1 + WordLen(s[1..])
  }

  /** The words of a string. */
  function Split(s: Text): seq<Text>
    decreases |s|
  {
    var n := Spaces(s);
    if n == |s| then [] else
      var w := WordLen(s[n..]);
      [s[n..n + w]] + Split(s[n + w..])
  }

  predicate Blank(s: Text) { forall i :: 0 <= i < |s| ==> IsSpace(s[i]) }

  predicate Solid(s: Text) { forall i :: 0 <= i < |s| ==> !IsSpace(s[i]) }

  predicate Word(s: Text) { s != [] && Solid(s) }

  predicate Words(ts: seq<Text>) { forall i :: 0 <= i < |ts| ==> Word(ts[i]) }

  /** Words with separators around them. Only the first and the last separator may be
      empty; `first` says whether we are at the start. */
  predicate Separated(seps: seq<Text>, ts: seq<Text>, first: bool)
  {
    && |seps| == |ts| + 1 && Blank(seps[0])
    && (ts != [] ==> (first || seps[0] != []) && Separated(seps[1..], ts[1..], false))
  }

  function Weave(seps: seq<Text>, ts: seq<Text>): Text
    requires |seps| == |ts| + 1
  {
    if ts == [] then seps[0] else seps[0] + ts[0] + Weave(seps[1..], ts[1..])
  }

  lemma {:induction false} SpacesAre(a: Text, b: Text)
    requires Blank(a) && (b == [] || !IsSpace(b[0]))
    ensures Spaces(a + b) == |a|
  {
    if a == [] {
      assert a + b == b;
    } else {
      SpacesAre(a[1..], b);
      assert (a + b)[1..] == a[1..] + b;
    }
  }

  lemma {:induction false} WordIs(a: Text, b: Text)
    requires Solid(a) && (b == [] || IsSpace(b[0]))
    ensures WordLen(a + b) == |a|
  {
    if a == [] {
      assert a + b == b;
    } else {
      WordIs(a[1..], b);
      assert (a + b)[1..] == a[1..] + b;
    }
  }

  /** One word off the front. */
  lemma SplitFirst(sep: Text, t: Text, rest: Text)
    requires Blank(sep) && Word(t) && (rest == [] || IsSpace(rest[0]))
    ensures Split(sep + t + rest) == [t] + Split(rest)
  {
    hide Spaces, WordLen, IsSpace;
    var s, n := sep + t + rest, |sep|;
    assert s == sep + (t + rest) && s[n..] == t + rest;
    assert Word(t) ==> !IsSpace(t[0]);
    SpacesAre(sep, t + rest);
    WordIs(t, rest);
    assert s[n..n + |t|] == t && s[n + |t|..] == rest;
  }

  lemma SplitNone(sep: Text)
    requires Blank(sep)
    ensures Split(sep) == []
  {
    SpacesAre(sep, []);
    assert sep + [] == sep;
  }

  /** Splitting finds exactly the words, however they are separated. */
  lemma {:induction false} SplitExact(seps: seq<Text>, ts: seq<Text>, first: bool)
    requires Separated(seps, ts, first) && Words(ts)
    ensures Split(Weave(seps, ts)) == ts
    ensures first || Weave(seps, ts) == [] || IsSpace(Weave(seps, ts)[0])
    decreases |ts|
  {
    hide Split, IsSpace, Word;
    if ts == [] {
      SplitNone(seps[0]);
    } else {
      var rest := Weave(seps[1..], ts[1..]);
      SplitExact(seps[1..], ts[1..], false);
      SplitFirst(seps[0], ts[0], rest);
    }
  }

  lemma {:induction false} SpacesBlank(s: Text)
    ensures Blank(s[..Spaces(s)])
  {
    if s != [] && IsSpace(s[0]) {
      SpacesBlank(s[1..]);
      assert s[..Spaces(s)] == [s[0]] + s[1..][..Spaces(s[1..])];
    }
  }

  lemma {:induction false} WordSolid(s: Text)
    ensures Solid(s[..WordLen(s)]) && (WordLen(s) < |s| ==> IsSpace(s[WordLen(s)]))
  {
    if s != [] && !IsSpace(s[0]) {
      WordSolid(s[1..]);
      assert s[..WordLen(s)] == [s[0]] + s[1..][..WordLen(s[1..])];
    }
  }

  lemma FirstWord(s: Text)
    requires Spaces(s) < |s|
    ensures var n, w := Spaces(s), WordLen(s[Spaces(s)..]);
            && Blank(s[..n]) && Word(s[n..n + w]) && Split(s) == [s[n..n + w]] + Split(s[n + w..])
            && (n + w < |s| ==> IsSpace(s[n + w])) && s == s[..n] + s[n..n + w] + s[n + w..]
            && (IsSpace(s[0]) ==> n > 0)
  {
    hide Spaces, WordLen, Blank, Solid, IsSpace;
    var n, w := Spaces(s), WordLen(s[Spaces(s)..]);
    SpacesBlank(s);
    WordSolid(s[n..]);
    Slicing(s, n, w);
    assert IsSpace(s[0]) ==> n > 0;
  }

  lemma Slicing(s: Text, n: nat, w: nat)
    requires n + w <= |s|
    ensures s == s[..n] + s[n..n + w] + s[n + w..] && s[n..][..w] == s[n..n + w]
    ensures n + w < |s| ==> s[n..][w] == s[n + w]
  {
  }

  lemma WeaveCons(sep: Text, t: Text, seps: seq<Text>, ts: seq<Text>, first: bool)
    requires Blank(sep) && Word(t) && Words(ts) && Separated(seps, ts, false) && (first || sep != [])
    ensures Words([t] + ts) && Separated([sep] + seps, [t] + ts, first)
    ensures Weave([sep] + seps, [t] + ts) == sep + t + Weave(seps, ts)
  {
    hide Word, Blank;
    assert ([sep] + seps)[1..] == seps && ([t] + ts)[1..] == ts;
  }

  /** Every string is a separation of its words. */
  lemma {:induction false} SplitSound(s: Text, first: bool) returns (seps: seq<Text>)
    requires first || s == [] || IsSpace(s[0])
    ensures Words(Split(s)) && Separated(seps, Split(s), first) && Weave(seps, Split(s)) == s
    decreases |s|
  {
    hide Spaces, WordLen, IsSpace, Word, Words, Split, Weave, Separated;
    var n := Spaces(s);
    if n == |s| {
      seps := [s];
      OnlyBlank(s, first);
    } else {
      var w := WordLen(s[n..]);
      FirstWord(s);
      var more := SplitSound(s[n + w..], false);
      seps := [s[..n]] + more;
      WeaveCons(s[..n], s[n..n + w], more, Split(s[n + w..]), first);
    }
  }

  lemma OnlyBlank(s: Text, first: bool)
    requires Spaces(s) == |s|
    ensures Split(s) == [] && Words([]) && Separated([s], [], first) && Weave([s], []) == s
  {
    SpacesBlank(s);
    assert s[..|s|] == s;
  }

  // What becomes of the words: -cp and -classpath set the class path aside.

  const CP: Text := [45, 99, 112]
  const CLASSPATH: Text := [45, 99, 108, 97, 115, 115, 112, 97, 116, 104]
  const PATH_MAX: nat := 4096

  predicate IsCp(t: Text) { t == CP || t == CLASSPATH }

  datatype ClassPath = NoPath | Path(text: Text)

  /** The parameters kept so far, whether a class path is awaited, and the one found. */
  datatype Parsed = Failed | Parsed(words: seq<Text>, cpFlag: bool, path: ClassPath)

  /** The word just stored may be the option itself; when one is awaited, the last word
      kept is taken for the class path. */
  function Settle(words: seq<Text>, cpFlag: bool, path: ClassPath): Parsed
  {
    var n := |words|;
    var option := n > 0 && IsCp(words[n - 1]);
    var kept := if option then words[..n - 1] else words;
    if (cpFlag || option) && kept != [] then
      if |kept[|kept| - 1]| >= PATH_MAX then Failed else Parsed(kept[..|kept| - 1], false, Path(kept[|kept| - 1]))
    else Parsed(kept, cpFlag || option, path)
  }

  function TakeWord(st: Parsed, word: Text, maxNum: nat): Parsed
  {
    if st.Failed? || |st.words| >= maxNum then Failed else Settle(st.words + [word], st.cpFlag, st.path)
  }

  function ParseFrom(st: Parsed, words: seq<Text>, maxNum: nat): Parsed
    decreases |words|
  {
    if words == [] then st else ParseFrom(TakeWord(st, words[0], maxNum), words[1..], maxNum)
  }

  const NOTHING := Parsed([], false, NoPath)

  function Parse(words: seq<Text>, maxNum: nat): Parsed { ParseFrom(NOTHING, words, maxNum) }

  /** Between two words: an option never stays, and it is awaiting only at the start. */
  predicate Settled(st: Parsed)
  {
    st.Parsed? && (st.cpFlag ==> st.words == []) && forall i :: 0 <= i < |st.words| ==> !IsCp(st.words[i])
  }

  lemma SettledStays(st: Parsed, word: Text, maxNum: nat)
    requires Settled(st)
    ensures TakeWord(st, word, maxNum).Failed? || Settled(TakeWord(st, word, maxNum))
    ensures Settle(st.words, st.cpFlag, st.path) == st
  {
    hide IsCp;
  }

  lemma {:induction false} FailedStays(words: seq<Text>, maxNum: nat)
    ensures ParseFrom(Failed, words, maxNum) == Failed
    decreases |words|
  {
    if words != [] {
      FailedStays(words[1..], maxNum);
    }
  }

  /** None of the words is an option. */
  predicate Plain(words: seq<Text>) { forall i :: 0 <= i < |words| ==> words[i] != CP && words[i] != CLASSPATH }

  lemma {:induction false} PlainFrom(st: Parsed, words: seq<Text>, maxNum: nat)
    requires Settled(st) && !st.cpFlag && Plain(words)
    ensures ParseFrom(st, words, maxNum) ==
            if words != [] && |st.words| + |words| > maxNum then Failed else st.(words := st.words + words)
    decreases |words|
  {
    if words != [] {
      var st' := TakeWord(st, words[0], maxNum);
      if |st.words| < maxNum {
        assert st' == st.(words := st.words + [words[0]]);
        PlainFrom(st', words[1..], maxNum);
        assert st.words + [words[0]] + words[1..] == st.words + words;
      } else {
        FailedStays(words[1..], maxNum);
      }
    } else {
      assert st.words + [] == st.words;
    }
  }

  /** Without the options the words themselves are the parameters, and more than maxNum of
      them are an error. */
  lemma PlainParse(words: seq<Text>, maxNum: nat)
    requires Plain(words)
    ensures Parse(words, maxNum) == if |words| > maxNum then Failed else Parsed(words, false, NoPath)
  {
    PlainFrom(NOTHING, words, maxNum);
    assert [] + words == words;
  }

  lemma {:induction false} ParseBoth(st: Parsed, a: seq<Text>, b: seq<Text>, maxNum: nat)
    ensures ParseFrom(st, a + b, maxNum) == ParseFrom(ParseFrom(st, a, maxNum), b, maxNum)
    decreases |a|
  {
    hide TakeWord;
    if a == [] {
      assert a + b == b;
    } else {
      ParseBoth(TakeWord(st, a[0], maxNum), a[1..], b, maxNum);
      assert (a + b)[1..] == a[1..] + b;
    }
  }

  lemma {:induction false} OneWord(st: Parsed, word: Text, maxNum: nat)
    ensures ParseFrom(st, [word], maxNum) == TakeWord(st, word, maxNum)
  {
    hide TakeWord;
    assert [word][1..] == [];
  }

  lemma NoWords(st: Parsed, maxNum: nat)
    ensures ParseFrom(st, [], maxNum) == st
  {
  }

  lemma OptionTaken(before: seq<Text>, option: Text, maxNum: nat)
    requires IsCp(option) && |before| < maxNum && (before != [] ==> |before[|before| - 1]| < PATH_MAX)
    ensures var n := |before|;
            TakeWord(Parsed(before, false, NoPath), option, maxNum) ==
            if n > 0 then Parsed(before[..n - 1], false, Path(before[n - 1])) else Parsed([], true, NoPath)
  {
    hide IsCp;
    assert (before + [option])[..|before|] == before;
  }

  lemma PathTaken(word: Text, maxNum: nat)
    requires !IsCp(word) && |word| < PATH_MAX && maxNum > 0
    ensures TakeWord(Parsed([], true, NoPath), word, maxNum) == Parsed([], false, Path(word))
  {
    hide IsCp;
    assert [] + [word] == [word] && [word][..0] == [];
  }

  /** One option among the words: it takes the word after it only when it comes first;
      otherwise the class path is the word before it. */
  lemma OneOption(before: seq<Text>, option: Text, after: seq<Text>, maxNum: nat)
    requires Plain(before) && (option == CP || option == CLASSPATH) && Plain(after)
    requires |before| + 1 + |after| <= maxNum
    requires before != [] ==> |before[|before| - 1]| < PATH_MAX
    requires before == [] && after != [] ==> |after[0]| < PATH_MAX
    ensures var n := |before|;
            Parse(before + [option] + after, maxNum) ==
            if n > 0 then Parsed(before[..n - 1] + after, false, Path(before[n - 1]))
            else if after != [] then Parsed(after[1..], false, Path(after[0]))
            else Parsed([], true, NoPath)
  {
    hide ParseFrom, TakeWord;
    var n := |before|;
    ParseBoth(NOTHING, before + [option], after, maxNum);
    ParseBoth(NOTHING, before, [option], maxNum);
    PlainParse(before, maxNum);
    OneWord(Parsed(before, false, NoPath), option, maxNum);
    OptionTaken(before, option, maxNum);
    if n > 0 {
      PlainFrom(Parsed(before[..n - 1], false, Path(before[n - 1])), after, maxNum);
    } else if after != [] {
      assert [after[0]] + after[1..] == after;
      ParseBoth(Parsed([], true, NoPath), [after[0]], after[1..], maxNum);
      OneWord(Parsed([], true, NoPath), after[0], maxNum);
      PathTaken(after[0], maxNum);
      PlainFrom(Parsed([], false, Path(after[0])), after[1..], maxNum);
      assert [] + after[1..] == after[1..];
    } else {
      NoWords(Parsed([], true, NoPath), maxNum);
    }
  }

  lemma OptionFails(words: seq<Text>, option: Text, maxNum: nat)
    requires (option == CP || option == CLASSPATH) && words != [] && |words[|words| - 1]| >= 4096
    ensures TakeWord(Parsed(words, false, NoPath), option, maxNum) == Failed
  {
    assert (words + [option])[..|words|] == words;
  }

  lemma PathFails(path: Text, maxNum: nat)
    requires path != CP && path != CLASSPATH && |path| >= 4096
    ensures TakeWord(Parsed([], true, NoPath), path, maxNum) == Failed
  {
    assert [] + [path] == [path];
  }

  /** A class path of 4096 bytes or more is an error, on whichever side of the option it is. */
  lemma LongPathFails(before: seq<Text>, option: Text, path: Text, maxNum: nat)
    requires Plain(before + [path]) && (option == CP || option == CLASSPATH) && |before| + 2 <= maxNum
    requires |path| >= 4096
    ensures Parse(before + [path] + [option], maxNum) == Failed
    ensures Parse([option] + [path], maxNum) == Failed
  {
    hide ParseFrom, TakeWord;
    ParseBoth(NOTHING, before + [path], [option], maxNum);
    PlainParse(before + [path], maxNum);
    OneWord(Parsed(before + [path], false, NoPath), option, maxNum);
    OptionFails(before + [path], option, maxNum);
    ParseBoth(NOTHING, [option], [path], maxNum);
    OneWord(NOTHING, option, maxNum);
    OptionTaken([], option, maxNum);
    OneWord(Parsed([], true, NoPath), path, maxNum);
    assert (before + [path])[|before|] == path;
    PathFails(path, maxNum);
  }
}
