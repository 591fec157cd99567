/** The wire format of marshalled calls: a 32-bit count, then for every argument a
    64-bit type and either a 64-bit value or a 64-bit size followed by the bytes. */
module Marshalling {
  import opened Bytes

  const EINVAL := -22
  const ENOMEM := -12

  /** An argument as the caller passes it; `NullPtr` is a null address with a size. */
  datatype Arg = Int(value: nat) | Ptr(data: seq<byte>) | NullPtr(size: nat) | Unknown
  {
    /** The size argument of a pointer. */
    function Size(): nat { match this case Ptr(d) => |d| case NullPtr(n) => n case _ => 0 }

    function Data(): seq<byte> { if Ptr? then data else [] }

    /** The two 64-bit words that head the argument. */
    function Tag(): nat { if Int? then 17 else 18 }

    function Word(): nat { if Int? then value else Size() }

    predicate Encodable() {
      Word() < 0x1_0000_0000_0000_0000 && !Unknown? && (NullPtr? ==> size == 0)
    }

    function Type(): Want { if Int? then WantInt else WantPtr }

    /** The same argument with the two spellings of "no bytes" identified. */
    function Plain(): Arg { if NullPtr? then Ptr([]) else this }
  }

  // Little-endian integers.

  function LE(v: nat, n: nat): (s: seq<byte>)
    ensures |s| == n
  {
    if n == 0 then [] else [v % 256] + LE(v / 256, n - 1)
  }

  function UnLE(s: seq<byte>): nat
  {
    if s == [] then 0 else s[0] + 256 * UnLE(s[1..])
  }

  function Range(n: nat): nat
  {
    if n == 0 then 1 else 256 * Range(n - 1)
  }

  lemma {:induction false} LERoundTrip(v: nat, n: nat)
    requires v < Range(n)
    ensures UnLE(LE(v, n)) == v
  {
    if n > 0 {
      LERoundTrip(v / 256, n - 1);
    }
  }

  lemma Ranges()
    ensures Range(4) == 0x1_0000_0000 && Range(8) == 0x1_0000_0000_0000_0000
  {
    assert Range(1) == 0x100 && Range(2) == 0x1_0000 && Range(3) == 0x100_0000;
    assert Range(5) == 0x100_0000_0000 && Range(6) == 0x1_0000_0000_0000 && Range(7) == 0x100_0000_0000_0000;
  }

  // Encoding.

  function EncodeArg(a: Arg): (s: seq<byte>)
    ensures |s| == 16 + |a.Data()|
  {
    LE(a.Tag(), 8) + LE(a.Word(), 8) + a.Data()
  }

  function EncodeArgs(args: seq<Arg>): seq<byte>
  {
    if args == [] then [] else EncodeArg(args[0]) + EncodeArgs(args[1..])
  }

  function Encode(args: seq<Arg>): seq<byte>
  {
    LE(|args|, 4) + EncodeArgs(args)
  }

  predicate Encodable(args: seq<Arg>)
  {
    args == [] || (args[0].Encodable() && Encodable(args[1..]))
  }

  /** memcpy_s refuses bytes without room for them, and also a room above its limit of
      2^31 - 1 bytes (ISO/IEC 9899:2011, section K.3.7.1.1). */
  predicate NoCopy(room: nat, size: nat) { size != 0 && (room < size || room >= 0x8000_0000) }

  /** How Serialize ends for the arguments from byte `offset` on. */
  function Code(args: seq<Arg>, offset: nat, len: nat): int
  {
    if args == [] then 0
    else if args[0].Unknown? || (args[0].NullPtr? && args[0].size != 0) then EINVAL
    else if len < offset || len - offset < 16 || NoCopy(len - offset - 16, args[0].Size()) then ENOMEM
    else Code(args[1..], offset + 16 + args[0].Size(), len)
  }

  /** Integers come in 64 bits, and no address range is longer than that. */
  predicate InRange(args: seq<Arg>)
  {
    forall a <- args :: a.Word() < 0x1_0000_0000_0000_0000
  }

  /** Behind every argument with bytes the room is one that memcpy_s takes. */
  predicate RoomsOk(args: seq<Arg>, offset: nat, len: nat)
  {
    args == [] || ((args[0].Size() == 0 || len - offset - 16 < 0x8000_0000)
                   && RoomsOk(args[1..], offset + 16 + args[0].Size(), len))
  }

  lemma {:induction false} SmallRooms(args: seq<Arg>, offset: nat, len: nat)
    requires len < 0x8000_0000
    ensures RoomsOk(args, offset, len)
  {
    if args != [] {
      SmallRooms(args[1..], offset + 16 + args[0].Size(), len);
    }
  }

  /** It succeeds exactly when every argument can be encoded, the buffer is at least as
      long as the encoding, and, for a buffer of 2^31 bytes or more, the first bytes to be
      copied are not further away from its end than that. */
  lemma {:induction false} FitsExactly(args: seq<Arg>, offset: nat, len: nat)
    requires InRange(args) && offset <= len
    ensures Code(args, offset, len) == 0 <==>
              Encodable(args) && offset + |EncodeArgs(args)| <= len && RoomsOk(args, offset, len)
    ensures len < 0x8000_0000 ==> RoomsOk(args, offset, len)
  {
    if len < 0x8000_0000 {
      SmallRooms(args, offset, len);
    }
    hide LE;
    if args != [] && args[0].Encodable() && 16 + args[0].Size() <= len - offset {
      FitsExactly(args[1..], offset + 16 + args[0].Size(), len);
    }
  }

  /** The first argument that does not pass decides how it fails: with -EINVAL for an unknown
      type or a null pointer with a size, with -ENOMEM when there is no room for it. */
  lemma {:induction false} FirstFailure(args: seq<Arg>, offset: nat, len: nat, i: nat)
    requires i < |args| && Code(args[..i], offset, len) == 0
    ensures var a, at := args[i], offset + |EncodeArgs(args[..i])|;
            var bad := a.Unknown? || (a.NullPtr? && a.size != 0);
            && (bad ==> Code(args, offset, len) == -22)
            && (!bad && (len < at + 16 || NoCopy(len - at - 16, a.Size())) ==> Code(args, offset, len) == -12)
  {
    hide EncodeArg;
    if i > 0 {
      var a := args[0];
      assert args[..i][0] == a && args[..i][1..] == args[1..][..i - 1];
      FirstFailure(args[1..], offset + 16 + a.Size(), len, i - 1);
      SizeOfOne(a);
    }
  }

  lemma SizeOfOne(a: Arg)
    ensures !a.Unknown? && (a.NullPtr? ==> a.size == 0) ==> |EncodeArg(a)| == 16 + a.Size()
  {
  }

  // The size computation.

  /** What CalculateBuffSize adds up for the arguments: each size is cut to 32 bits. */
  function CutSize(n: nat): (c: nat)
    ensures c <= n && (c == n <==> n < 0x1_0000_0000)
  {
    n % 0x1_0000_0000
  }

  function CutTotal(args: seq<Arg>): nat
  {
    if args == [] then 0 else 16 + CutSize(args[0].Size()) + CutTotal(args[1..])
  }

  /** The reported size is the encoded size exactly when no pointer argument reaches
      2^32 bytes; otherwise it is too small. */
  lemma {:induction false} SizeExact(args: seq<Arg>)
    requires Encodable(args)
    ensures 4 + CutTotal(args) <= |Encode(args)|
    ensures 4 + CutTotal(args) == |Encode(args)| <==> forall a <- args :: a.Size() < 0x1_0000_0000
  {
    hide LE, CutSize;
    if args != [] {
      SizeExact(args[1..]);
      assert forall a :: a in args <==> a == args[0] || a in args[1..];
    }
  }

  // Decoding.

  datatype Want = WantInt | WantPtr | WantNowhere | WantUnknown

  /** A pointer result is a place in the buffer, or null when the size is zero. */
  datatype Got = GotInt(value: nat) | GotPtr(offset: nat, size: nat) | GotNull
  {
    predicate Inside(buf: seq<byte>) { GotPtr? ==> offset + size <= |buf| }

    /** What the caller reads through the result. */
    function Fetch(buf: seq<byte>): Arg
      requires Inside(buf)
    {
      match this
      case GotInt(v) => Int(v)
      case GotPtr(o, n) => Ptr(buf[o..o + n])
      case GotNull => Ptr([])
    }
  }

  datatype Reply = Reply(code: int, gots: seq<Got>)
  {
    function After(g: Got): Reply { this.(gots := [g] + gots) }
  }

  function Field(buf: seq<byte>, at: nat): nat
    requires at + 8 <= |buf|
  {
    UnLE(buf[at..at + 8])
  }

  /** A type word is read through a 32-bit enumeration. */
  predicate TypeIs(word: nat, want: Want) { word % 0x1_0000_0000 == (if want.WantInt? then 17 else 18) }

  /** The bytes needed are added up in 64 bits, the running offset in 32. */
  predicate TooLong(len: nat, offset: nat, size: nat) { len < (offset + 16 + size) % 0x1_0000_0000_0000_0000 }

  function NextOffset(offset: nat, size: nat): nat { (offset + 16 + size) % 0x1_0000_0000 }

  function Place(offset: nat, size: nat): Got { if size != 0 then GotPtr(offset + 16, size) else GotNull }

  function DecodeArgs(buf: seq<byte>, offset: nat, wants: seq<Want>): Reply
    decreases |wants|
  {
    if wants == [] then Reply(0, [])
    else if wants[0].WantUnknown? || wants[0].WantNowhere? then Reply(EINVAL, [])
    else if |buf| < offset || |buf| - offset < 16 then Reply(ENOMEM, [])
    else if !TypeIs(Field(buf, offset), wants[0]) then Reply(EINVAL, [])
    else
      var word := Field(buf, offset + 8);
      if wants[0].WantInt? then
        DecodeArgs(buf, NextOffset(offset, 0), wants[1..]).After(GotInt(word))
      else if TooLong(|buf|, offset, word) then Reply(ENOMEM, [])
      else
        DecodeArgs(buf, NextOffset(offset, word), wants[1..]).After(Place(offset, word))
  }

  function Decode(buf: seq<byte>, wants: seq<Want>): Reply
  {
    if |buf| < 4 || UnLE(buf[..4]) != |wants| then Reply(EINVAL, []) else DecodeArgs(buf, 4, wants)
  }

  /** The type list the caller has to ask with, and what it gets. */
  function Types(args: seq<Arg>): (ws: seq<Want>)
    ensures |ws| == |args|
  {
    if args == [] then [] else [args[0].Type()] + Types(args[1..])
  }

  function First(a: Arg, offset: nat): Got { if a.Int? then GotInt(a.value) else Place(offset, a.Size()) }

  function Expected(args: seq<Arg>, offset: nat): (gs: seq<Got>)
    ensures |gs| == |args|
  {
    if args == [] then [] else [First(args[0], offset)] + Expected(args[1..], offset + 16 + args[0].Size())
  }

  lemma FieldAt(pre: seq<byte>, v: nat, post: seq<byte>)
    requires v < 0x1_0000_0000_0000_0000
    ensures Field(pre + LE(v, 8) + post, |pre|) == v
  {
    hide LE, UnLE, Range;
    Ranges();
    LERoundTrip(v, 8);
    assert (pre + LE(v, 8) + post)[|pre|..|pre| + 8] == LE(v, 8);
  }

  lemma Regroup(a: seq<byte>, b: seq<byte>, c: seq<byte>, d: seq<byte>, e: seq<byte>)
    ensures a + (b + c + d) + e == a + b + (c + d + e)
    ensures a + (b + c + d) + e == (a + b) + c + (d + e)
  {
  }

  lemma ArgFields(pre: seq<byte>, a: Arg, post: seq<byte>)
    requires a.Encodable()
    ensures Field(pre + EncodeArg(a) + post, |pre|) == a.Tag()
    ensures Field(pre + EncodeArg(a) + post, |pre| + 8) == a.Word()
  {
    hide LE, Field;
    var t, w, d := LE(a.Tag(), 8), LE(a.Word(), 8), a.Data();
    Regroup(pre, t, w, d, post);
    FieldAt(pre, a.Tag(), w + d + post);
    FieldAt(pre + t, a.Word(), d + post);
  }

  lemma Reassociate(a: seq<byte>, b: seq<byte>, c: seq<byte>, d: seq<byte>)
    ensures a + (b + c) + d == a + b + (c + d)
    ensures a + (b + c) + d == (a + b) + c + d
  {
  }

  /** Words below 2^32 survive every cut. */
  lemma NoCut(len: nat, offset: nat, size: nat)
    requires len < 0x1_0000_0000 && offset + 16 + size <= len
    ensures !TooLong(len, offset, size) && NextOffset(offset, size) == offset + 16 + size
  {
  }

  lemma TypeSeen(a: Arg, want: Want)
    requires want.WantInt? || want.WantPtr?
    ensures TypeIs(a.Tag(), want) <==> a.Int? == want.WantInt?
  {
  }

  lemma Consed<T>(x: T, xs: seq<T>, ys: seq<T>)
    requires ys != []
    ensures ys == [x] + xs <==> ys[0] == x && ys[1..] == xs
  {
    assert ys == [ys[0]] + ys[1..];
    assert ([x] + xs)[1..] == xs;
  }

  lemma DecodeStep(buf: seq<byte>, offset: nat, wants: seq<Want>, a: Arg)
    requires wants != [] && a.Encodable() && offset + 16 + a.Size() <= |buf| < 0x1_0000_0000
    requires Field(buf, offset) == a.Tag() && Field(buf, offset + 8) == a.Word()
    ensures var next := DecodeArgs(buf, offset + 16 + a.Size(), wants[1..]);
            && (DecodeArgs(buf, offset, wants).code == 0 <==> wants[0] == a.Type() && next.code == 0)
            && (wants[0] == a.Type() ==> DecodeArgs(buf, offset, wants) == next.After(First(a, offset)))
  {
    hide Field, TypeIs, TooLong, NextOffset, Place;
    NoCut(|buf|, offset, a.Size());
    if wants[0].WantInt? || wants[0].WantPtr? {
      TypeSeen(a, wants[0]);
    }
  }

  lemma {:induction false} FirstOfAll(args: seq<Arg>, offset: nat)
    ensures args == [] ==> EncodeArgs(args) == [] && Types(args) == [] && Expected(args, offset) == []
    ensures args != [] ==>
              && EncodeArgs(args) == EncodeArg(args[0]) + EncodeArgs(args[1..])
              && Types(args) == [args[0].Type()] + Types(args[1..])
              && Expected(args, offset) == [First(args[0], offset)] + Expected(args[1..], offset + 16 + args[0].Size())
  {
    hide EncodeArg, First;
  }

  /** Decoding from where the encoding of `args` starts in a larger buffer: it works
      exactly with the list of types that was encoded. */
  lemma {:induction false} DecodeInside(pre: seq<byte>, args: seq<Arg>, post: seq<byte>, wants: seq<Want>)
    requires Encodable(args) && |pre + EncodeArgs(args) + post| < 0x1_0000_0000 && |wants| == |args|
    ensures DecodeArgs(pre + EncodeArgs(args) + post, |pre|, wants).code == 0 <==> wants == Types(args)
    ensures wants == Types(args) ==>
              DecodeArgs(pre + EncodeArgs(args) + post, |pre|, wants).gots == Expected(args, |pre|)
    decreases |args|
  {
    hide EncodeArg, EncodeArgs, Field, First, DecodeArgs, Types, Expected;
    FirstOfAll(args, |pre|);
    if args == [] {
      EmptyDecode(pre + EncodeArgs(args) + post, |pre|);
    } else {
      var a, rest := args[0], EncodeArgs(args[1..]);
      Reassociate(pre, EncodeArg(a), rest, post);
      ArgFields(pre, a, rest + post);
      DecodeStep(pre + EncodeArgs(args) + post, |pre|, wants, a);
      Consed(a.Type(), Types(args[1..]), wants);
      DecodeInside(pre + EncodeArg(a), args[1..], post, wants[1..]);
    }
  }

  lemma EmptyDecode(buf: seq<byte>, offset: nat)
    ensures DecodeArgs(buf, offset, []) == Reply(0, [])
  {
  }

  lemma {:induction false} CountFits(args: seq<Arg>)
    ensures 16 * |args| <= |EncodeArgs(args)|
  {
    hide EncodeArg;
    if args != [] {
      CountFits(args[1..]);
    }
  }

  /** The round trip: from a buffer that holds an encoding, decoding succeeds with the
      same list of types and with no other list or count, and then returns every
      integer and, in order, the place of every non-empty byte string. */
  lemma RoundTrip(args: seq<Arg>, junk: seq<byte>, wants: seq<Want>)
    requires Encodable(args) && |Encode(args) + junk| < 0x1_0000_0000
    ensures Decode(Encode(args) + junk, wants).code == 0 <==> wants == Types(args)
    ensures wants == Types(args) ==> Decode(Encode(args) + junk, wants).gots == Expected(args, 4)
  {
    hide LE, UnLE, Range, EncodeArgs, DecodeArgs, Types, Expected;
    CountFits(args);
    Ranges();
    LERoundTrip(|args|, 4);
    assert (Encode(args) + junk)[..4] == LE(|args|, 4);
    if |wants| == |args| {
      DecodeInside(LE(|args|, 4), args, junk, wants);
    }
  }

  lemma DataInside(pre: seq<byte>, a: Arg, post: seq<byte>)
    ensures (pre + EncodeArg(a) + post)[|pre| + 16..|pre| + 16 + |a.Data()|] == a.Data()
  {
    hide LE;
    var head := LE(a.Tag(), 8) + LE(a.Word(), 8);
    assert pre + EncodeArg(a) + post == (pre + head) + a.Data() + post;
  }

  /** Reading through the results gives the arguments back. */
  lemma {:induction false} PlacesHold(pre: seq<byte>, args: seq<Arg>, post: seq<byte>, i: nat)
    requires Encodable(args) && i < |args|
    ensures var buf, g := pre + EncodeArgs(args) + post, Expected(args, |pre|)[i];
            && g.Inside(buf) && g.Fetch(buf) == args[i].Plain()
            && (g.GotNull? <==> args[i].Plain() == Ptr([]))
    decreases i
  {
    hide EncodeArg, EncodeArgs, Expected;
    FirstOfAll(args, |pre|);
    var a, rest := args[0], EncodeArgs(args[1..]);
    Reassociate(pre, EncodeArg(a), rest, post);
    if i == 0 {
      DataInside(pre, a, rest + post);
    } else {
      PlacesHold(pre + EncodeArg(a), args[1..], post, i - 1);
    }
  }

  lemma {:induction false} PlacesAhead(args: seq<Arg>, offset: nat, j: nat)
    requires j < |args|
    ensures Expected(args, offset)[j].GotPtr? ==> Expected(args, offset)[j].offset >= offset + 16
    decreases j
  {
    if j > 0 {
      PlacesAhead(args[1..], offset + 16 + args[0].Size(), j - 1);
    }
  }

  /** The places are pairwise disjoint and in argument order. */
  lemma {:induction false} PlacesOrdered(args: seq<Arg>, offset: nat, i: nat, j: nat)
    requires i < j < |args| && Expected(args, offset)[i].GotPtr? && Expected(args, offset)[j].GotPtr?
    ensures Expected(args, offset)[i].offset + Expected(args, offset)[i].size + 16 <= Expected(args, offset)[j].offset
    decreases i
  {
    var next := offset + 16 + args[0].Size();
    if i == 0 {
      PlacesAhead(args[1..], next, j - 1);
    } else {
      PlacesOrdered(args[1..], next, i - 1, j - 1);
    }
  }

  /** Serialize, then ask for the right types: every argument comes back. */
  lemma EndToEnd(args: seq<Arg>, junk: seq<byte>, i: nat)
    requires Encodable(args) && |Encode(args) + junk| < 0x1_0000_0000 && i < |args|
    ensures var buf, r := Encode(args) + junk, Decode(Encode(args) + junk, Types(args));
            r.code == 0 && |r.gots| == |args| && r.gots[i].Inside(buf) && r.gots[i].Fetch(buf) == args[i].Plain()
  {
    hide LE, UnLE, Range, EncodeArgs, DecodeArgs, Types, Expected;
    RoundTrip(args, junk, Types(args));
    PlacesHold(LE(|args|, 4), args, junk, i);
  }

  // Buffers from anywhere.

  /** A single result that is a place. */
  lemma PlaceInside(buf: seq<byte>, offset: nat, size: nat)
    requires |buf| < 0x1_0000_0000 && offset + 16 <= |buf| && !TooLong(|buf|, offset, size)
    ensures Place(offset, size).Inside(buf) <==> offset + 16 + size < 0x1_0000_0000_0000_0000
  {
    if offset + 16 + size < 0x1_0000_0000_0000_0000 {
      assert (offset + 16 + size) % 0x1_0000_0000_0000_0000 == offset + 16 + size;
    }
  }

  /** A type word that is too long counts by its low half. */
  lemma TypeIsExact(word: nat, want: Want)
    ensures TypeIs(word, want) <==> exists k: nat :: word == 0x1_0000_0000 * k + (if want.WantInt? then 17 else 18)
  {
    assert word == 0x1_0000_0000 * (word / 0x1_0000_0000) + word % 0x1_0000_0000;
  }

  /** How decoding fails at a field: nothing more is handed out, with -ENOMEM when bytes are
      missing and -EINVAL when the type is another one or an unknown one is wanted. */
  lemma DecodeErrors(buf: seq<byte>, offset: nat, wants: seq<Want>)
    requires wants != []
    ensures var want, r := wants[0], DecodeArgs(buf, offset, wants);
            if want.WantUnknown? || want.WantNowhere? then r == Reply(-22, [])
            else if |buf| < offset + 16 then r == Reply(-12, [])
            else if !TypeIs(Field(buf, offset), want) then r == Reply(-22, [])
            else if want.WantPtr? && TooLong(|buf|, offset, Field(buf, offset + 8)) then r == Reply(-12, [])
            else r.gots != []
  {
    hide Field, TypeIs, TooLong, NextOffset, Place;
  }

  /** Walking the fields as far as decoding does: no pointer's size, added up in 64 bits,
      wraps around. */
  predicate SizesFit(buf: seq<byte>, offset: nat, wants: seq<Want>)
    decreases |wants|
  {
    if wants == [] || wants[0].WantUnknown? || wants[0].WantNowhere? then true
    else if |buf| < offset || |buf| - offset < 16 || !TypeIs(Field(buf, offset), wants[0]) then true
    else
      var word := Field(buf, offset + 8);
      if wants[0].WantInt? then SizesFit(buf, NextOffset(offset, 0), wants[1..])
      else if TooLong(|buf|, offset, word) then true
      else offset + 16 + word < 0x1_0000_0000_0000_0000 && SizesFit(buf, NextOffset(offset, word), wants[1..])
  }

  lemma AllOfCons(g: Got, gots: seq<Got>, buf: seq<byte>)
    ensures (forall h <- [g] + gots :: h.Inside(buf)) <==> g.Inside(buf) && forall h <- gots :: h.Inside(buf)
  {
    assert g in [g] + gots && forall h :: h in [g] + gots <==> h == g || h in gots;
  }

  lemma {:induction false} PlacesInside(buf: seq<byte>, offset: nat, wants: seq<Want>)
    requires |buf| < 0x1_0000_0000
    ensures (forall g <- DecodeArgs(buf, offset, wants).gots :: g.Inside(buf)) <==> SizesFit(buf, offset, wants)
    decreases |wants|
  {
    hide Field, TooLong, NextOffset, TypeIs, Place;
    if wants != [] && offset + 16 <= |buf| {
      var word := Field(buf, offset + 8);
      var g := if wants[0].WantInt? then GotInt(word) else Place(offset, word);
      var next := NextOffset(offset, if wants[0].WantInt? then 0 else word);
      PlacesInside(buf, next, wants[1..]);
      AllOfCons(g, DecodeArgs(buf, next, wants[1..]).gots, buf);
      if !TooLong(|buf|, offset, word) {
        PlaceInside(buf, offset, word);
      }
    }
  }

  /** Whatever the buffer holds and however decoding ends: all places that are handed out
      lie inside the buffer exactly when the count is wrong, so that there are none, or no
      size on the way wraps around 64 bits. */
  lemma PlacesInsideExact(buf: seq<byte>, wants: seq<Want>)
    requires |buf| < 0x1_0000_0000
    ensures (forall g <- Decode(buf, wants).gots :: g.Inside(buf)) <==>
              |buf| < 4 || UnLE(buf[..4]) != |wants| || SizesFit(buf, 4, wants)
  {
    hide DecodeArgs, UnLE, SizesFit;
    PlacesInside(buf, 4, wants);
  }

  /** A buffer of 20 bytes whose one place ends outside. */
  lemma WrappingPlaceExample()
    ensures var size := 0xFFFF_FFFF_FFFF_FFEC;
            var buf := LE(1, 4) + LE(18, 8) + LE(size, 8);
            |buf| == 20 && Decode(buf, [WantPtr]) == Reply(0, [GotPtr(20, size)]) && !GotPtr(20, size).Inside(buf)
  {
    hide LE, UnLE, Field, Range, DecodeArgs;
    var size := 0xFFFF_FFFF_FFFF_FFEC;
    var a, b, c := LE(1, 4), LE(18, 8), LE(size, 8);
    Ranges();
    LERoundTrip(1, 4);
    assert (a + b + c)[..4] == a;
    FieldAt(a, 18, c);
    FieldAt(a + b, size, []);
    assert a + b + c + [] == a + b + c;
    WrappedStep(a + b + c, size);
  }

  lemma WrappedStep(buf: seq<byte>, size: nat)
    requires |buf| == 20 && size == 0xFFFF_FFFF_FFFF_FFEC && Field(buf, 4) == 18 && Field(buf, 12) == size
    ensures DecodeArgs(buf, 4, [WantPtr]) == Reply(0, [GotPtr(20, size)])
  {
    hide Field;
    EmptyDecode(buf, NextOffset(4, size));
    assert [WantPtr][1..] == [];
  }
}
