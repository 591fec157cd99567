/** The marshalling calls themselves: loops that move a byte offset through a buffer. */
module Serializer {
  import opened Bytes
  import opened Marshalling

  predicate OverflowCheck(a: nat, b: nat) { a > 0xFFFF_FFFF - b }

  /** It succeeds when no type is unknown and the sum stays below 2^32. */
  method CalculateBuffSize(args: seq<Arg>) returns (ret: int, size: nat)
    ensures ret == 0 || ret == EINVAL
    ensures ret == 0 <==> (forall a <- args :: !a.Unknown?) && 4 + CutTotal(args) < 0x1_0000_0000
    ensures ret == 0 ==> size == 4 + CutTotal(args)
  {
    hide CutSize;
    ret, size := 0, 4;
    for i := 0 to |args|
      invariant size < 0x1_0000_0000
      invariant size + CutTotal(args[i..]) == 4 + CutTotal(args)
      invariant forall a <- args[..i] :: !a.Unknown?
    {
      var a := args[i];
      assert args[i..][1..] == args[i + 1..];
      assert args[..i + 1] == args[..i] + [a];
      if a.Unknown? {
        assert a in args;
        return EINVAL, size;
      }
      var n := CutSize(a.Size());
      if OverflowCheck(16, n) || OverflowCheck(size, 16 + n) {
        return EINVAL, size;
      }
      size := size + 16 + n;
    }
    assert args[..|args|] == args;
  }

  /** Storing an `n`-byte integer. */
  method Store(dest: array<byte>, at: nat, v: nat, n: nat)
    requires at + n <= dest.Length
    modifies dest
    ensures dest[..] == Splice(old(dest[..]), at, LE(v, n))
  {
    hide LE;
    var bytes := LE(v, n);
    forall i | 0 <= i < n {
      dest[at + i] := bytes[i];
    }
  }

  lemma SpliceSplice(s: seq<byte>, at: nat, a: seq<byte>, b: seq<byte>)
    requires at + |a| + |b| <= |s|
    ensures Splice(Splice(s, at, a), at + |a|, b) == Splice(s, at, a + b)
  {
  }

  lemma Appended(was: seq<byte>, before: seq<byte>, offset: nat, part: seq<byte>, rest: seq<byte>)
    requires offset + |part| <= |before| == |was| && before[offset..] == was[offset..]
    ensures var after := Splice(before, offset, part);
            && after[..offset + |part|] + rest == before[..offset] + (part + rest)
            && after[offset + |part|..] == was[offset + |part|..]
  {
    var after := Splice(before, offset, part);
    assert after[..offset + |part|] == before[..offset] + part;
    assert after[offset + |part|..] == before[offset + |part|..];
    assert before[offset..][|part|..] == before[offset + |part|..];
    assert was[offset..][|part|..] == was[offset + |part|..];
  }

  method InterTypeSerialize(dest: array<byte>, offset: nat, value: nat) returns (ret: int)
    modifies dest
    ensures ret == if offset + 16 <= dest.Length then 0 else ENOMEM
    ensures dest[..] == if ret == 0 then Splice(old(dest[..]), offset, EncodeArg(Int(value))) else old(dest[..])
  {
    hide LE, Splice;
    if dest.Length < offset || dest.Length - offset < 16 {
      return ENOMEM;
    }
    SpliceSplice(dest[..], offset, LE(17, 8), LE(value, 8));
    assert EncodeArg(Int(value)) == LE(17, 8) + LE(value, 8);
    Store(dest, offset, 17, 8);
    Store(dest, offset + 8, value, 8);
    return 0;
  }

  /** The type is already written when the bytes turn out not to fit. */
  method PointTypeSerialize(dest: array<byte>, offset: nat, a: Arg) returns (ret: int)
    requires a.Ptr? || (a.NullPtr? && a.size == 0)
    modifies dest
    ensures ret == if dest.Length < offset + 16 || NoCopy(dest.Length - offset - 16, a.Size()) then ENOMEM else 0
    ensures ret == 0 ==> dest[..] == Splice(old(dest[..]), offset, EncodeArg(a))
  {
    hide LE, Splice;
    if dest.Length < offset || dest.Length - offset < 16 {
      return ENOMEM;
    }
    ghost var was, tag, size := dest[..], LE(18, 8), LE(a.Size(), 8);
    Store(dest, offset, 18, 8);
    if NoCopy(dest.Length - offset - 16, a.Size()) {
      return ENOMEM;
    }
    SpliceSplice(was, offset, tag, size);
    Store(dest, offset + 8, a.Size(), 8);
    SpliceSplice(was, offset, tag + size, a.Data());
    Memcpy(dest, offset + 16, a.Data());
    return 0;
  }

  lemma NextArg(args: seq<Arg>, i: nat, offset: nat, len: nat)
    requires i < |args|
    ensures EncodeArgs(args[i..]) == EncodeArg(args[i]) + EncodeArgs(args[i + 1..])
    ensures Code(args[i..], offset, len) ==
            if args[i].Unknown? || (args[i].NullPtr? && args[i].size != 0) then EINVAL
            else if len < offset || len - offset < 16 || NoCopy(len - offset - 16, args[i].Size()) then ENOMEM
            else Code(args[i + 1..], offset + 16 + args[i].Size(), len)
  {
    hide EncodeArg;
    assert args[i..][0] == args[i] && args[i..][1..] == args[i + 1..];
  }

  lemma NoMoreArgs(args: seq<Arg>, offset: nat, len: nat)
    ensures EncodeArgs(args[|args|..]) == [] && Code(args[|args|..], offset, len) == 0
  {
  }

  /** On success the buffer starts with the encoding and is otherwise untouched. */
  method Serialize(args: seq<Arg>, dest: array?<byte>) returns (ret: int)
    requires InRange(args) && (dest != null ==> dest.Length < 0x1_0000_0000)
    modifies dest
    ensures ret == if dest == null || dest.Length < 4 then EINVAL else Code(args, 4, dest.Length)
    ensures ret == 0 ==>
              && |Encode(args)| <= dest.Length
              && dest[..|Encode(args)|] == Encode(args)
              && dest[|Encode(args)|..] == old(dest[|Encode(args)|..])
  {
    hide LE, Splice, EncodeArg, EncodeArgs, Code;
    if dest == null || dest.Length < 4 {
      return EINVAL;
    }
    ghost var was := dest[..];
    Appended(was, was, 0, LE(|args|, 4), EncodeArgs(args));
    Store(dest, 0, |args|, 4);
    var offset := 4;
    for i := 0 to |args|
      invariant 4 <= offset <= dest.Length
      invariant Code(args[i..], offset, dest.Length) == Code(args, 4, dest.Length)
      invariant dest[..offset] + EncodeArgs(args[i..]) == Encode(args)
      invariant dest[offset..] == was[offset..]
    {
      var a := args[i];
      NextArg(args, i, offset, dest.Length);
      if a.Unknown? || (a.NullPtr? && a.size != 0) {
        return EINVAL;
      }
      ghost var before := dest[..];
      if a.Int? {
        ret := InterTypeSerialize(dest, offset, a.value);
      } else {
        ret := PointTypeSerialize(dest, offset, a);
      }
      if ret != 0 {
        return;
      }
      Appended(was, before, offset, EncodeArg(a), EncodeArgs(args[i + 1..]));
      offset := offset + 16 + a.Size();
    }
    NoMoreArgs(args, offset, dest.Length);
    assert dest[..offset] == Encode(args);
    return 0;
  }

  /** What one call has written through its result pointers. */
  method DeSerialize(src: array?<byte>, wants: seq<Want>) returns (reply: Reply)
    requires src != null ==> src.Length < 0x1_0000_0000
    ensures reply == if src == null then Reply(EINVAL, []) else Decode(src[..], wants)
  {
    hide UnLE, TypeIs, TooLong, NextOffset, Place, Field;
    if src == null || src.Length < 4 || UnLE(src[..4]) != |wants| {
      assert src != null && src.Length >= 4 ==> src[..][..4] == src[..4];
      return Reply(EINVAL, []);
    }
    assert src[..][..4] == src[..4];
    var offset, gots: seq<Got> := 4, [];
    for i := 0 to |wants|
      invariant DecodeArgs(src[..], 4, wants) == Behind(gots, DecodeArgs(src[..], offset, wants[i..]))
    {
      var want := wants[i];
      assert wants[i..][0] == want && wants[i..][1..] == wants[i + 1..];
      if want.WantUnknown? || want.WantNowhere? {
        return Reply(EINVAL, gots);
      }
      if src.Length < offset || src.Length - offset < 16 {
        return Reply(ENOMEM, gots);
      }
      if !TypeIs(Field(src[..], offset), want) {
        return Reply(EINVAL, gots);
      }
      var word := Field(src[..], offset + 8);
      if want.WantInt? {
        gots, offset := gots + [GotInt(word)], NextOffset(offset, 0);
      } else {
        if TooLong(src.Length, offset, word) {
          return Reply(ENOMEM, gots);
        }
        gots, offset := gots + [Place(offset, word)], NextOffset(offset, word);
      }
    }
    return Reply(0, gots);
  }

  function Behind(gots: seq<Got>, r: Reply): Reply { r.(gots := gots + r.gots) }
}
