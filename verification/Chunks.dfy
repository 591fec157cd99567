/** Large buffers sent in chunks: the first chunk creates the package, later ones fill
    it in any order, a send hands the whole buffer over and a receive reads it back
    piece by piece. */
module Chunks {
  import opened Bytes
  import opened Packages

  /** What a data argument or a reply points at. */
  datatype Data = Null | Slice(bytes: seq<byte>)

  /** The arguments of one send. `data` is what can be read from the address on, up to the
      end of the argument buffer; how much of it is meant comes separately in `blkSz`. */
  datatype Chunk = Chunk(totalLen: nat, data: Data, offset: nat, blkSz: nat)
  {
    /** memcpy_s refuses sizes above its limit (ISO/IEC 9899:2011, section K.3.7.1.1). */
    predicate Copyable() { blkSz < 0x8000_0000 }

    /** What is read ends inside the argument buffer. */
    predicate InReach() { data.Slice? && Copyable() ==> blkSz <= |data.bytes| }
  }

  /** What memcpy_s leaves in the destination: without a source it stores zeros. */
  function Copied(c: Chunk): (bytes: seq<byte>)
    requires c.InReach()
    ensures |bytes| == if c.Copyable() then c.blkSz else 0
  {
    if !c.Copyable() then [] else if c.data.Null? then Zeros(c.blkSz) else c.data.bytes[..c.blkSz]
  }

  /** How a send ends. Of one that reads beyond the argument buffer nothing else is said. */
  datatype SendResult = Done(code: int) | OutOfReach

  /** A 64-bit size returned through an int. */
  function AsInt(n: nat): int
  {
    var low := n % 0x1_0000_0000;
    if low < 0x8000_0000 then low else low - 0x1_0000_0000
  }

  /** The int with the same low 32 bits. */
  lemma AsIntExact(n: nat)
    ensures -0x8000_0000 <= AsInt(n) < 0x8000_0000 && (AsInt(n) - n) % 0x1_0000_0000 == 0
  {
  }

  const FAILED := -1

  function WriteAt(s: Store, h: Handle, offset: nat, bytes: seq<byte>): Store
    requires h in s.heap && offset + |bytes| <= |s.heap[h].buff|
  {
    s.(heap := s.heap[h := s.heap[h].(buff := Splice(s.heap[h].buff, offset, bytes))])
  }

  function InsertFirstPkg(s: Store, key: Key, c: Chunk, nowUs: nat): (Store, SendResult)
  {
    if c.data.Null? || c.totalLen < c.blkSz || !c.Copyable() then (s, Done(FAILED))
    else if !c.InReach() then (s, OutOfReach)
    else
      var (t, ok) := PutPkg(s, key, Splice(Zeros(c.totalLen), 0, Copied(c)), nowUs);
      (t, Done(if ok then c.blkSz else FAILED))
  }

  /** PkgSendWork: borrow, check, copy, return. */
  function PkgSend(s: Store, key: Key, c: Chunk, nowUs: nat): (Store, SendResult)
  {
    if c.offset == 0 then InsertFirstPkg(s, key, c, nowUs)
    else
      var f := Search(s.heap, s.list, key);
      if f.Nowhere? then (s, Done(FAILED))
      else
        var t := RefPkg(s, f.h);
        var len := |t.heap[f.h].buff|;
        if c.totalLen != len || c.offset > len then (Deref(t, f.h), Done(FAILED))
        else if len - c.offset < c.blkSz then (Deref(t, f.h), Done(FAILED))
        else if !c.InReach() then (Deref(t, f.h), OutOfReach)
        else (Deref(WriteAt(t, f.h, c.offset, Copied(c)), f.h), Done(AsInt(c.blkSz)))
  }

  /** PkgRecvWork; the reply goes into a buffer of `argsSz` bytes. */
  function PkgRecv(s: Store, key: Key, totalLen: nat, offset: nat, blkSz: nat, argsSz: nat): (Store, Data)
  {
    var f := Search(s.heap, s.list, key);
    if f.Nowhere? then (s, Null)
    else
      var t := RefPkg(s, f.h);
      var buff := t.heap[f.h].buff;
      if totalLen > |buff| || offset > 0xFFFF_FFFF_FFFF_FFFF - blkSz || offset + blkSz > |buff|
      then (Deref(t, f.h), Null)
      else if blkSz > argsSz then (Deref(t, f.h), Null)
      else (Deref(t, f.h), Slice(buff[offset..offset + blkSz]))
  }

  /** NetSendtoWork with a package: what goes to sendto, and both releases. The second one
      finds the package only because nobody comes between here. */
  function NetSendto(s: Store, key: Key, len: nat): (Store, Data)
  {
    var f := Search(s.heap, s.list, key);
    if f.Nowhere? then (s, Null)
    else
      var t := Deref(RefPkg(s, f.h), f.h);
      (if f.h in t.heap then Deref(t, f.h) else t,
       if len == |s.heap[f.h].buff| then Slice(s.heap[f.h].buff) else Null)
  }

  /** What recvfrom returns: an error, or the bytes it stored, none at the end of data. */
  datatype Received = RecvError | RecvData(bytes: seq<byte>)
  {
    predicate Empty() { RecvError? || bytes == [] }

    function Result(): int { if RecvError? then FAILED else |bytes| }
  }

  function ReleaseByIndex(s: Store, key: Key): Store
  {
    var f := Search(s.heap, s.list, key);
    if f.Nowhere? then s else Deref(s, f.h)
  }

  /** NetRecvfromWork with a package: the new buffer, `room` as malloc left it, is listed
      first and filled then; without data it is taken off again. */
  function NetRecvfrom(s: Store, key: Key, room: seq<byte>, got: Received, nowUs: nat): (Store, int)
    requires got.RecvData? ==> |got.bytes| <= |room|
  {
    var (t, ok) := PutPkg(s, key, room, nowUs);
    if !ok then (s, FAILED)
    else if got.Empty() then (ReleaseByIndex(t, key), got.Result())
    else (WriteAt(t, s.next, 0, got.bytes), got.Result())
  }

  // What one call does.

  predicate Accepts(len: nat, c: Chunk)
  {
    c.offset != 0 && c.totalLen == len && c.offset + c.blkSz <= len
  }

  /** A first chunk is copied before its key is looked up, a later one when it is accepted. */
  predicate Overreads(len: nat, c: Chunk)
  {
    !c.InReach() && if c.offset == 0 then c.blkSz <= c.totalLen else Accepts(len, c)
  }

  /** A chunk for an existing package writes its own range and nothing else; every
      rejected chunk, a repeated first chunk included, changes nothing at all. */
  lemma SendEffect(s: Store, h: Handle, c: Chunk, nowUs: nat)
    requires WellFormed(s) && h in s.heap
    ensures var (t, r) := PkgSend(s, s.heap[h].key, c, nowUs);
            if Overreads(|s.heap[h].buff|, c) then r == OutOfReach
            else if Accepts(|s.heap[h].buff|, c)
            then r == Done(AsInt(c.blkSz)) && t == WriteAt(s, h, c.offset, Copied(c))
            else r == Done(FAILED) && t == s
  {
    hide WellFormed, Search, Splice, Copied, AsInt, InsertFirstPkg;
    SearchUnique(s, h);
    Bounds(s);
    if c.offset == 0 {
      FirstAgain(s, h, c, nowUs);
    } else {
      Returned(s, h);
      if Accepts(|s.heap[h].buff|, c) && c.InReach() {
        WriteBorrowed(s, h, c.offset, Copied(c));
        Returned(WriteAt(s, h, c.offset, Copied(c)), h);
      }
    }
  }

  lemma Returned(s: Store, h: Handle)
    requires h in s.heap && s.heap[h].refCnt >= 1
    ensures Deref(RefPkg(s, h), h) == s
  {
    assert Deref(RefPkg(s, h), h).heap == s.heap;
  }

  lemma FirstAgain(s: Store, h: Handle, c: Chunk, nowUs: nat)
    requires WellFormed(s) && h in s.heap
    ensures InsertFirstPkg(s, s.heap[h].key, c, nowUs) ==
            (s, if c.data.Slice? && c.blkSz <= c.totalLen && !c.InReach() then OutOfReach else Done(FAILED))
  {
    hide WellFormed, Search, Splice, Copied, PutPkg;
    SearchUnique(s, h);
    if c.data.Slice? && c.blkSz <= c.totalLen && c.InReach() && c.Copyable() {
      KeyInUse(s, s.heap[h].key, Splice(Zeros(c.totalLen), 0, Copied(c)), nowUs);
    }
  }

  /** The code never compares the size with the data argument. A send reads beyond it
      exactly when a copyable size exceeds it and either belongs to a first chunk that fits
      its own total, or to a later one that a listed package accepts. */
  lemma OutOfReachExact(s: Store, key: Key, c: Chunk, nowUs: nat)
    requires WellFormed(s)
    ensures PkgSend(s, key, c, nowUs).1 == OutOfReach <==>
              && c.data.Slice? && |c.data.bytes| < c.blkSz < 0x8000_0000
              && if c.offset == 0 then c.blkSz <= c.totalLen
                 else exists h :: h in s.heap && s.heap[h].key == key && Accepts(|s.heap[h].buff|, c)
  {
    hide WellFormed, Search, Deref, AsInt, Splice, Copied;
    if h :| h in s.heap && s.heap[h].key == key {
      SendEffect(s, h, c, nowUs);
      forall g | g in s.heap && s.heap[g].key == key
        ensures g == h
      {
        SearchUnique(s, g);
        SearchUnique(s, h);
      }
    } else {
      Unlisted(s, key);
    }
  }

  lemma WriteBorrowed(s: Store, h: Handle, offset: nat, bytes: seq<byte>)
    requires h in s.heap && offset + |bytes| <= |s.heap[h].buff|
    ensures WriteAt(RefPkg(s, h), h, offset, bytes) == RefPkg(WriteAt(s, h, offset, bytes), h)
  {
    hide Splice;
    assert WriteAt(RefPkg(s, h), h, offset, bytes).heap == RefPkg(WriteAt(s, h, offset, bytes), h).heap;
  }

  lemma WriteWellFormed(s: Store, h: Handle, offset: nat, bytes: seq<byte>)
    requires WellFormed(s) && h in s.heap && offset + |bytes| <= |s.heap[h].buff|
    ensures WellFormed(WriteAt(s, h, offset, bytes))
  {
  }

  /** A later chunk without data but with a size below 2^31 is accepted like any other:
      it clears its range and is reported as sent. */
  lemma NullChunkClears(s: Store, h: Handle, c: Chunk, nowUs: nat)
    requires WellFormed(s) && h in s.heap && c.data.Null? && c.Copyable() && Accepts(|s.heap[h].buff|, c)
    ensures var (t, r) := PkgSend(s, s.heap[h].key, c, nowUs);
            && r == Done(c.blkSz) && h in t.heap && |t.heap[h].buff| == |s.heap[h].buff|
            && forall p :: 0 <= p < |s.heap[h].buff| ==>
                 t.heap[h].buff[p] == if Covers(c, p) then 0 else s.heap[h].buff[p]
  {
    hide WellFormed, PkgSend;
    SendEffect(s, h, c, nowUs);
  }

  // Many chunks.

  function SendAll(s: Store, key: Key, cs: seq<Chunk>, nowUs: nat): Store
  {
    if cs == [] then s else PkgSend(SendAll(s, key, cs[..|cs| - 1], nowUs), key, cs[|cs| - 1], nowUs).0
  }

  predicate Covers(c: Chunk, p: nat)
  {
    c.offset <= p < c.offset + c.blkSz
  }

  /** What the chunk delivers is its range of the source. */
  predicate IsSlice(c: Chunk, src: seq<byte>)
  {
    c.offset + c.blkSz <= |src| && c.InReach() && Copied(c) == src[c.offset..c.offset + c.blkSz]
  }

  /** Some accepted chunk wrote position `p`. */
  predicate Written(len: nat, cs: seq<Chunk>, p: nat)
  {
    exists i :: 0 <= i < |cs| && Accepts(len, cs[i]) && Covers(cs[i], p)
  }

  /** In any order, with repetitions and overlaps and rejected ones between: when every
      accepted chunk is a slice of the source, each position that the first or an
      accepted chunk covers holds the source's byte and every other is unchanged. */
  lemma {:induction false} Reassembly(s: Store, h: Handle, cs: seq<Chunk>, src: seq<byte>, nowUs: nat)
    requires WellFormed(s) && h in s.heap && |s.heap[h].buff| == |src|
    requires forall i :: 0 <= i < |cs| && Accepts(|src|, cs[i]) ==> IsSlice(cs[i], src)
    ensures var t := SendAll(s, s.heap[h].key, cs, nowUs);
            && WellFormed(t) && h in t.heap && t.list == s.list
            && t.heap[h] == s.heap[h].(buff := t.heap[h].buff) && |t.heap[h].buff| == |src|
            && forall p :: 0 <= p < |src| ==>
                 t.heap[h].buff[p] == if Written(|src|, cs, p) then src[p] else s.heap[h].buff[p]
  {
    if cs != [] {
      hide WellFormed, PkgSend, Copied, Splice, Written;
      var n, c := |cs| - 1, cs[|cs| - 1];
      Reassembly(s, h, cs[..n], src, nowUs);
      var t0 := SendAll(s, s.heap[h].key, cs[..n], nowUs);
      SendEffect(t0, h, c, nowUs);
      if Accepts(|src|, c) && c.InReach() {
        WriteWellFormed(t0, h, c.offset, Copied(c));
      }
      var t := SendAll(s, s.heap[h].key, cs, nowUs);
      forall p | 0 <= p < |src|
        ensures t.heap[h].buff[p] == if Written(|src|, cs, p) then src[p] else s.heap[h].buff[p]
      {
        WrittenSnoc(|src|, cs, p);
        OneWrite(t0.heap[h].buff, c, src, p);
      }
    }
  }

  lemma WrittenSnoc(len: nat, cs: seq<Chunk>, p: nat)
    requires cs != []
    ensures var n := |cs| - 1;
            Written(len, cs, p) <==> Written(len, cs[..n], p) || (Accepts(len, cs[n]) && Covers(cs[n], p))
  {
    var n := |cs| - 1;
    if Written(len, cs[..n], p) {
      var i :| 0 <= i < n && Accepts(len, cs[..n][i]) && Covers(cs[..n][i], p);
      assert cs[i] == cs[..n][i];
    }
    if i :| 0 <= i < n && Accepts(len, cs[i]) && Covers(cs[i], p) {
      assert cs[i] == cs[..n][i];
    }
  }

  lemma OneWrite(buff: seq<byte>, c: Chunk, src: seq<byte>, p: nat)
    requires |buff| == |src| && p < |src| && (Accepts(|src|, c) ==> IsSlice(c, src))
    ensures Accepts(|src|, c) ==>
              Splice(buff, c.offset, Copied(c))[p] == if Covers(c, p) then src[p] else buff[p]
  {
    if Accepts(|src|, c) && Covers(c, p) {
      hide Copied;
      var r := Splice(buff, c.offset, Copied(c));
      assert r[c.offset..c.offset + |Copied(c)|][p - c.offset] == r[p];
    }
  }

  /** The whole transfer: a first chunk at offset 0 and any further ones that together
      cover the source give a package from which a send of that length sends exactly
      the source, and the package is then gone. Positions never sent stay zero. */
  lemma Transfer(s: Store, key: Key, src: seq<byte>, first: Chunk, cs: seq<Chunk>, nowUs: nat)
    requires WellFormed(s) && forall h :: h in s.heap ==> s.heap[h].key != key
    requires first.offset == 0 && first.totalLen == |src| && first.data.Slice? && IsSlice(first, src)
    requires forall i :: 0 <= i < |cs| && Accepts(|src|, cs[i]) ==> IsSlice(cs[i], src)
    ensures var t := SendAll(PkgSend(s, key, first, nowUs).0, key, cs, nowUs);
            var (u, sent) := NetSendto(t, key, |src|);
            && PkgSend(s, key, first, nowUs).1 == Done(first.blkSz)
            && sent.Slice? && |sent.bytes| == |src|
            && (forall p :: 0 <= p < |src| ==>
                  sent.bytes[p] == if Covers(first, p) || Written(|src|, cs, p) then src[p] else 0)
            && s.next !in u.heap && s.next in u.freed
  {
    var s1, h := PkgSend(s, key, first, nowUs).0, s.next;
    var buff := Splice(Zeros(|src|), 0, Copied(first));
    PutWellFormed(s, key, buff, nowUs);
    Bounds(s);
    assert s1 == PutPkg(s, key, buff, nowUs).0;
    assert h in s1.heap && s1.heap[h] == Pkg(key, buff, 1, nowUs);
    Reassembly(s1, h, cs, src, nowUs);
    hide WellFormed, Search, PkgSend, SendAll, Splice, Written;
    var t := SendAll(s1, key, cs, nowUs);
    SearchUnique(t, h);
    DerefCounts(t, h);
    FirstBytes(src, first);
  }

  /** A send takes the list's reference whether the length is right or not, and hands the
      bytes over only if it is; without a package it does nothing. */
  lemma SendtoExact(s: Store, h: Handle, len: nat)
    requires WellFormed(s) && h in s.heap
    ensures var (t, sent) := NetSendto(s, s.heap[h].key, len);
            && sent == (if len == |s.heap[h].buff| then Slice(s.heap[h].buff) else Null)
            && t == Deref(s, h) && (h in t.heap <==> s.heap[h].refCnt > 1)
  {
    hide WellFormed, Search;
    SearchUnique(s, h);
    Bounds(s);
    Returned(s, h);
    DerefCounts(s, h);
  }

  lemma SendtoNothing(s: Store, key: Key, len: nat)
    requires WellFormed(s) && forall h :: h in s.heap ==> s.heap[h].key != key
    ensures NetSendto(s, key, len) == (s, Null)
  {
    Unlisted(s, key);
  }

  lemma FirstBytes(src: seq<byte>, first: Chunk)
    requires first.offset == 0 && first.data.Slice? && IsSlice(first, src)
    ensures forall p :: 0 <= p < |src| ==>
              Splice(Zeros(|src|), 0, Copied(first))[p] == if Covers(first, p) then src[p] else 0
  {
    forall p | 0 <= p < |src|
      ensures Splice(Zeros(|src|), 0, Copied(first))[p] == if Covers(first, p) then src[p] else 0
    {
      FirstByte(src, first, p);
    }
  }

  lemma FirstByte(src: seq<byte>, first: Chunk, p: nat)
    requires first.offset == 0 && IsSlice(first, src) && p < |src|
    ensures Splice(Zeros(|src|), 0, Copied(first))[p] == if Covers(first, p) then src[p] else 0
  {
    hide Copied;
    var r := Splice(Zeros(|src|), 0, Copied(first));
    assert p < |Copied(first)| ==> r[0..0 + |Copied(first)|][p] == r[p];
  }

  // Reading back.

  function Sum(ns: seq<nat>): nat
  {
    if ns == [] then 0 else Sum(ns[..|ns| - 1]) + ns[|ns| - 1]
  }

  /** What a reader collects that asks for consecutive blocks of these sizes. */
  function RecvAll(s: Store, key: Key, totalLen: nat, sizes: seq<nat>, argsSz: nat): Data
  {
    if sizes == [] then Slice([])
    else
      var before := RecvAll(s, key, totalLen, sizes[..|sizes| - 1], argsSz);
      var r := PkgRecv(s, key, totalLen, Sum(sizes[..|sizes| - 1]), sizes[|sizes| - 1], argsSz).1;
      if before.Null? || r.Null? then Null else Slice(before.bytes + r.bytes)
  }

  /** A read of a listed package hands out its bytes exactly when the total and the range lie
      within the package and the reply has room for them. */
  lemma ReadOne(s: Store, h: Handle, totalLen: nat, offset: nat, blkSz: nat, argsSz: nat)
    requires WellFormed(s) && h in s.heap
    ensures var (t, r) := PkgRecv(s, s.heap[h].key, totalLen, offset, blkSz, argsSz);
            && t == s
            && r == if totalLen <= |s.heap[h].buff| && blkSz <= argsSz
                       && offset + blkSz <= |s.heap[h].buff| && offset + blkSz <= 0xFFFF_FFFF_FFFF_FFFF
                    then Slice(s.heap[h].buff[offset..offset + blkSz]) else Null
  {
    hide WellFormed, Search;
    SearchUnique(s, h);
    Bounds(s);
    Returned(s, h);
  }

  lemma ReadNothing(s: Store, key: Key, totalLen: nat, offset: nat, blkSz: nat, argsSz: nat)
    requires WellFormed(s) && forall h :: h in s.heap ==> s.heap[h].key != key
    ensures PkgRecv(s, key, totalLen, offset, blkSz, argsSz) == (s, Null)
  {
    Unlisted(s, key);
  }

  /** Over any partition into blocks that fit the reply the pieces make up the stored
      buffer, and reading changes nothing. */
  lemma {:induction false} ReadBack(s: Store, h: Handle, totalLen: nat, sizes: seq<nat>, argsSz: nat)
    requires WellFormed(s) && h in s.heap
    requires totalLen <= |s.heap[h].buff| <= 0xFFFF_FFFF_FFFF_FFFF && Sum(sizes) <= |s.heap[h].buff|
    requires forall i :: 0 <= i < |sizes| ==> sizes[i] <= argsSz
    ensures RecvAll(s, s.heap[h].key, totalLen, sizes, argsSz) == Slice(s.heap[h].buff[..Sum(sizes)])
    ensures forall offset, blkSz :: PkgRecv(s, s.heap[h].key, totalLen, offset, blkSz, argsSz).0 == s
  {
    hide WellFormed, PkgRecv;
    var buff := s.heap[h].buff;
    forall offset, blkSz
      ensures PkgRecv(s, s.heap[h].key, totalLen, offset, blkSz, argsSz).0 == s
    {
      ReadOne(s, h, totalLen, offset, blkSz, argsSz);
    }
    if sizes != [] {
      var k := |sizes| - 1;
      ReadBack(s, h, totalLen, sizes[..k], argsSz);
      var at := Sum(sizes[..k]);
      ReadOne(s, h, totalLen, at, sizes[k], argsSz);
      assert buff[..at] + buff[at..at + sizes[k]] == buff[..at + sizes[k]];
    }
  }

  /** A release by index gives up one reference of the package with that key, or does nothing. */
  lemma ReleaseExact(s: Store, key: Key)
    requires WellFormed(s)
    ensures forall h :: h in s.heap && s.heap[h].key == key ==> ReleaseByIndex(s, key) == Deref(s, h)
    ensures (forall h :: h in s.heap ==> s.heap[h].key != key) ==> ReleaseByIndex(s, key) == s
  {
    hide WellFormed, Search, Deref;
    if h :| h in s.heap && s.heap[h].key == key {
      forall g | g in s.heap && s.heap[g].key == key
        ensures ReleaseByIndex(s, key) == Deref(s, g)
      {
        SearchUnique(s, g);
      }
    } else {
      Unlisted(s, key);
    }
  }

  lemma Unlisted(s: Store, key: Key)
    requires WellFormed(s) && forall h :: h in s.heap ==> s.heap[h].key != key
    ensures Search(s.heap, s.list, key).Nowhere? && s.next !in s.heap && s.next !in s.list
  {
  }

  lemma {:induction false} RemoveLast(list: seq<Handle>, h: Handle)
    requires h !in list
    ensures RemoveEntry(list + [h], h) == list
  {
    if list != [] {
      RemoveLast(list[1..], h);
      assert (list + [h])[1..] == list[1..] + [h];
    }
  }

  lemma OtherBuffer(s: Store, h: Handle, buff: seq<byte>)
    requires WellFormed(s) && h in s.heap
    ensures WellFormed(s.(heap := s.heap[h := s.heap[h].(buff := buff)]))
  {
  }

  lemma LastReference(s: Store, h: Handle, pkg: Pkg)
    requires h !in s.heap && h !in s.list && pkg.refCnt == 1
    ensures Deref(s.(heap := s.heap[h := pkg], list := s.list + [h]), h) == s.(freed := s.freed + [h])
  {
    RemoveLast(s.list, h);
    assert s.heap[h := pkg] - {h} == s.heap;
  }

  lemma Rebuffered(heap: map<Handle, Pkg>, h: Handle, pkg: Pkg, buff: seq<byte>)
    ensures heap[h := pkg][h := pkg.(buff := buff)] == heap[h := pkg.(buff := buff)]
  {
  }

  lemma NewPackage(s: Store, key: Key, buff: seq<byte>, nowUs: nat)
    requires Search(s.heap, s.list, key).Nowhere?
    ensures PutPkg(s, key, buff, nowUs) ==
            (Store(s.heap[s.next := Pkg(key, buff, 1, nowUs)], s.list + [s.next], s.freed, s.next + 1), true)
  {
    hide Search;
  }

  /** Putting a package and releasing it by its index leaves only the freed buffer behind. */
  lemma PutThenRelease(s: Store, key: Key, buff: seq<byte>, buff': seq<byte>, nowUs: nat)
    requires WellFormed(s) && forall h :: h in s.heap ==> s.heap[h].key != key
    ensures var t := PutPkg(s, key, buff, nowUs).0;
            && s.next in t.heap
            && ReleaseByIndex(t.(heap := t.heap[s.next := t.heap[s.next].(buff := buff')]), key) ==
               Store(s.heap, s.list, s.freed + [s.next], s.next + 1)
  {
    hide WellFormed, Search, PutPkg, Deref;
    Unlisted(s, key);
    NewPackage(s, key, buff, nowUs);
    PutWellFormed(s, key, buff, nowUs);
    var t, h := PutPkg(s, key, buff, nowUs).0, s.next;
    OtherBuffer(t, h, buff');
    Rebuffered(s.heap, h, Pkg(key, buff, 1, nowUs), buff');
    var u := t.(heap := t.heap[h := t.heap[h].(buff := buff')]);
    SearchUnique(u, h);
    LastReference(s.(next := s.next + 1), h, Pkg(key, buff', 1, nowUs));
  }

  /** The way back: what one receive got can be read by any partition into blocks, and
      the terminate call then frees the package and nothing else. */
  lemma ReceiveAndRead(s: Store, key: Key, room: seq<byte>, got: seq<byte>, sizes: seq<nat>, argsSz: nat, nowUs: nat)
    requires WellFormed(s) && forall h :: h in s.heap ==> s.heap[h].key != key
    requires 0 < |got| <= |room| <= 0xFFFF_FFFF_FFFF_FFFF
    requires Sum(sizes) == |got| && forall i :: 0 <= i < |sizes| ==> sizes[i] <= argsSz
    ensures var (t, n) := NetRecvfrom(s, key, room, RecvData(got), nowUs);
            && n == |got|
            && RecvAll(t, key, |got|, sizes, argsSz) == Slice(got)
            && ReleaseByIndex(t, key) == Store(s.heap, s.list, s.freed + [s.next], s.next + 1)
  {
    Unlisted(s, key);
    PutWellFormed(s, key, room, nowUs);
    PutThenRelease(s, key, room, Splice(room, 0, got), nowUs);
    hide WellFormed, Search, Splice, RecvAll, Deref;
    var t, h := NetRecvfrom(s, key, room, RecvData(got), nowUs).0, s.next;
    WriteWellFormed(PutPkg(s, key, room, nowUs).0, h, 0, got);
    ReadBack(t, h, |got|, sizes, argsSz);
    assert Splice(room, 0, got)[..|got|] == Splice(room, 0, got)[0..0 + |got|];
  }

  /** A receive without data, or on a key in use, leaves the list as it was. */
  lemma ReceiveNothing(s: Store, key: Key, room: seq<byte>, got: Received, nowUs: nat)
    requires WellFormed(s) && (got.RecvData? ==> |got.bytes| <= |room|)
    requires got.Empty() || exists h :: h in s.heap && s.heap[h].key == key
    ensures var (t, n) := NetRecvfrom(s, key, room, got, nowUs);
            t.heap == s.heap && t.list == s.list && n <= 0
  {
    hide WellFormed, Search, Deref, PutPkg;
    if h :| h in s.heap && s.heap[h].key == key {
      SearchUnique(s, h);
      KeyInUse(s, key, room, nowUs);
    } else {
      Unlisted(s, key);
      NewPackage(s, key, room, nowUs);
      PutThenRelease(s, key, room, room, nowUs);
      Rebuffered(s.heap, s.next, Pkg(key, room, 1, nowUs), room);
    }
  }

  lemma KeyInUse(s: Store, key: Key, buff: seq<byte>, nowUs: nat)
    requires Search(s.heap, s.list, key).At?
    ensures PutPkg(s, key, buff, nowUs) == (s, false)
  {
    hide Search;
  }
}
