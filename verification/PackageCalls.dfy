/** The proxy's calls on a shared package list, borrowing and returning as they go. */
module PackageCalls {
  import opened Bytes
  import opened Packages
  import opened Chunks
  import FL = FdList

  method PkgSendWork(fdList: FL.FdList, key: Key, c: Chunk, nowUs: nat) returns (ret: SendResult)
    requires WellFormed(fdList.View())
    modifies fdList
    ensures (fdList.View(), ret) == PkgSend(old(fdList.View()), key, c, nowUs)
    ensures WellFormed(fdList.View())
  {
    hide WellFormed, Search, Splice, Copied, AsInt;
    if c.offset == 0 {
      if c.data.Null? || c.totalLen < c.blkSz || !c.Copyable() {
        return Done(FAILED);
      }
      if !c.InReach() {
        return OutOfReach;
      }
      var ok := fdList.PutPkg(key, Splice(Zeros(c.totalLen), 0, Copied(c)), nowUs);
      return Done(if ok then c.blkSz else FAILED);
    }
    Bounds(fdList.View());
    var pkg := fdList.GetPkg(key);
    if pkg.Nowhere? {
      return Done(FAILED);
    }
    var len := |fdList.heap[pkg.h].buff|;
    if c.totalLen != len || c.offset > len {
      ret := Done(FAILED);
    } else if len - c.offset < c.blkSz {
      ret := Done(FAILED);
    } else if !c.InReach() {
      ret := OutOfReach;
    } else {
      WriteWellFormed(fdList.View(), pkg.h, c.offset, Copied(c));
      var pkg' := fdList.heap[pkg.h];
      fdList.heap := fdList.heap[pkg.h := pkg'.(buff := Splice(pkg'.buff, c.offset, Copied(c)))];
      ret := Done(AsInt(c.blkSz));
    }
    fdList.DerefPkg(pkg.h);
  }

  method PkgRecvWork(fdList: FL.FdList, key: Key, totalLen: nat, offset: nat, blkSz: nat, argsSz: nat)
    returns (reply: Data)
    requires WellFormed(fdList.View())
    modifies fdList
    ensures (fdList.View(), reply) == PkgRecv(old(fdList.View()), key, totalLen, offset, blkSz, argsSz)
    ensures WellFormed(fdList.View())
  {
    hide WellFormed, Search;
    var pkg := fdList.GetPkg(key);
    if pkg.Nowhere? {
      return Null;
    }
    var buff := fdList.heap[pkg.h].buff;
    if totalLen > |buff| || offset > 0xFFFF_FFFF_FFFF_FFFF - blkSz || offset + blkSz > |buff| {
      reply := Null;
    } else if blkSz > argsSz {
      reply := Null;
    } else {
      reply := Slice(buff[offset..offset + blkSz]);
    }
    fdList.DerefPkg(pkg.h);
  }

  /** The second release gives up the list reference, whether the send worked or not. */
  method NetSendtoWork(fdList: FL.FdList, key: Key, len: nat) returns (sent: Data)
    requires WellFormed(fdList.View())
    modifies fdList
    ensures (fdList.View(), sent) == NetSendto(old(fdList.View()), key, len)
    ensures WellFormed(fdList.View())
  {
    hide WellFormed, Search;
    Bounds(fdList.View());
    var pkg := fdList.GetPkg(key);
    if pkg.Nowhere? {
      return Null;
    }
    sent := if len != |fdList.heap[pkg.h].buff| then Null else Slice(fdList.heap[pkg.h].buff);
    DerefCounts(fdList.View(), pkg.h);
    fdList.DerefPkg(pkg.h);
    fdList.DerefPkg(pkg.h);
  }

  /** The buffer is listed before recvfrom fills it. */
  method NetRecvfromWork(fdList: FL.FdList, key: Key, room: seq<byte>, got: Received, nowUs: nat) returns (ret: int)
    requires WellFormed(fdList.View()) && (got.RecvData? ==> |got.bytes| <= |room|)
    modifies fdList
    ensures (fdList.View(), ret) == NetRecvfrom(old(fdList.View()), key, room, got, nowUs)
    ensures WellFormed(fdList.View())
  {
    hide WellFormed, Search, Splice, Deref;
    ghost var h := fdList.next;
    var ok := fdList.PutPkg(key, room, nowUs);
    if !ok {
      return FAILED;
    }
    if got.Empty() {
      fdList.ReleasePkgByIndex(key);
    } else {
      WriteWellFormed(fdList.View(), h, 0, got.bytes);
      var at := fdList.next - 1;
      fdList.heap := fdList.heap[at := fdList.heap[at].(buff := Splice(fdList.heap[at].buff, 0, got.bytes))];
    }
    ret := got.Result();
  }

  method PkgTerminateWork(fdList: FL.FdList, key: Key)
    requires WellFormed(fdList.View())
    modifies fdList
    ensures fdList.View() == ReleaseByIndex(old(fdList.View()), key) && WellFormed(fdList.View())
  {
    fdList.ReleasePkgByIndex(key);
  }
}
