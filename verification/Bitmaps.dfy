/** The byte bitmaps of the client library, updated in place. */
module Bitmaps {
  /** 1U << j, for a bit number within a byte. */
  function Mask(j: nat): bv8
    requires j < 8
  {
    match j
    case 0 => 0x01
    case 1 => 0x02
    case 2 => 0x04
    case 3 => 0x08
    case 4 => 0x10
    case 5 => 0x20
    case 6 => 0x40
    case _ => 0x80
  }

  predicate TestBit(b: bv8, j: nat)
    requires j < 8
  {
    b & Mask(j) != 0
  }

  predicate BitAt(m: seq<bv8>, i: nat)
    requires i < 8 * |m|
  {
    TestBit(m[i / 8], i % 8)
  }

  function Bits(m: seq<bv8>): (s: set<nat>)
    ensures forall i: nat :: i in s <==> i < 8 * |m| && BitAt(m, i)
  {
    set i: nat | i < 8 * |m| && BitAt(m, i)
  }

  lemma MaskSetsOneBit(b: bv8, j: nat, k: nat)
    requires j < 8 && k < 8
    ensures TestBit(b | Mask(j), k) <==> TestBit(b, k) || j == k
  {
  }

  lemma MaskClearsOneBit(b: bv8, j: nat, k: nat)
    requires j < 8 && k < 8
    ensures TestBit(b & !Mask(j), k) <==> TestBit(b, k) && j != k
  {
  }

  lemma ByteUpdate(m: seq<bv8>, i: nat, b: bv8, on: bool)
    requires i < 8 * |m|
    requires b == if on then m[i / 8] | Mask(i % 8) else m[i / 8] & !Mask(i % 8)
    ensures Bits(m[i / 8 := b]) == if on then Bits(m) + {i} else Bits(m) - {i}
  {
    hide Mask, TestBit, Bits;
    var m' := m[i / 8 := b];
    forall k: nat
      ensures k in Bits(m') <==> if k == i then on else k in Bits(m)
    {
      if k < 8 * |m| && k / 8 == i / 8 {
        MaskSetsOneBit(m[i / 8], i % 8, k % 8);
        MaskClearsOneBit(m[i / 8], i % 8, k % 8);
      }
    }
  }

  method SetBit(i: nat, bitMap: array?<bv8>)
    modifies bitMap
    ensures bitMap != null ==>
              Bits(bitMap[..]) == old(Bits(bitMap[..])) + if i < 8 * bitMap.Length then {i} else {}
  {
    hide Bits, Mask;
    if bitMap == null || i / 8 >= bitMap.Length {
      return;
    }
    ghost var m := bitMap[..];
    ByteUpdate(m, i, m[i / 8] | Mask(i % 8), true);
    bitMap[i / 8] := bitMap[i / 8] | Mask(i % 8);
    assert bitMap[..] == m[i / 8 := bitMap[i / 8]];
  }

  method ClearBit(i: nat, bitMap: array?<bv8>)
    modifies bitMap
    ensures bitMap != null ==> Bits(bitMap[..]) == old(Bits(bitMap[..])) - {i}
  {
    hide Bits, Mask;
    if bitMap == null || i / 8 >= bitMap.Length {
      return;
    }
    ghost var m := bitMap[..];
    ByteUpdate(m, i, m[i / 8] & !Mask(i % 8), false);
    bitMap[i / 8] := bitMap[i / 8] & !Mask(i % 8);
    assert bitMap[..] == m[i / 8 := bitMap[i / 8]];
  }

  /** A bit that SET may take is clear, one that CLEAR may take is set. */
  predicate Eligible(m: seq<bv8>, i: nat, on: bool)
    requires i < 8 * |m|
  {
    BitAt(m, i) != on
  }

  predicate IsFirstEligible(m: seq<bv8>, on: bool, r: int)
  {
    && (r == -1 || 0 <= r < 8 * |m|)
    && (forall k: nat :: k < (if r == -1 then 8 * |m| else r) ==> !Eligible(m, k, on))
    && (r != -1 ==> Eligible(m, r, on))
  }

  lemma FullByte(b: bv8, on: bool)
    requires b == if on then 0xff else 0
    ensures forall j: nat :: j < 8 ==> TestBit(b, j) == on
  {
  }

  /** The inner loop of IterateBitmap: the first bit of a byte that is not `on`, or 8. */
  method ScanByte(b: bv8, on: bool) returns (j: nat)
    ensures j <= 8 && forall k: nat :: k < j ==> TestBit(b, k) == on
    ensures j < 8 ==> TestBit(b, j) != on
  {
    hide Mask;
    j := 0;
    while j < 8
      invariant j <= 8 && forall k: nat :: k < j ==> TestBit(b, k) == on
    {
      var bitZero := b & Mask(j) == 0;
      if bitZero == on {
        break;
      }
      j := j + 1;
    }
  }

  lemma NoneInByte(m: seq<bv8>, i: nat, j: nat, on: bool)
    requires i < |m| && j <= 8 && forall k: nat :: k < j ==> TestBit(m[i], k) == on
    ensures forall k: nat :: 8 * i <= k < 8 * i + j ==> !Eligible(m, k, on)
  {
    forall k: nat | 8 * i <= k < 8 * i + j
      ensures !Eligible(m, k, on)
    {
      assert k / 8 == i && k % 8 == k - 8 * i;
    }
  }

  /** IterateBitmap: takes the least eligible bit and flips only that one, or returns
      -1 and changes nothing exactly when no bit is eligible. */
  method IterateBitmap(bitMap: array<bv8>, on: bool) returns (validBit: int)
    modifies bitMap
    ensures IsFirstEligible(old(bitMap[..]), on, validBit)
    ensures validBit == -1 ==> bitMap[..] == old(bitMap[..])
    ensures validBit != -1 ==>
              Bits(bitMap[..]) == if on then old(Bits(bitMap[..])) + {validBit} else old(Bits(bitMap[..])) - {validBit}
  {
    hide Bits, Mask, TestBit, Eligible;
    var refByte: bv8 := if on then 0xff else 0;
    validBit := -1;
    var i := 0;
    ghost var m := bitMap[..];
    while i < bitMap.Length
      invariant 0 <= i <= bitMap.Length && bitMap[..] == m
      invariant validBit == -1 && forall k: nat :: k < 8 * i ==> !Eligible(m, k, on)
    {
      if bitMap[i] == refByte {
        FullByte(m[i], on);
        NoneInByte(m, i, 8, on);
        i := i + 1;
        continue;
      }
      var j := ScanByte(bitMap[i], on);
      NoneInByte(m, i, j, on);
      if j < 8 {
        validBit := i * 8 + j;
        FoundInByte(m, i, j, on);
        break;
      }
      i := i + 1;
    }
    if validBit == -1 {
      return;
    }
    if on {
      SetBit(validBit, bitMap);
    } else {
      ClearBit(validBit, bitMap);
    }
  }

  lemma FoundInByte(m: seq<bv8>, i: nat, j: nat, on: bool)
    requires i < |m| && j < 8 && TestBit(m[i], j) != on
    ensures Eligible(m, i * 8 + j, on)
  {
  }
}
