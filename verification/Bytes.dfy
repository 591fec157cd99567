/** Bytes, and the small facts about division that ring positions, bitmaps and
    length-prefixed formats all need. */
module Bytes {
  type byte = b: int | 0 <= b < 256

  ghost predicate Distinct<T>(s: seq<T>)
  {
    forall i, j :: 0 <= i < j < |s| ==> s[i] != s[j]
  }

  function Min(a: int, b: int): int { if a < b then a else b }

  function Zeros(n: nat): (z: seq<byte>)
    ensures |z| == n && forall i :: 0 <= i < n ==> z[i] == 0
  {
    seq(n, i => 0)
  }

  /** memcpy into the middle of a buffer. */
  function Splice<T>(s: seq<T>, at: nat, part: seq<T>): (r: seq<T>)
    requires at + |part| <= |s|
    ensures |r| == |s|
    ensures r[at..at + |part|] == part
    ensures forall i :: 0 <= i < |s| && !(at <= i < at + |part|) ==> r[i] == s[i]
  {
    s[..at] + part + s[at + |part|..]
  }

  method Memcpy(dst: array<byte>, at: nat, src: seq<byte>)
    requires at + |src| <= dst.Length
    modifies dst
    ensures dst[..] == Splice(old(dst[..]), at, src)
  {
    forall j | 0 <= j < |src| {
      dst[at + j] := src[j];
    }
  }

  /** The bytes of a C string: up to the first zero. */
  function CString(s: seq<byte>): seq<byte>
  {
    if s == [] || s[0] == 0 then [] else [s[0]] + CString(s[1..])
  }

  lemma {:induction false} CStringStops(s: seq<byte>, i: nat)
    requires i < |s| && s[i] == 0
    ensures CString(s) == CString(s[..i])
  {
    if i > 0 && s[0] != 0 {
      CStringStops(s[1..], i - 1);
      assert s[..i][1..] == s[1..][..i - 1];
    }
  }

  lemma MulGap(q: int, q': int, len: nat)
    requires q > q'
    ensures q * len >= q' * len + len
  {
    assert q * len == (q - q' - 1) * len + (q' + 1) * len;
  }

  lemma DivUnique(x: int, len: int, q: int, r: int)
    requires len > 0 && x == q * len + r && 0 <= r < len
    ensures x / len == q && x % len == r
  {
    var q' := x / len;
    assert x == q' * len + x % len;
    if q > q' {
      MulGap(q, q', len);
    } else if q < q' {
      MulGap(q', q, len);
    }
  }

  lemma WrapOnce(at: nat, len: nat)
    requires 0 < len && at < 2 * len
    ensures at % len == if at >= len then at - len else at
  {
    if at >= len {
      DivUnique(at, len, 1, at - len);
    } else {
      DivUnique(at, len, 0, at);
    }
  }

  /** Going forward by at most one lap. */
  lemma DivStep(c: nat, d: nat, len: nat)
    requires 0 < len && d <= len
    ensures var wraps := c % len + d >= len;
            && (c + d) / len == c / len + (if wraps then 1 else 0)
            && (c + d) % len == c % len + d - (if wraps then len else 0)
  {
    if c % len + d >= len {
      DivUnique(c + d, len, c / len + 1, c % len + d - len);
    } else {
      DivUnique(c + d, len, c / len, c % len + d);
    }
  }

  /** Two counts less than one lap apart never share a slot. */
  lemma ModDistinct(a: nat, b: nat, len: nat)
    requires a < b < a + len
    ensures a % len != b % len
  {
    DivStep(a, b - a, len);
  }

  lemma CutBehind<T>(s: seq<T>, k: nat)
    requires 0 < k < |s|
    ensures [s[0]] + (s[1..][..k - 1] + s[1..][k..]) == s[..k] + s[k + 1..]
  {
    assert s[..k] == [s[0]] + s[1..][..k - 1];
  }
}
