/** C strings in byte buffers: src/lib/string.c. */
module CStrings {
  import opened Bytes

  /** The bytes of a C string: everything before the first NUL. */
  function CString(b: seq<Byte>): (r: seq<Byte>)
    ensures |r| <= |b| && r == b[..|r|] && 0 !in r
    ensures |r| < |b| ==> b[|r|] == 0
  {
    if b == [] || b[0] == 0 then [] else [b[0]] + CString(b[1..])
  }

  lemma {:induction false} CStringUnique(b: seq<Byte>, n: nat)
    requires n < |b| && b[n] == 0 && forall i :: 0 <= i < n ==> b[i] != 0
    ensures CString(b) == b[..n]
  {
    if n > 0 {
      CStringUnique(b[1..], n - 1);
    }
  }

  lemma {:induction false} CStringTerminated(b: seq<Byte>)
    ensures CString(b + [0]) == CString(b)
  {
    if b == [] {
      assert b + [0] == [0];
    } else {
      assert (b + [0])[1..] == b[1..] + [0];
      CStringTerminated(b[1..]);
    }
  }

  lemma {:induction false} CStringFits(b: seq<Byte>)
    requires 0 in b
    ensures |CString(b)| < |b|
  {
    if b[0] != 0 {
      CStringFits(b[1..]);
    }
  }

  /** `strcmp` as an equality test of two C strings, each with its NUL. */
  method SameString(s1: seq<Byte>, s2: seq<Byte>) returns (same: bool)
    requires 0 in s1 && 0 in s2
    ensures same == (CString(s1) == CString(s2))
  {
    var i := 0;
    while true
      invariant i < |s1| && i < |s2|
      invariant s1[..i] == s2[..i] && 0 !in s1[..i]
      invariant 0 in s1[i..] && 0 in s2[i..]
      decreases |s1| - i
    {
      if s1[i] != s2[i] {
        DifferAt(s1, s2, i);
        return false;
      }
      if s1[i] == 0 {
        CStringUnique(s1, i);
        CStringUnique(s2, i);
        return true;
      }
      assert s1[i..] == [s1[i]] + s1[i + 1..] && s2[i..] == [s2[i]] + s2[i + 1..];
      i := i + 1;
    }
  }

  lemma {:induction false} DifferAt(s1: seq<Byte>, s2: seq<Byte>, i: nat)
    requires i < |s1| && i < |s2| && s1[..i] == s2[..i] && s1[i] != s2[i] && 0 !in s1[..i]
    ensures CString(s1) != CString(s2)
  {
    if i > 0 {
      assert s1[0] == s1[..i][0] && s2[0] == s2[..i][0];
      assert s1[1..][..i - 1] == s1[..i][1..] && s2[1..][..i - 1] == s2[..i][1..];
      DifferAt(s1[1..], s2[1..], i - 1);
    }
  }

  /** `strcpy` as written: the index moves on once more before the terminator is stored. */
  method CopyAsWritten(dest: array<Byte>, src: seq<Byte>)
    requires 0 in src && |CString(src)| + 1 < dest.Length
    modifies dest
    ensures var n := |CString(src)|;
      dest[..] == CString(src) + [old(dest[n]), 0] + old(dest[n + 2..])
  {
    CStringFits(src);
    ghost var n := |CString(src)|;
    assert forall k :: 0 <= k < n ==> src[k] == CString(src)[k] && CString(src)[k] in CString(src);
    var i := 0;
    while src[i] != 0
      invariant i <= n && n < |src| && src[n] == 0
      invariant dest[..i] == CString(src)[..i]
      invariant forall k :: i <= k < dest.Length ==> dest[k] == old(dest[k])
      decreases n - i
    {
      dest[i] := src[i];
      i := i + 1;
    }
    i := i + 1;
    dest[i] := 0;
  }

  /** What `strcpy` as written leaves reads as the source exactly when the cell at the
      terminator's place was zero before. */
  lemma CopyExact(name: seq<Byte>, stale: Byte, rest: seq<Byte>)
    requires 0 !in name
    ensures CString(name + [stale, 0] + rest) == name <==> stale == 0
  {
    var d := name + [stale, 0] + rest;
    var n := |name|;
    assert d[..n] == name && d[n] == stale && d[n + 1] == 0;
    assert forall i :: 0 <= i < n ==> d[i] == name[i] && name[i] in name;
    if stale == 0 {
      CStringUnique(d, n);
    } else {
      CStringUnique(d, n + 1);
    }
  }
}
