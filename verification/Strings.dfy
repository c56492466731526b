/** The C string helpers, on byte arrays with a terminating NUL. */
module Strings {
  import opened Bytes
  import opened Paths

  /** There is a terminator. */
  predicate Terminated(s: seq<byte>) { exists i :: 0 <= i < |s| && s[i] == 0 }

  lemma {:induction false} CStringIs(s: seq<byte>, n: nat)
    requires n < |s| && s[n] == 0 && forall i :: 0 <= i < n ==> s[i] != 0
    ensures CString(s) == s[..n]
  {
    if n > 0 {
      CStringIs(s[1..], n - 1);
      assert [s[0]] + s[1..][..n - 1] == s[..n];
    }
  }

  /** `strlen`. */
  method StrLen(s: array<byte>) returns (len: nat)
    requires Terminated(s[..])
    ensures len == |CString(s[..])| && len < s.Length && s[len] == 0 && CString(s[..]) == s[..len]
  {
    ghost var z :| 0 <= z < s.Length && s[..][z] == 0;
    len := 0;
    while s[len] != 0
      invariant 0 <= len <= z
      invariant forall i :: 0 <= i < len ==> s[i] != 0
      decreases z - len
    {
      len := len + 1;
    }
    CStringIs(s[..], len);
  }

  /** A `char` is signed here. */
  function Signed(c: byte): int { if c < 128 then c else c - 256 }

  function FirstOf(s: seq<byte>): byte { if s == [] then 0 else s[0] }

  /** The order of two C strings by their first difference, the end counting as 0. The result of `strcmp`
      is a `uint8_t`, so -1 is 255. */
  function Compare(x: seq<byte>, y: seq<byte>): byte {
    if Signed(FirstOf(x)) < Signed(FirstOf(y)) then 255
    else if Signed(FirstOf(x)) > Signed(FirstOf(y)) then 1
    else if x == [] || y == [] then 0
    else Compare(x[1..], y[1..])
  }

  /** The result is 0 exactly for equal strings. */
  lemma {:induction false} CompareIff(x: seq<byte>, y: seq<byte>)
    requires NoNul(x) && NoNul(y)
    ensures Compare(x, y) == 0 <==> x == y
  {
    if x != [] && y != [] {
      assert x == [x[0]] + x[1..] && y == [y[0]] + y[1..];
      CompareIff(x[1..], y[1..]);
    }
  }

  /** Exchanging the strings exchanges 1 and 255. */
  lemma {:induction false} CompareFlips(x: seq<byte>, y: seq<byte>)
    ensures Compare(y, x) == (256 - Compare(x, y)) % 256
    ensures Compare(x, y) in {0, 1, 255}
  {
    if x != [] && y != [] {
      CompareFlips(x[1..], y[1..]);
    }
  }

  lemma CompareStep(a: seq<byte>, b: seq<byte>)
    requires a != [] && b != []
    ensures a[0] == b[0] != 0 ==> Compare(CString(a), CString(b)) == Compare(CString(a[1..]), CString(b[1..]))
    ensures a[0] == 0 || b[0] == 0 || a[0] != b[0] ==>
      Compare(CString(a), CString(b))
      == if Signed(a[0]) < Signed(b[0]) then 255 else if Signed(a[0]) > Signed(b[0]) then 1 else 0
  {
  }

  lemma {:induction false} CStringNoNul(s: seq<byte>)
    ensures NoNul(CString(s))
  {
    if s != [] && s[0] != 0 {
      CStringNoNul(s[1..]);
    }
  }

  /** `strcmp`. */
  method StrCmp(a: seq<byte>, b: seq<byte>) returns (r: byte)
    requires Terminated(a) && Terminated(b)
    ensures r == Compare(CString(a), CString(b))
    ensures r == 0 <==> CString(a) == CString(b)
  {
    hide CString, Compare, Signed;
    ghost var z :| 0 <= z < |a| && a[z] == 0;
    ghost var y :| 0 <= y < |b| && b[y] == 0;
    var i := 0;
    while a[i] != 0 && b[i] != 0 && a[i] == b[i]
      invariant 0 <= i <= z && i <= y
      invariant Compare(CString(a), CString(b)) == Compare(CString(a[i..]), CString(b[i..]))
      decreases z - i
    {
      CompareStep(a[i..], b[i..]);
      assert a[i..][1..] == a[i + 1..] && b[i..][1..] == b[i + 1..];
      i := i + 1;
    }
    CompareStep(a[i..], b[i..]);
    CStringNoNul(a);
    CStringNoNul(b);
    CompareIff(CString(a), CString(b));
    if Signed(a[i]) < Signed(b[i]) {
      return 255;
    } else if Signed(a[i]) > Signed(b[i]) {
      return 1;
    } else {
      return 0;
    }
  }

  /** `strncat`: the terminator of the destination is searched, the first `n` bytes of the source are stored
      from there on, and a terminator behind them. */
  method StrNCat(dst: array<byte>, src: seq<byte>, n: nat)
    requires Terminated(dst[..]) && n <= |src| && |CString(dst[..])| + n < dst.Length
    modifies dst
    ensures dst[..] == Splice(old(dst[..]), |CString(old(dst[..]))|, src[..n] + [0])
    ensures NoNul(src[..n]) ==> CString(dst[..]) == CString(old(dst[..])) + src[..n]
  {
    hide CString, NoNul;
    var len := StrLen(dst);
    ghost var was := dst[..];
    var k := len;
    for i := 0 to n
      invariant k == len + i
      invariant dst[..] == Splice(was, len, src[..i])
    {
      dst[k] := src[i];
      k := k + 1;
    }
    dst[k] := 0;
    if NoNul(src[..n]) {
      CStringNoNul(was);
      Appended(dst[..], was[..len], src[..n]);
    }
  }

  lemma Appended(s: seq<byte>, a: seq<byte>, b: seq<byte>)
    requires NoNul(a) && NoNul(b) && |a| + |b| < |s| && s[|a| + |b|] == 0
    requires (forall i :: 0 <= i < |a| ==> s[i] == a[i]) && forall i :: 0 <= i < |b| ==> s[|a| + i] == b[i]
    ensures CString(s) == a + b
  {
    var n := |a| + |b|;
    forall i | 0 <= i < n
      ensures s[i] == (a + b)[i] != 0
    {
      assert i < |a| ==> a[i] != 0;
      assert i >= |a| ==> b[i - |a|] != 0 && s[|a| + (i - |a|)] == b[i - |a|];
    }
    CStringIs(s, n);
  }

  function Reversed(s: seq<byte>): (r: seq<byte>)
    ensures |r| == |s|
  {
    if s == [] then [] else Reversed(s[1..]) + [s[0]]
  }

  lemma {:induction false} ReversedAt(s: seq<byte>, k: nat)
    requires k < |s|
    ensures Reversed(s)[k] == s[|s| - 1 - k]
  {
    if k < |s| - 1 {
      ReversedAt(s[1..], k);
    }
  }

  /** `strrev`: the string is reversed in place, the rest of the array is untouched. (For the empty
      string the C code computes the index -1 and never uses it.) */
  method StrRev(s: array<byte>)
    requires Terminated(s[..])
    modifies s
    ensures var n := |CString(old(s[..]))|;
      n < s.Length && s[..n] == Reversed(CString(old(s[..]))) && s[n..] == old(s[n..])
  {
    hide CString, Reversed, Terminated;
    var n := StrLen(s);
    ghost var was := s[..n];
    var j, i := n - 1, 0;
    while i < n / 2
      invariant 0 <= i <= n / 2 && j == n - 1 - i
      invariant forall k :: 0 <= k < n ==> s[k] == was[if k < i || n - i <= k then n - 1 - k else k]
      invariant forall k :: n <= k < s.Length ==> s[k] == old(s[k])
    {
      var tmp := s[i];
      s[i] := s[j];
      s[j] := tmp;
      j := j - 1;
      i := i + 1;
    }
    forall k | 0 <= k < n
      ensures s[k] == Reversed(was)[k]
    {
      ReversedAt(was, k);
    }
  }
}
