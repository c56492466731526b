/** Path strings and `unpack_dir_path`. Path strings are the bytes before the terminating NUL; a row of
    the two-dimensional buffer holds a C string. */
module Paths {
  import opened Bytes

  const SLASH: byte := 47
  const MAX_PATH_LEN: nat := 4096
  const MAX_PATH_DEPTH: nat := 10
  const ROW_LEN: nat := 257
  const NAME_LEN: nat := 255

  predicate NoNul(s: seq<byte>) { forall i :: 0 <= i < |s| ==> s[i] != 0 }

  predicate NoSlash(s: seq<byte>) { forall i :: 0 <= i < |s| ==> s[i] != SLASH }

  /** The segments between slashes; the last one is what follows the last slash. */
  function Split(s: seq<byte>): (r: seq<seq<byte>>)
    ensures |r| > 0
  {
    if s == [] then [[]]
    else
      var p, c := Split(s[..|s| - 1]), s[|s| - 1];
      if c == SLASH then p + [[]] else p[|p| - 1 := p[|p| - 1] + [c]]
  }

  /** The segments with one slash between neighbours. */
  function Join(r: seq<seq<byte>>): seq<byte> {
    if |r| == 0 then [] else if |r| == 1 then r[0] else Join(r[..|r| - 1]) + [SLASH] + r[|r| - 1]
  }

  function Slashes(s: seq<byte>): nat {
    if s == [] then 0 else Slashes(s[..|s| - 1]) + if s[|s| - 1] == SLASH then 1 else 0
  }

  predicate EndsInSlash(s: seq<byte>) { |s| > 0 && s[|s| - 1] == SLASH }

  /** What `unpack_dir_path` returns: the segments, without the empty one after a final slash; the
      first row keeps its slash. */
  function Rows(s: seq<byte>): seq<seq<byte>> {
    var p := Split(s);
    var q := if EndsInSlash(s) then p[..|p| - 1] else p;
    if |p| == 1 then q else q[0 := q[0] + [SLASH]]
  }

  /** Joining inverts splitting. */
  lemma {:induction false} JoinSplit(s: seq<byte>)
    ensures Join(Split(s)) == s
  {
    if s != [] {
      var t, c := s[..|s| - 1], s[|s| - 1];
      var p := Split(t);
      JoinSplit(t);
      assert s == t + [c];
      if c == SLASH {
        assert (p + [[]])[..|p|] == p;
        assert Join(p + [[]]) == Join(p) + [SLASH] + [];
      } else {
        var q := p[|p| - 1 := p[|p| - 1] + [c]];
        assert q[..|q| - 1] == p[..|p| - 1];
      }
    }
  }

  lemma {:induction false} SplitFacts(s: seq<byte>)
    ensures |Split(s)| == Slashes(s) + 1
    ensures forall k :: 0 <= k < |Split(s)| ==> NoSlash(Split(s)[k])
    ensures NoNul(s) ==> forall k :: 0 <= k < |Split(s)| ==> NoNul(Split(s)[k])
    ensures EndsInSlash(s) ==> |Split(s)| > 1 && Split(s)[|Split(s)| - 1] == []
  {
    if s != [] {
      SplitFacts(s[..|s| - 1]);
    }
  }

  /** Splitting inverts joining: segments without slashes are recovered. */
  lemma {:induction false} SplitJoin(r: seq<seq<byte>>)
    requires |r| > 0 && forall k :: 0 <= k < |r| ==> NoSlash(r[k])
    ensures Split(Join(r)) == r
  {
    hide NoSlash, Split;
    var init, last := r[..|r| - 1], r[|r| - 1];
    SplitEmpty();
    if |r| > 1 {
      SplitJoin(init);
      SplitSlash(Join(init));
      SplitAppend(Join(init) + [SLASH], last);
      assert [] + last == last;
      assert (init + [[]])[|init| := last] == r;
    } else {
      SplitAppend([], last);
      assert [] + last == last;
      assert [[]][0 := last] == r;
    }
  }

  lemma SplitEmpty()
    ensures Split([]) == [[]]
  {
  }

  lemma SplitSlash(s: seq<byte>)
    ensures Split(s + [SLASH]) == Split(s) + [[]]
  {
    assert (s + [SLASH])[..|s|] == s;
  }

  /** Text without slashes extends the last segment. */
  lemma {:induction false} SplitAppend(s: seq<byte>, t: seq<byte>)
    requires NoSlash(t)
    ensures var p := Split(s); Split(s + t) == p[|p| - 1 := p[|p| - 1] + t]
  {
    var p := Split(s);
    if t == [] {
      assert s + t == s;
      assert p[|p| - 1] + t == p[|p| - 1];
    } else {
      var u, c := t[..|t| - 1], t[|t| - 1];
      SplitAppend(s, u);
      assert (s + t)[..|s + t| - 1] == s + u;
      assert p[|p| - 1] + u + [c] == p[|p| - 1] + t;
    }
  }

  /** Round trip of the path parser, for every absolute path, with empty components and final slashes:
      the root row is "/", joining the other rows by single slashes after it gives the path back up to
      one final slash, and the depth counts the slashes, plus one without a final slash. */
  lemma ParserRoundTrip(s: seq<byte>)
    requires |s| > 0 && s[0] == SLASH
    ensures var r := Rows(s);
      && |r| == Slashes(s) + (if EndsInSlash(s) then 0 else 1)
      && |r| > 0 && r[0] == [SLASH]
      && [SLASH] + Join(r[1..]) == (if EndsInSlash(s) && |s| > 1 then s[..|s| - 1] else s)
  {
    SplitFacts(s);
    JoinSplit(s);
    var p := Split(s);
    FirstSegment(s);
    assert |p| > 1;
    JoinFirst(p);
    var q := if EndsInSlash(s) then p[..|p| - 1] else p;
    if |q| > 1 {
      JoinFirst(q);
    }
    assert Rows(s)[1..] == q[1..];
  }

  lemma {:induction false} FirstSegment(s: seq<byte>)
    requires |s| > 0 && s[0] == SLASH
    ensures |Split(s)| > 1 && Split(s)[0] == []
  {
    if |s| > 1 {
      FirstSegment(s[..|s| - 1]);
    } else {
      assert s[..0] == [];
    }
  }

  lemma {:induction false} JoinFirst(r: seq<seq<byte>>)
    requires |r| > 1
    ensures Join(r) == r[0] + [SLASH] + Join(r[1..])
  {
    if |r| > 2 {
      var init := r[..|r| - 1];
      JoinFirst(init);
      assert r[1..][..|r| - 2] == init[1..];
    }
  }

  /** The driver's parser has room for the path: at most ten rows, names of at most 255 bytes. */
  predicate Parsable(s: seq<byte>) {
    && 0 < |s| <= MAX_PATH_LEN && NoNul(s)
    && |Rows(s)| <= MAX_PATH_DEPTH
    && forall k :: 0 <= k < |Split(s)| ==> |Split(s)[k]| <= NAME_LEN
  }

  /** The C string at the start of `s`. */
  function CString(s: seq<byte>): seq<byte> {
    if s == [] || s[0] == 0 then [] else [s[0]] + CString(s[1..])
  }

  lemma {:induction false} CStringOf(s: seq<byte>)
    requires NoNul(s)
    ensures CString(s) == s
  {
    if s != [] {
      CStringOf(s[1..]);
    }
  }

  lemma {:induction false} CStringPadded(s: seq<byte>, t: seq<byte>)
    requires NoNul(t) && |t| < |s| && s[..|t|] == t && s[|t|] == 0
    ensures CString(s) == t
  {
    if t != [] {
      assert s[0] == t[0];
      assert s[1..][..|t| - 1] == s[..|t|][1..];
      CStringPadded(s[1..], t[1..]);
    }
  }

  /** The segment being read is a prefix of the finished segment of the same index. */
  lemma {:induction false} SplitPrefix(s: seq<byte>, i: nat)
    requires i <= |s|
    ensures var p, q := Split(s[..i]), Split(s);
      |p| <= |q| && p[|p| - 1] <= q[|p| - 1] && p[..|p| - 1] == q[..|p| - 1]
    ensures i < |s| && EndsInSlash(s) ==> |Split(s[..i])| < |Split(s)|
  {
    if i == |s| {
      assert s[..i] == s;
    } else {
      var t := s[..|s| - 1];
      assert t[..i] == s[..i];
      SplitPrefix(t, i);
    }
  }

  /** What row `j` holds once the segments `p` have been read. */
  function RowContent(p: seq<seq<byte>>, j: nat): seq<byte> {
    if j >= |p| then [] else if j == 0 && |p| > 1 then p[0] + [SLASH] else p[j]
  }

  function PaddedAt(s: seq<byte>, c: nat): byte {
    if c < |s| then s[c] else 0
  }

  function RowOf(rows: array2<byte>, j: nat): (r: seq<byte>)
    requires j < rows.Length0
    reads rows
    ensures |r| == rows.Length1
  {
    seq(rows.Length1, c requires 0 <= c < rows.Length1 reads rows => rows[j, c])
  }

  ghost predicate RowsHold(rows: array2<byte>, p: seq<seq<byte>>)
    requires rows.Length0 == MAX_PATH_DEPTH && rows.Length1 == ROW_LEN
    reads rows
  {
    forall r, c :: 0 <= r < MAX_PATH_DEPTH && 0 <= c < ROW_LEN ==> rows[r, c] == PaddedAt(RowContent(p, r), c)
  }

  /** One more byte of the path closes the current segment or extends it. */
  lemma SplitStep(s: seq<byte>, i: nat)
    requires i < |s|
    ensures var p, q := Split(s[..i]), Split(s[..i + 1]);
      q == if s[i] == SLASH then p + [[]] else p[|p| - 1 := p[|p| - 1] + [s[i]]]
  {
    assert s[..i + 1][..i] == s[..i];
  }

  lemma ContentStep(p: seq<seq<byte>>, ch: byte, r: nat)
    requires |p| > 0
    ensures ch == SLASH ==> RowContent(p + [[]], r) == if r == 0 && |p| == 1 then p[0] + [SLASH] else RowContent(p, r)
    ensures ch != SLASH ==>
      RowContent(p[|p| - 1 := p[|p| - 1] + [ch]], r) == if r == |p| - 1 then p[r] + [ch] else RowContent(p, r)
  {
  }

  /** The body of the parser's loop: store one byte, and close the row when it is a slash. */
  method StoreByte(rows: array2<byte>, ghost p: seq<seq<byte>>, ch: byte, j: nat, k: nat) returns (j': nat, k': nat)
    requires rows.Length0 == MAX_PATH_DEPTH && rows.Length1 == ROW_LEN
    requires RowsHold(rows, p) && 0 < |p| <= MAX_PATH_DEPTH && j == |p| - 1 && k == |p[j]| <= NAME_LEN
    modifies rows
    ensures var q := if ch == SLASH then p + [[]] else p[|p| - 1 := p[|p| - 1] + [ch]];
      RowsHold(rows, q) && j' == |q| - 1 && k' == |q[j']|
  {
    rows[j, k] := ch;
    if ch == SLASH {
      if j == 0 {
        rows[j, k + 1] := 0;
      } else {
        rows[j, k] := 0;
      }
      j', k' := j + 1, 0;
    } else {
      j', k' := j, k + 1;
    }
    forall r, c | 0 <= r < MAX_PATH_DEPTH && 0 <= c < ROW_LEN
      ensures rows[r, c] == PaddedAt(RowContent(if ch == SLASH then p + [[]] else p[|p| - 1 := p[|p| - 1] + [ch]], r), c)
    {
      assert old(rows[r, c]) == PaddedAt(RowContent(p, r), c);
      ContentStep(p, ch, r);
    }
  }

  lemma ZeroedRows(rows: array2<byte>)
    requires rows.Length0 == MAX_PATH_DEPTH && rows.Length1 == ROW_LEN
    requires forall j, c :: 0 <= j < MAX_PATH_DEPTH && 0 <= c < ROW_LEN ==> rows[j, c] == 0
    ensures RowsHold(rows, [[]]) && Split([]) == [[]]
  {
  }

  /** `unpack_dir_path` on zeroed rows: row `j` ends up holding the C string `Rows(path)[j]`. */
  method UnpackDirPath(path: seq<byte>, rows: array2<byte>) returns (depth: nat)
    requires Parsable(path)
    requires rows.Length0 == 10 && rows.Length1 == 257
    requires forall j, c :: 0 <= j < MAX_PATH_DEPTH && 0 <= c < ROW_LEN ==> rows[j, c] == 0
    modifies rows
    ensures depth == |Rows(path)|
    ensures forall j :: 0 <= j < depth ==> CString(RowOf(rows, j)) == Rows(path)[j] && |Rows(path)[j]| < ROW_LEN
  {
    hide RowContent, Parsable, Rows, NoNul, CString;
    var i, j, k := 0, 0, 0;
    assert path[..0] == [];
    ZeroedRows(rows);
    while i < |path|
      invariant 0 <= i <= |path|
      invariant j == |Split(path[..i])| - 1 && k == |Split(path[..i])[j]|
      invariant RowsHold(rows, Split(path[..i]))
    {
      RoomFor(path, i);
      SplitStep(path, i);
      hide *;
      j, k := StoreByte(rows, Split(path[..i]), path[i], j, k);
      i := i + 1;
    }
    assert path[..i] == path;
    LastRow(path);
    hide *;
    if path[i - 1] != SLASH {
      CloseRow(rows, Split(path), j, k);
      j := j + 1;
    }
    forall r | 0 <= r < j
      ensures CString(RowOf(rows, r)) == Rows(path)[r] && |Rows(path)[r]| < ROW_LEN
    {
      ReadRow(rows, path, r);
    }
    return j;
  }

  /** The terminator of the last row goes one byte late, on a byte that is already zero. */
  method CloseRow(rows: array2<byte>, ghost p: seq<seq<byte>>, j: nat, k: nat)
    requires rows.Length0 == MAX_PATH_DEPTH && rows.Length1 == ROW_LEN
    requires RowsHold(rows, p) && 0 < |p| <= MAX_PATH_DEPTH && j == |p| - 1 && k == |p[j]| <= NAME_LEN
    modifies rows
    ensures RowsHold(rows, p)
  {
    rows[j, k + 1] := 0;
  }

  lemma ReadRow(rows: array2<byte>, path: seq<byte>, r: nat)
    requires rows.Length0 == MAX_PATH_DEPTH && rows.Length1 == ROW_LEN
    requires Parsable(path) && RowsHold(rows, Split(path)) && r < |Rows(path)|
    ensures CString(RowOf(rows, r)) == Rows(path)[r] && |Rows(path)[r]| < ROW_LEN
  {
    RowFits(path, r);
    hide Rows, Split, RowContent, NoNul, CString, Parsable;
    var t, s := Rows(path)[r], RowOf(rows, r);
    assert forall c :: 0 <= c < ROW_LEN ==> s[c] == PaddedAt(t, c);
    assert s[..|t|] == t;
    CStringPadded(s, t);
  }

  lemma LastRow(s: seq<byte>)
    requires Parsable(s)
    ensures |s| > 0 && (EndsInSlash(s) <==> s[|s| - 1] == SLASH) && |Rows(s)| <= MAX_PATH_DEPTH
    ensures |Split(s)| > 0 && |Rows(s)| == |Split(s)| - if EndsInSlash(s) then 1 else 0
    ensures !EndsInSlash(s) ==> |Split(s)| <= MAX_PATH_DEPTH && |Split(s)[|Split(s)| - 1]| <= NAME_LEN
  {
    SplitFacts(s);
  }

  lemma RoomFor(s: seq<byte>, i: nat)
    requires Parsable(s) && i < |s|
    ensures var p := Split(s[..i]); |p| <= MAX_PATH_DEPTH && |p[|p| - 1]| <= NAME_LEN
  {
    SplitFacts(s);
    SplitPrefix(s, i);
  }

  lemma RowFits(s: seq<byte>, r: nat)
    requires Parsable(s) && r < |Rows(s)|
    ensures Rows(s)[r] == RowContent(Split(s), r) && |Rows(s)[r]| < ROW_LEN && NoNul(Rows(s)[r])
  {
    SplitFacts(s);
  }

  // Lengths.

  function Total(r: seq<seq<byte>>): nat {
    if r == [] then 0 else Total(r[..|r| - 1]) + |r[|r| - 1]|
  }

  lemma {:induction false} JoinLength(r: seq<seq<byte>>)
    requires r != []
    ensures |Join(r)| == Total(r) + |r| - 1
  {
    if |r| > 1 {
      JoinLength(r[..|r| - 1]);
    } else {
      assert r[..0] == [];
      assert Total(r[..0]) == 0;
    }
  }

  lemma {:induction false} TotalGrows(r: seq<seq<byte>>, k: nat)
    requires k <= |r|
    ensures Total(r[..k]) <= Total(r) && (k < |r| ==> Total(r[..k]) + |r[|r| - 1]| <= Total(r))
    decreases |r|
  {
    if k < |r| {
      var t := r[..|r| - 1];
      assert t[..k] == r[..k];
      TotalGrows(t, k);
    } else {
      assert r[..k] == r;
    }
  }
}
