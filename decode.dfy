/**
 * Decoding of blocks into records (src/extension.ts:66-83): every field
 * segment of a block loses its leading '@', is split at the separator
 * "spaces, colon, spaces" (src/extension.ts:73), and its first two pieces
 * are stored as key and value of the block's record (src/extension.ts:77).
 * A block with at least one segment yields one record; the records are
 * appended in block order (src/extension.ts:80-82).
 */
module Decode {
  import opened Wrappers
  import opened Scan

  /** A decoded annotation: field name to field value. */
  type Record = map<string, string>

  /** The end of the run of spaces that starts at j: what a greedy "[ ]*" stops at. */
  function SpacesEnd(s: string, j: nat): (e: nat)
    requires j <= |s|
    ensures j <= e <= |s|
    decreases |s| - j
  {
    if j == |s| || s[j] != ' ' then j else SpacesEnd(s, j + 1)
  }

  /** SpacesEnd(s, j) ends the run: spaces up to it, and no space at it. */
  lemma {:induction false} SpacesEndIsRunEnd(s: string, j: nat)
    requires j <= |s|
    ensures forall m :: j <= m < SpacesEnd(s, j) ==> s[m] == ' '
    ensures SpacesEnd(s, j) == |s| || s[SpacesEnd(s, j)] != ' '
    decreases |s| - j
  {
    if j < |s| && s[j] == ' ' {
      SpacesEndIsRunEnd(s, j + 1);
    }
  }

  /** x without its leading spaces. */
  function TrimStartSpaces(x: string): (r: string)
    ensures |r| <= |x|
  {
    if x != [] && x[0] == ' ' then TrimStartSpaces(x[1..]) else x
  }

  /** TrimStartSpaces removes a run of spaces from the front and nothing else. */
  lemma {:induction false} TrimStartRemovesSpaces(x: string)
    ensures TrimStartSpaces(x) == x[|x| - |TrimStartSpaces(x)|..]
    ensures TrimStartSpaces(x) == [] || TrimStartSpaces(x)[0] != ' '
    ensures forall m :: 0 <= m < |x| - |TrimStartSpaces(x)| ==> x[m] == ' '
  {
    if x != [] && x[0] == ' ' {
      TrimStartRemovesSpaces(x[1..]);
    }
  }

  /** x without its trailing spaces. */
  function TrimEndSpaces(x: string): (r: string)
    ensures |r| <= |x| && r == x[..|r|]
    ensures r == [] || r[|r| - 1] != ' '
    ensures forall m :: |r| <= m < |x| ==> x[m] == ' '
  {
    if x != [] && x[|x| - 1] == ' ' then TrimEndSpaces(x[..|x| - 1]) else x
  }

  predicate NoColon(x: string) {
    forall m :: 0 <= m < |x| ==> x[m] != ':'
  }

  /** The position of the first colon of x, if it has one. */
  function FindColon(x: string): (r: Option<nat>)
    ensures r.Some? ==> r.value < |x| && x[r.value] == ':' && NoColon(x[..r.value])
    ensures r.None? ==> NoColon(x)
  {
    if x == [] then None
    else if x[0] == ':' then Some(0)
    else
      match FindColon(x[1..])
      case None => None
      case Some(c) => Some(c + 1)
  }

  /** The first piece of x: up to the first colon without the spaces in front of
      it, or all of x when it has no colon. */
  function Piece(x: string): string {
    match FindColon(x)
    case None => x
    case Some(c) => TrimEndSpaces(x[..c])
  }

  /** What follows the first separator of x: the text after its first colon
      without the spaces behind that colon. */
  function AfterSeparator(x: string): (rest: string)
    requires FindColon(x).Some?
    ensures |rest| < |x|
  {
    TrimStartSpaces(x[FindColon(x).value + 1..])
  }

  /** The pieces of x between the separators (any spaces, a colon, any spaces),
      defined piece by piece. */
  function Split(x: string): (parts: seq<string>)
    ensures |parts| >= 1
    decreases |x|
  {
    match FindColon(x)
    case None => [x]
    case Some(c) => [Piece(x)] + Split(AfterSeparator(x))
  }

  // ------------------------------------------------ the scan split performs

  /** Where a match of the separator that starts exactly at q ends, if one does:
      the spaces are taken greedily, so only a colon may stop them. */
  function SeparatorAt(s: string, q: nat): (r: Option<nat>)
    requires q <= |s|
    ensures r.Some? ==> q < r.value <= |s|
    ensures r.None? && q < |s| ==> s[q] != ':'
  {
    var c := SpacesEnd(s, q);
    if c < |s| && s[c] == ':' then Some(SpacesEnd(s, c + 1)) else None
  }

  /** The pieces String.prototype.split returns for this separator, following the
      scan of ECMAScript's RegExp split: p is where the current piece starts, q the
      next position at which the separator is tried. A separator match is never
      empty, so the guard against empty matches never fires. */
  function SplitScan(s: string, p: nat, q: nat): (parts: seq<string>)
    requires p <= q <= |s|
    ensures |parts| >= 1
    decreases |s| - q
  {
    if q == |s| then [s[p..]]
    else
      match SeparatorAt(s, q)
      case None => SplitScan(s, p, q + 1)
      case Some(e) => [s[p..q]] + SplitScan(s, e, e)
  }

  /** A colon at or after q makes the scan cut at least once. */
  lemma {:induction false} ScanWithColon(s: string, p: nat, q: nat, m: nat)
    requires p <= q <= m < |s| && s[m] == ':'
    ensures |SplitScan(s, p, q)| >= 2
    decreases |s| - q
  {
    if SeparatorAt(s, q).None? {
      ScanWithColon(s, p, q + 1, m);
    }
  }

  lemma ScanWithoutColon(s: string, p: nat, q: nat)
    requires p <= q <= |s|
    requires forall m :: q <= m < |s| ==> s[m] != ':'
    ensures SplitScan(s, p, q) == [s[p..]]
  {
    ScanSkips(s, p, q, |s|);
  }

  /** A run of spaces from q stops before q0 when the character before q0 is not a space. */
  lemma {:induction false} SpacesStopBefore(s: string, q: nat, q0: nat)
    requires q < q0 <= |s| && s[q0 - 1] != ' '
    ensures SpacesEnd(s, q) < q0
    decreases q0 - q
  {
    if s[q] == ' ' {
      SpacesStopBefore(s, q + 1, q0);
    }
  }

  /** A run of spaces from q that a non-space at c ends stops exactly at c. */
  lemma {:induction false} SpacesStopAt(s: string, q: nat, c: nat)
    requires q <= c < |s| && s[c] != ' '
    requires forall m :: q <= m < c ==> s[m] == ' '
    ensures SpacesEnd(s, q) == c
    decreases c - q
  {
    if q < c {
      SpacesStopAt(s, q + 1, c);
    }
  }

  /** Positions where the separator does not match do not change the pieces. */
  lemma {:induction false} ScanSkips(s: string, p: nat, q: nat, q1: nat)
    requires p <= q <= q1 <= |s|
    requires forall r :: q <= r < q1 ==> SeparatorAt(s, r).None?
    ensures SplitScan(s, p, q) == SplitScan(s, p, q1)
    decreases q1 - q
  {
    if q < q1 {
      ScanSkips(s, p, q + 1, q1);
    }
  }

  /** From p on, the scan finds no separator before q0, where the spaces in front
      of the colon at c begin, and there it cuts the current piece. */
  lemma ScanToSeparator(s: string, p: nat, q0: nat, c: nat)
    requires p <= q0 <= c < |s| && s[c] == ':'
    requires forall m :: p <= m < c ==> s[m] != ':'
    requires forall m :: q0 <= m < c ==> s[m] == ' '
    requires p < q0 ==> s[q0 - 1] != ' '
    ensures SplitScan(s, p, p) == [s[p..q0]] + SplitScan(s, SpacesEnd(s, c + 1), SpacesEnd(s, c + 1))
  {
    forall r | p <= r < q0
      ensures SeparatorAt(s, r).None?
    {
      SpacesStopBefore(s, r, q0);
    }
    ScanSkips(s, p, p, q0);
    SpacesStopAt(s, q0, c);
    assert SeparatorAt(s, q0) == Some(SpacesEnd(s, c + 1));
  }

  /** Skipping spaces with SpacesEnd and trimming them off agree. */
  lemma SpacesSkipped(s: string, j: nat)
    requires j <= |s|
    ensures s[SpacesEnd(s, j)..] == TrimStartSpaces(s[j..])
  {
    var e := SpacesEnd(s, j);
    var x := s[j..];
    SpacesEndIsRunEnd(s, j);
    TrimStartRemovesSpaces(x);
    var d := |x| - |TrimStartSpaces(x)|;
    assert forall m :: j <= m < j + d ==> s[m] == x[m - j];
    assert e >= j + d;
    assert e <= j + d by {
      if j + d < |s| {
        assert s[j + d] == TrimStartSpaces(x)[0];
      }
    }
  }

  /** The first piece of a text with a colon, as positions: it is a prefix that
      stops before the colon, only spaces lie between it and the colon, and it
      does not end with a space. */
  lemma PieceLayout(x: string) returns (c: nat, n: nat)
    requires FindColon(x).Some?
    ensures c == FindColon(x).value && n == |Piece(x)|
    ensures n <= c < |x| && x[c] == ':' && Piece(x) == x[..n]
    ensures forall m :: 0 <= m < c ==> x[m] != ':'
    ensures forall m :: n <= m < c ==> x[m] == ' '
    ensures 0 < n ==> x[n - 1] != ' '
  {
    c := FindColon(x).value;
    var head := x[..c];
    var piece := TrimEndSpaces(head);
    n := |piece|;
    assert forall m :: 0 <= m < c ==> x[m] == head[m];
  }

  /** PieceLayout, stated for the text of s from position p on. */
  lemma PieceLayoutFrom(s: string, p: nat) returns (c: nat, n: nat)
    requires p <= |s| && FindColon(s[p..]).Some?
    ensures p + n <= c < |s| && s[c] == ':'
    ensures forall m :: p <= m < c ==> s[m] != ':'
    ensures forall m :: p + n <= m < c ==> s[m] == ' '
    ensures 0 < n ==> s[p + n - 1] != ' '
    ensures Split(s[p..]) == [s[p..p + n]] + Split(TrimStartSpaces(s[c + 1..]))
  {
    var x := s[p..];
    var c', n' := PieceLayout(x);
    c, n := p + c', n';
    forall m | p <= m < c
      ensures s[m] != ':' && (p + n <= m ==> s[m] == ' ')
    {
      assert s[m] == x[m - p];
    }
    assert 0 < n ==> s[p + n - 1] == x[n - 1];
    assert x[..n] == s[p..p + n];
    assert x[c' + 1..] == s[c + 1..];
  }

  /** When the rest of s from p has a colon, the scan cuts off its first piece
      and continues after the first separator, as Split does. */
  lemma ScanFirstPiece(s: string, p: nat, c: nat, n: nat) returns (e: nat)
    requires p + n <= c < |s| && s[c] == ':'
    requires forall m :: p <= m < c ==> s[m] != ':'
    requires forall m :: p + n <= m < c ==> s[m] == ' '
    requires 0 < n ==> s[p + n - 1] != ' '
    ensures e == SpacesEnd(s, c + 1) && p < e
    ensures SplitScan(s, p, p) == [s[p..p + n]] + SplitScan(s, e, e)
  {
    ScanToSeparator(s, p, p + n, c);
    e := SpacesEnd(s, c + 1);
  }

  /** The scan and Split cut off the same first piece, where the scan then
      resumes after the spaces that follow the first colon at c. */
  lemma CutFirstPiece(s: string, p: nat) returns (c: nat, n: nat, e: nat)
    requires p <= |s| && FindColon(s[p..]).Some?
    ensures p + n <= c < |s| && e == SpacesEnd(s, c + 1)
    ensures SplitScan(s, p, p) == [s[p..p + n]] + SplitScan(s, e, e)
    ensures Split(s[p..]) == [s[p..p + n]] + Split(TrimStartSpaces(s[c + 1..]))
  {
    c, n := PieceLayoutFrom(s, p);
    e := ScanFirstPiece(s, p, c, n);
  }

  /** One step of both definitions: when the rest of s from p has a colon, the
      scan and Split both cut off the same first piece and continue at the same
      place, the first position after the first separator. */
  lemma ScanStep(s: string, p: nat) returns (e: nat, n: nat)
    requires p <= |s| && FindColon(s[p..]).Some?
    ensures p < e <= |s| && p + n <= |s|
    ensures SplitScan(s, p, p) == [s[p..p + n]] + SplitScan(s, e, e)
    ensures Split(s[p..]) == [s[p..p + n]] + Split(s[e..])
  {
    var c;
    c, n, e := CutFirstPiece(s, p);
    var rest := TrimStartSpaces(s[c + 1..]);
    SpacesSkipped(s, c + 1);
    assert Split(s[e..]) == Split(rest);
  }

  /** The scan of the split built-in cuts x exactly as Split describes. */
  lemma {:induction false} SplitScanIsSplit(s: string, p: nat)
    requires p <= |s|
    ensures SplitScan(s, p, p) == Split(s[p..])
    decreases |s| - p
  {
    if FindColon(s[p..]).None? {
      forall m | p <= m < |s|
        ensures s[m] != ':'
      {
        assert s[p..][m - p] == s[m];
      }
      ScanWithoutColon(s, p, p);
    } else {
      var e, n := ScanStep(s, p);
      SplitScanIsSplit(s, e);
    }
  }

  // ------------------------------------------------ segments and records

  /** Key and value of one field segment: the first '@' (the segment's first
      character) is dropped, the rest is split, and the first two pieces are
      taken (src/extension.ts:73). The key is the text up to the first colon
      without the spaces in front of it; the value starts after the spaces
      behind that colon and stops in front of the next separator. */
  function DecodeSegment(seg: string): (kv: (string, string))
    requires WellFormedSegment(seg)
    ensures FindColon(seg[1..]).Some?
    ensures kv == (Piece(seg[1..]), Piece(AfterSeparator(seg[1..])))
  {
    var m :| 1 <= m < |seg| && seg[m] == ':';
    ScanWithColon(seg[1..], 0, 0, m - 1);
    var parts := SplitScan(seg[1..], 0, 0);
    SegmentSplit(seg, m);
    (parts[0], parts[1])
  }

  /** The segment without its '@' has a colon, and the scan splits it as Split does. */
  lemma SegmentSplit(seg: string, m: nat)
    requires 1 <= m < |seg| && seg[m] == ':'
    ensures FindColon(seg[1..]).Some?
    ensures SplitScan(seg[1..], 0, 0) == Split(seg[1..])
  {
    var s := seg[1..];
    assert s[m - 1] == ':';
    SplitScanIsSplit(s, 0);
    assert s[0..] == s;
  }

  /** A piece holds no colon. */
  lemma PieceHasNoColon(x: string)
    ensures NoColon(Piece(x))
  {
    match FindColon(x)
    case None =>
    case Some(c) =>
      var t := TrimEndSpaces(x[..c]);
      forall m | 0 <= m < |t|
        ensures t[m] != ':'
      {
        assert t[m] == x[..c][m];
      }
  }

  /** Neither the key nor the value of a segment holds a colon. */
  lemma DecodeSegmentFields(seg: string)
    requires WellFormedSegment(seg)
    ensures NoColon(DecodeSegment(seg).0) && NoColon(DecodeSegment(seg).1)
  {
    var s := seg[1..];
    PieceHasNoColon(s);
    PieceHasNoColon(AfterSeparator(s));
  }

  /** The key/value pairs of a block's segments, in segment order. */
  function Fields(b: string): (fields: seq<(string, string)>)
    ensures |fields| == |Segments(b)|
  {
    var segs := Segments(b);
    seq(|segs|, k requires 0 <= k < |segs| => DecodeSegment(segs[k]))
  }

  /** The record the pairs build when assigned one after another into an empty
      object: its keys are exactly the pairs' keys. */
  function Collect(pairs: seq<(string, string)>): (r: Record)
    ensures r.Keys == set i | 0 <= i < |pairs| :: pairs[i].0
  {
    if pairs == [] then map[]
    else
      var last := pairs[|pairs| - 1];
      Collect(pairs[..|pairs| - 1])[last.0 := last.1]
  }

  /** A later pair overwrites an earlier one with the same key: a key maps to the
      value of its last pair. */
  lemma {:induction false} CollectLastWins(pairs: seq<(string, string)>, i: nat)
    requires i < |pairs|
    requires forall j :: i < j < |pairs| ==> pairs[j].0 != pairs[i].0
    ensures pairs[i].0 in Collect(pairs) && Collect(pairs)[pairs[i].0] == pairs[i].1
  {
    if i < |pairs| - 1 {
      CollectLastWins(pairs[..|pairs| - 1], i);
    }
  }

  /** With distinct keys, n pairs build a record of exactly n keys. */
  lemma {:induction false} CollectDistinctSize(pairs: seq<(string, string)>)
    requires forall i, j :: 0 <= i < j < |pairs| ==> pairs[i].0 != pairs[j].0
    ensures |Collect(pairs)| == |pairs|
  {
    if pairs != [] {
      var init := pairs[..|pairs| - 1];
      CollectDistinctSize(init);
      var last := pairs[|pairs| - 1];
      assert last.0 !in Collect(init);
    }
  }

  /** Assigning one more pair updates the record built so far. */
  lemma CollectStep(pairs: seq<(string, string)>, j: nat)
    requires j < |pairs|
    ensures Collect(pairs[..j + 1]) == Collect(pairs[..j])[pairs[j].0 := pairs[j].1]
  {
    assert pairs[..j + 1][..j] == pairs[..j];
  }

  /** The record of a block, if it has at least one segment (src/extension.ts:70-82). */
  function RecordOfBlock(b: string): Option<Record> {
    if Fields(b) == [] then None else Some(Collect(Fields(b)))
  }

  /** The inner loop of src/extension.ts:70-79: starting from undefined, assign
      the key and value of every segment of the block. */
  method BuildRecord(testerContent: string) returns (testerJson: Option<Record>)
    ensures testerJson == RecordOfBlock(testerContent)
  {
    var contentList := Segments(testerContent);
    ghost var fields := Fields(testerContent);
    testerJson := None;
    for j := 0 to |contentList|
      invariant testerJson == if j == 0 then None else Some(Collect(fields[..j]))
    {
      var (key, value) := DecodeSegment(contentList[j]);
      if testerJson.None? {
        testerJson := Some(map[]);
      }
      testerJson := Some(testerJson.value[key := value]);
      CollectStep(fields, j);
    }
    assert fields[..|contentList|] == fields;
  }

  /** The records the blocks produce, in block order. */
  function RecordsOf(blocks: seq<string>): seq<Record>
    decreases |blocks|
  {
    if blocks == [] then []
    else
      var rest := RecordsOf(blocks[..|blocks| - 1]);
      match RecordOfBlock(blocks[|blocks| - 1])
      case None => rest
      case Some(r) => rest + [r]
  }

  /** Records of consecutive groups of blocks are the consecutive groups of records:
      one block, one record or none, and block order is kept. */
  lemma {:induction false} RecordsOfAppend(a: seq<string>, b: seq<string>)
    ensures RecordsOf(a + b) == RecordsOf(a) + RecordsOf(b)
    decreases |b|
  {
    if b == [] {
      assert a + b == a;
    } else {
      var b' := b[..|b| - 1];
      assert (a + b)[..|a + b| - 1] == a + b';
      RecordsOfAppend(a, b');
    }
  }

  /** A single block yields one record exactly when it has a segment. */
  lemma RecordsOfOne(b: string)
    ensures RecordsOf([b]) == if Segments(b) == [] then [] else [Collect(Fields(b))]
  {
    assert [b][..0] == [];
  }

  /** The decoding loop of src/extension.ts:66-83 for the text of one file: find
      the blocks, build each one's record, and push the record when one was built. */
  method ExtractRecords(code: string) returns (testerList: seq<Record>)
    ensures testerList == RecordsOf(Blocks(code))
  {
    var contentLists := Blocks(code);
    testerList := [];
    for i := 0 to |contentLists|
      invariant testerList == RecordsOf(contentLists[..i])
    {
      var testerJson := BuildRecord(contentLists[i]);
      if testerJson.Some? {
        testerList := testerList + [testerJson.value];
      }
      assert contentLists[..i + 1][..i] == contentLists[..i];
    }
    assert contentLists[..|contentLists|] == contentLists;
  }

  /** A file without the marker yields no record. */
  lemma NoMarkerNoRecords(code: string)
    requires forall i :: 0 <= i <= |code| ==> !MarkerAt(code, i)
    ensures RecordsOf(Blocks(code)) == []
  {
    BlocksExistIff(code);
  }
}
