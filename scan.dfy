/**
 * The two fixed regular expressions of the extension, written as scanners.
 *
 * Block pattern (src/extension.ts:94): the marker "@loggingTester", matched
 * case-insensitively, followed by a greedy run of one or more block characters.
 * Field pattern (src/extension.ts:69): '@', one or more field characters, ':',
 * one or more field characters, both runs greedy.
 *
 * In both character classes the three characters space, hyphen, underscore form
 * the range 0x20..0x5F; together with the lower-case letters and the backtick
 * (0x60) every class becomes the contiguous range 0x20..0x7A ("z"), and the block
 * class also admits CR and LF. Both patterns carry the g flag: the scan restarts
 * at the end of every match and, where nothing matches, one position further on.
 */
module Scan {
  import opened Wrappers

  /** A half-open range [lo, hi) of positions in a text. */
  datatype Span = Span(lo: nat, hi: nat)

  /** The block marker in lower case; it is compared case-insensitively. */
  const Marker: string := "@loggingtester"

  /** A character a block may continue with: 0x20..0x7A, CR or LF. */
  predicate BlockChar(c: char) {
    ' ' <= c <= 'z' || c == '\r' || c == '\n'
  }

  /** A character a field name or a field value may consist of: 0x20..0x7A. */
  predicate FieldChar(c: char) {
    ' ' <= c <= 'z'
  }

  /** ASCII lower-casing: the only effect of the i flag on the marker's characters. */
  function Lower(c: char): char {
    if 'A' <= c <= 'Z' then (c as int + 32) as char else c
  }

  function LowerAll(s: string): (r: string)
    ensures |r| == |s|
  {
    if s == [] then [] else [Lower(s[0])] + LowerAll(s[1..])
  }

  /** The marker occurs, in any mixture of cases, at position i of t. */
  predicate MarkerAt(t: string, i: nat) {
    i + |Marker| <= |t| && LowerAll(t[i..i + |Marker|]) == Marker
  }

  /** The end of the longest run of characters satisfying p that starts at j:
      what a greedy "one or more" stops at. */
  function RunEnd(t: string, j: nat, p: char -> bool): (e: nat)
    requires j <= |t|
    ensures j <= e <= |t|
    ensures forall m :: j <= m < e ==> p(t[m])
    ensures e == |t| || !p(t[e])
    decreases |t| - j
  {
    if j == |t| || !p(t[j]) then j else RunEnd(t, j + 1, p)
  }

  // ---------------------------------------------------------------- blocks

  /** The end of the block pattern's match at position i, if it matches there. */
  function BlockMatchAt(t: string, i: nat): (r: Option<nat>)
    ensures r.Some? <==> MarkerAt(t, i) && i + |Marker| < |t| && BlockChar(t[i + |Marker|])
    ensures r.Some? ==> i + |Marker| < r.value <= |t|
  {
    if MarkerAt(t, i) && i + |Marker| < |t| && BlockChar(t[i + |Marker|])
    then Some(RunEnd(t, i + |Marker|, BlockChar))
    else None
  }

  /** s is where a block lies in t: the marker, then block characters up to a
      position that cannot be extended. */
  ghost predicate IsBlockSpan(t: string, s: Span) {
    s.lo + |Marker| < s.hi <= |t| && MarkerAt(t, s.lo)
    && (forall m :: s.lo + |Marker| <= m < s.hi ==> BlockChar(t[m]))
    && (s.hi == |t| || !BlockChar(t[s.hi]))
  }

  /** The spans lie at or after from, in increasing order and without overlap. */
  ghost predicate Ordered(spans: seq<Span>, from: nat) {
    (forall k :: 0 <= k < |spans| ==> from <= spans[k].lo)
    && forall k1, k2 :: 0 <= k1 < k2 < |spans| ==> spans[k1].hi <= spans[k2].lo
  }

  /** The spans of all blocks the global match finds from position from on. */
  function BlockSpansFrom(t: string, from: nat): (spans: seq<Span>)
    requires from <= |t|
    ensures forall k :: 0 <= k < |spans| ==> IsBlockSpan(t, spans[k])
    ensures Ordered(spans, from)
    decreases |t| - from
  {
    if from == |t| then []
    else
      match BlockMatchAt(t, from)
      case Some(e) => [Span(from, e)] + BlockSpansFrom(t, e)
      case None => BlockSpansFrom(t, from + 1)
  }

  function BlockSpans(t: string): seq<Span> {
    BlockSpansFrom(t, 0)
  }

  /** The texts of the blocks of t, in order: the list the global match returns
      (no match gives the empty list). Each starts with the marker and continues
      with block characters only. */
  function Blocks(t: string): (blocks: seq<string>)
    ensures |blocks| == |BlockSpans(t)|
    ensures forall k :: 0 <= k < |blocks| ==>
      |blocks[k]| > |Marker| && MarkerAt(blocks[k], 0)
      && forall m :: |Marker| <= m < |blocks[k]| ==> BlockChar(blocks[k][m])
  {
    var spans := BlockSpans(t);
    var blocks := seq(|spans|, k requires 0 <= k < |spans| => t[spans[k].lo..spans[k].hi]);
    assert forall k :: 0 <= k < |blocks| ==> MarkerAt(blocks[k], 0) by {
      forall k | 0 <= k < |blocks|
        ensures MarkerAt(blocks[k], 0)
      {
        MarkerInBlock(t, spans[k]);
      }
    }
    blocks
  }

  /** The first n characters of t[lo..hi] are t[lo..lo + n]. */
  lemma PrefixOfSlice(t: string, lo: nat, hi: nat, n: nat)
    requires lo + n <= hi <= |t|
    ensures t[lo..hi][0..n] == t[lo..lo + n]
  {
    var a, b := t[lo..hi][0..n], t[lo..lo + n];
    forall m | 0 <= m < n
      ensures a[m] == b[m]
    {
      assert a[m] == t[lo + m];
    }
  }

  /** The text of a block span starts with the marker. */
  lemma MarkerInBlock(t: string, s: Span)
    requires IsBlockSpan(t, s)
    ensures MarkerAt(t[s.lo..s.hi], 0)
  {
    var n := |Marker|;
    assert s.lo + n <= s.hi;
    PrefixOfSlice(t, s.lo, s.hi, n);
  }

  /** Each block is the text of its span, and the character after it, if any,
      is not a block character: the block cannot be extended. */
  lemma BlocksAreMaximal(t: string, k: nat)
    requires k < |Blocks(t)|
    ensures Blocks(t)[k] == t[BlockSpans(t)[k].lo..BlockSpans(t)[k].hi]
    ensures BlockSpans(t)[k].hi == |t| || !BlockChar(t[BlockSpans(t)[k].hi])
  {
    assert IsBlockSpan(t, BlockSpans(t)[k]);
  }

  /** Some span of spans contains position i. */
  predicate Covers(spans: seq<Span>, i: nat) {
    exists k :: 0 <= k < |spans| && spans[k].lo <= i < spans[k].hi
  }

  /** Putting a span in front keeps every covered position covered and adds its own. */
  lemma CoversPrepend(head: Span, rest: seq<Span>, i: nat)
    requires head.lo <= i < head.hi || Covers(rest, i)
    ensures Covers([head] + rest, i)
  {
    var spans := [head] + rest;
    if head.lo <= i < head.hi {
      assert spans[0] == head;
    } else {
      var k :| 0 <= k < |rest| && rest[k].lo <= i < rest[k].hi;
      assert spans[k + 1] == rest[k];
    }
  }

  /** Every occurrence of the marker that is followed by a block character lies
      inside one of the blocks found from any earlier position: the scan misses none. */
  lemma {:induction false} BlockSpansComplete(t: string, from: nat, i: nat)
    requires from <= i
    requires BlockMatchAt(t, i).Some?
    ensures Covers(BlockSpansFrom(t, from), i)
    decreases |t| - from
  {
    match BlockMatchAt(t, from)
    case Some(e) =>
      if e <= i {
        BlockSpansComplete(t, e, i);
      }
      CoversPrepend(Span(from, e), BlockSpansFrom(t, e), i);
    case None =>
      BlockSpansComplete(t, from + 1, i);
  }

  /** A text holds a block exactly when the marker occurs in it followed by a
      block character; in particular a text without the marker holds none. */
  lemma BlocksExistIff(t: string)
    ensures Blocks(t) != [] <==>
      exists i :: 0 <= i && i + |Marker| < |t| && MarkerAt(t, i) && BlockChar(t[i + |Marker|])
  {
    if Blocks(t) != [] {
      var s := BlockSpans(t)[0];
      assert IsBlockSpan(t, s);
      assert s.lo + |Marker| < |t| && MarkerAt(t, s.lo) && BlockChar(t[s.lo + |Marker|]);
    }
    if exists i :: 0 <= i && i + |Marker| < |t| && MarkerAt(t, i) && BlockChar(t[i + |Marker|]) {
      var i :| 0 <= i && i + |Marker| < |t| && MarkerAt(t, i) && BlockChar(t[i + |Marker|]);
      BlockSpansComplete(t, 0, i);
    }
  }

  // ---------------------------------------------------------------- fields

  /** The end of the field pattern's match at position i, if it matches there.
      The first greedy run swallows every field character, the colon included,
      and backtracks to a colon that leaves at least one field character on each
      side; the second run then reaches the same end, so the match ends where the
      field characters after '@' end. */
  function FieldMatchAt(b: string, i: nat): (r: Option<nat>)
    requires i < |b|
    ensures r.Some? ==> b[i] == '@' && i + 4 <= r.value <= |b|
    ensures r.Some? ==> r.value == |b| || !FieldChar(b[r.value])
  {
    if b[i] != '@' then None
    else
      var e := RunEnd(b, i + 1, FieldChar);
      if exists k :: i + 2 <= k <= e - 2 && b[k] == ':' then Some(e) else None
  }

  /** b[i..j] is a match of the field pattern whose separating colon sits at k. */
  ghost predicate FieldShape(b: string, i: nat, k: nat, j: nat) {
    i + 2 <= k && k + 2 <= j <= |b| && b[i] == '@' && b[k] == ':'
    && (forall m :: i < m < k ==> FieldChar(b[m]))
    && (forall m :: k < m < j ==> FieldChar(b[m]))
  }

  /** FieldMatchAt agrees with the pattern: it matches exactly where some match of
      the field pattern starts, and then ends at the longest one. */
  lemma FieldMatchIsLongest(b: string, i: nat)
    requires i < |b|
    ensures FieldMatchAt(b, i).Some? <==> exists k: nat, j: nat :: FieldShape(b, i, k, j)
    ensures FieldMatchAt(b, i).Some? ==>
      (exists k: nat :: FieldShape(b, i, k, FieldMatchAt(b, i).value))
      && forall k: nat, j: nat :: FieldShape(b, i, k, j) ==> j <= FieldMatchAt(b, i).value
  {
    if b[i] == '@' {
      var e := RunEnd(b, i + 1, FieldChar);
      forall k: nat, j: nat | FieldShape(b, i, k, j)
        ensures j <= e && b[k] == ':' && i + 2 <= k <= e - 2
      {
        if e < j {
          assert i < e && (e < k || e == k || k < e);
          assert FieldChar(b[e]);
        }
      }
      if exists k: int :: i + 2 <= k <= e - 2 && b[k] == ':' {
        var k: int :| i + 2 <= k <= e - 2 && b[k] == ':';
        assert FieldShape(b, i, k, e);
      }
    }
  }

  /** s is where a field segment lies in b: '@', field characters up to a position
      that cannot be extended, and a colon with a field character on each side. */
  ghost predicate IsSegmentSpan(b: string, s: Span) {
    s.lo + 4 <= s.hi <= |b| && b[s.lo] == '@'
    && (exists k :: s.lo + 2 <= k <= s.hi - 2 && b[k] == ':')
    && (forall m :: s.lo <= m < s.hi ==> FieldChar(b[m]))
    && (s.hi == |b| || !FieldChar(b[s.hi]))
  }

  /** The spans of all field segments the global match finds from position from on. */
  function SegmentSpansFrom(b: string, from: nat): (spans: seq<Span>)
    requires from <= |b|
    ensures forall k :: 0 <= k < |spans| ==> IsSegmentSpan(b, spans[k])
    ensures Ordered(spans, from)
    decreases |b| - from
  {
    if from == |b| then []
    else
      match FieldMatchAt(b, from)
      case Some(e) => [Span(from, e)] + SegmentSpansFrom(b, e)
      case None => SegmentSpansFrom(b, from + 1)
  }

  function SegmentSpans(b: string): seq<Span> {
    SegmentSpansFrom(b, 0)
  }

  /** A segment as the decoder receives it: '@' first, and a colon after it. */
  predicate WellFormedSegment(seg: string) {
    |seg| > 0 && seg[0] == '@' && exists m :: 1 <= m < |seg| && seg[m] == ':'
  }

  /** The texts of the field segments of a block, in order (src/extension.ts:69).
      None holds CR or LF: every character is a field character. */
  function Segments(b: string): (segs: seq<string>)
    ensures |segs| == |SegmentSpans(b)|
    ensures forall k :: 0 <= k < |segs| ==>
      WellFormedSegment(segs[k]) && forall m :: 0 <= m < |segs[k]| ==> FieldChar(segs[k][m])
  {
    var spans := SegmentSpans(b);
    var segs := seq(|spans|, k requires 0 <= k < |spans| => b[spans[k].lo..spans[k].hi]);
    assert forall k :: 0 <= k < |segs| ==> WellFormedSegment(segs[k]) by {
      forall k | 0 <= k < |segs|
        ensures WellFormedSegment(segs[k])
      {
        var s := spans[k];
        var c :| s.lo + 2 <= c <= s.hi - 2 && b[c] == ':';
        assert segs[k][c - s.lo] == ':';
      }
    }
    segs
  }

  /** Each segment is the text of its span, and the character after it, if any,
      is not a field character: the segment cannot be extended. */
  lemma SegmentsAreMaximal(b: string, k: nat)
    requires k < |Segments(b)|
    ensures Segments(b)[k] == b[SegmentSpans(b)[k].lo..SegmentSpans(b)[k].hi]
    ensures SegmentSpans(b)[k].hi == |b| || !FieldChar(b[SegmentSpans(b)[k].hi])
  {
    assert IsSegmentSpan(b, SegmentSpans(b)[k]);
  }

  /** Every position where the field pattern matches lies inside one of the
      segments found from any earlier position: the scan misses none. */
  lemma {:induction false} SegmentSpansComplete(b: string, from: nat, i: nat)
    requires from <= i < |b|
    requires FieldMatchAt(b, i).Some?
    ensures Covers(SegmentSpansFrom(b, from), i)
    decreases |b| - from
  {
    match FieldMatchAt(b, from)
    case Some(e) =>
      if e <= i {
        SegmentSpansComplete(b, e, i);
      }
      CoversPrepend(Span(from, e), SegmentSpansFrom(b, e), i);
    case None =>
      SegmentSpansComplete(b, from + 1, i);
  }

  /** A line break occurs in b between positions lo and hi. */
  predicate LineBreakBetween(b: string, lo: nat, hi: nat)
    requires hi <= |b|
  {
    exists m :: lo <= m < hi && (b[m] == '\r' || b[m] == '\n')
  }

  /** Inside a block every character is a block character, so two segments are
      always separated by a line break: a line yields at most one segment. */
  lemma SegmentsOnePerLine(b: string)
    requires forall m :: 0 <= m < |b| ==> BlockChar(b[m])
    ensures forall k1, k2 :: 0 <= k1 < k2 < |SegmentSpans(b)| ==>
      LineBreakBetween(b, SegmentSpans(b)[k1].hi, SegmentSpans(b)[k2].lo)
  {
    var spans := SegmentSpans(b);
    forall k1, k2 | 0 <= k1 < k2 < |spans|
      ensures LineBreakBetween(b, spans[k1].hi, spans[k2].lo)
    {
      var h := spans[k1].hi;
      assert IsSegmentSpan(b, spans[k2]);
      assert h <= spans[k2].lo;
      assert h != spans[k2].lo by {
        assert FieldChar(b[spans[k2].lo]);
      }
      assert b[h] == '\r' || b[h] == '\n';
    }
  }

  /** Lower-casing works character by character. */
  lemma {:induction false} LowerAllAt(s: string, m: nat)
    requires m < |s|
    ensures LowerAll(s)[m] == Lower(s[m])
  {
    if m > 0 {
      LowerAllAt(s[1..], m - 1);
    }
  }

  /** Every character of a block is a block character, the marker's included:
      a character whose lower case is a marker character is a letter or '@'. */
  lemma BlocksAreBlockChars(t: string, k: nat)
    requires k < |Blocks(t)|
    ensures forall m :: 0 <= m < |Blocks(t)[k]| ==> BlockChar(Blocks(t)[k][m])
  {
    var b := Blocks(t)[k];
    forall m | 0 <= m < |Marker|
      ensures BlockChar(b[m])
    {
      LowerAllAt(b[0..|Marker|], m);
      assert Lower(b[m]) == Marker[m];
    }
  }

  /** Within each block the extractor returns, a line break lies between any
      two segments. */
  lemma BlockSegmentsOnePerLine(t: string, k: nat)
    requires k < |Blocks(t)|
    ensures forall k1, k2 :: 0 <= k1 < k2 < |SegmentSpans(Blocks(t)[k])| ==>
      LineBreakBetween(Blocks(t)[k], SegmentSpans(Blocks(t)[k])[k1].hi, SegmentSpans(Blocks(t)[k])[k2].lo)
  {
    BlocksAreBlockChars(t, k);
    SegmentsOnePerLine(Blocks(t)[k]);
  }
}
