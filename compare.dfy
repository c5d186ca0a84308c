/**
 * The comparison of the observed records with the standard records
 * (src/extension.ts:97-129).
 *
 * A standard record is given as the list of its fields in the order
 * Object.keys visits them. compareWithStandard looks every field of one
 * standard record up in all observed records, marks each observed record that
 * holds the field, and keeps only the last field's outcome as its result.
 * compareWithStandardList runs it for every standard record, keeps only the
 * last record's outcome, reports an error for every standard record whose
 * result is false and, once all standard records are done, a warning for every
 * observed record that no standard record marked. Diagnostics are returned as
 * the indices they are reported for: standard indices for errors, observed
 * indices for warnings.
 */
module Compare {
  import opened Decode

  /** A field of a standard record: a key and the value it must have. */
  type Field = (string, string)

  /** A standard record, its fields in Object.keys order. */
  type Standard = seq<Field>

  /** The observed record has the field's key with exactly the field's value. */
  predicate Holds(o: Record, f: Field) {
    f.0 in o && o[f.0] == f.1
  }

  /** Some observed record holds the field. */
  predicate Found(observed: seq<Record>, f: Field) {
    exists j :: 0 <= j < |observed| && Holds(observed[j], f)
  }

  /** The observed record holds some field of the standard record: comparing
      against that record marks it. */
  predicate MarkedBy(standard: Standard, o: Record) {
    exists m :: 0 <= m < |standard| && Holds(o, standard[m])
  }

  /** Some standard record of the list marks the observed record. */
  predicate Marked(standards: seq<Standard>, o: Record) {
    exists i :: 0 <= i < |standards| && MarkedBy(standards[i], o)
  }

  /** The result compareWithStandard computes: true for a record without fields,
      otherwise whether its last field is found; earlier fields do not count. */
  predicate LastKeyFound(standard: Standard, observed: seq<Record>) {
    standard == [] || Found(observed, standard[|standard| - 1])
  }

  /** What the comparison of one record evidently intends: every field is found. */
  predicate AllKeysFound(standard: Standard, observed: seq<Record>) {
    forall m :: 0 <= m < |standard| ==> Found(observed, standard[m])
  }

  /** The result compareWithStandard gives for each standard record of the list. */
  function Verdicts(standards: seq<Standard>, observed: seq<Record>): seq<bool>
  {
    seq(|standards|, i requires 0 <= i < |standards| => LastKeyFound(standards[i], observed))
  }

  /** The intended result for each standard record of the list. */
  function AllKeysVerdicts(standards: seq<Standard>, observed: seq<Record>): seq<bool>
  {
    seq(|standards|, i requires 0 <= i < |standards| => AllKeysFound(standards[i], observed))
  }

  /** For each observed record, whether some standard record of the list marks it. */
  function MarkFlags(standards: seq<Standard>, observed: seq<Record>): seq<bool>
  {
    seq(|observed|, j requires 0 <= j < |observed| => Marked(standards, observed[j]))
  }

  /** The positions of the false entries, in increasing order: the indices a
      diagnostic is reported for, in the order it is reported. */
  function FalseAt(bs: seq<bool>): (idx: seq<nat>)
    ensures forall k :: 0 <= k < |idx| ==> idx[k] < |bs| && !bs[idx[k]]
    ensures forall k1, k2 :: 0 <= k1 < k2 < |idx| ==> idx[k1] < idx[k2]
    decreases |bs|
  {
    if bs == [] then []
    else
      var n := |bs| - 1;
      FalseAt(bs[..n]) + (if bs[n] then [] else [n])
  }

  /** Every false entry is reported: FalseAt holds exactly the positions of the
      false entries. */
  lemma {:induction false} FalseAtExactly(bs: seq<bool>, i: nat)
    ensures i in FalseAt(bs) <==> i < |bs| && !bs[i]
    decreases |bs|
  {
    if bs != [] {
      var n := |bs| - 1;
      FalseAtExactly(bs[..n], i);
      if i < n {
        assert bs[..n][i] == bs[i];
      }
    }
  }

  /** With only false entries, every position is reported, in order. */
  lemma {:induction false} FalseAtAllFalse(bs: seq<bool>)
    requires forall i :: 0 <= i < |bs| ==> !bs[i]
    ensures FalseAt(bs) == seq(|bs|, i requires 0 <= i < |bs| => i)
    decreases |bs|
  {
    if bs != [] {
      var n := |bs| - 1;
      FalseAtAllFalse(bs[..n]);
    }
  }

  /** The inner loop of src/extension.ts:114-121 for one field: look it up in
      every observed record, mark each record that holds it, and report whether
      any does. */
  method MarkKey(f: Field, observed: seq<Record>, marks: array<bool>) returns (flag: bool)
    requires marks.Length == |observed|
    modifies marks
    ensures flag == Found(observed, f)
    ensures forall j :: 0 <= j < |observed| ==> marks[j] == (old(marks[j]) || Holds(observed[j], f))
  {
    var (key, standardValue) := f;
    flag := false;
    for j := 0 to |observed|
      invariant flag == exists j' :: 0 <= j' < j && Holds(observed[j'], f)
      invariant forall j' :: 0 <= j' < j ==> marks[j'] == (old(marks[j']) || Holds(observed[j'], f))
      invariant forall j' :: j <= j' < |observed| ==> marks[j'] == old(marks[j'])
    {
      var tester := observed[j];
      if key in tester && tester[key] == standardValue {
        flag := true;
        marks[j] := true;
      }
    }
  }

  /** compareWithStandard (src/extension.ts:111-129): every field is looked up
      and marks the records that hold it, but each field's outcome overwrites
      the result, so the last field decides it. Marks are only ever set. */
  method CompareWithStandard(standard: Standard, observed: seq<Record>, marks: array<bool>)
    returns (res: bool)
    requires marks.Length == |observed|
    modifies marks
    ensures res == LastKeyFound(standard, observed)
    ensures forall j :: 0 <= j < |observed| ==>
      marks[j] == (old(marks[j]) || MarkedBy(standard, observed[j]))
  {
    res := true;
    for m := 0 to |standard|
      invariant res == LastKeyFound(standard[..m], observed)
      invariant forall j :: 0 <= j < |observed| ==>
        marks[j] == (old(marks[j]) || MarkedBy(standard[..m], observed[j]))
    {
      var flag := MarkKey(standard[m], observed, marks);
      res := flag;
      forall j | 0 <= j < |observed|
        ensures MarkedBy(standard[..m + 1], observed[j])
          == (MarkedBy(standard[..m], observed[j]) || Holds(observed[j], standard[m]))
      {
        MarkedByExtend(standard, m, observed[j]);
      }
    }
    assert standard[..|standard|] == standard;
  }

  /** A record is marked by the first m + 1 fields exactly when it is marked by
      the first m or holds field m. */
  lemma MarkedByExtend(standard: Standard, m: nat, o: Record)
    requires m < |standard|
    ensures MarkedBy(standard[..m + 1], o) == (MarkedBy(standard[..m], o) || Holds(o, standard[m]))
  {
    var pre, ext := standard[..m], standard[..m + 1];
    if MarkedBy(ext, o) && !Holds(o, standard[m]) {
      var k :| 0 <= k < |ext| && Holds(o, ext[k]);
      assert pre[k] == ext[k];
    }
    if MarkedBy(pre, o) {
      var k :| 0 <= k < |pre| && Holds(o, pre[k]);
      assert ext[k] == pre[k];
    }
    assert ext[m] == standard[m];
  }

  /** A record is marked by the first i + 1 standard records exactly when it is
      marked by the first i or by record i. */
  lemma MarkedExtend(standards: seq<Standard>, i: nat, o: Record)
    requires i < |standards|
    ensures Marked(standards[..i + 1], o) == (Marked(standards[..i], o) || MarkedBy(standards[i], o))
  {
    var pre, ext := standards[..i], standards[..i + 1];
    if Marked(ext, o) && !MarkedBy(standards[i], o) {
      var k :| 0 <= k < |ext| && MarkedBy(ext[k], o);
      assert pre[k] == ext[k];
    }
    if Marked(pre, o) {
      var k :| 0 <= k < |pre| && MarkedBy(pre[k], o);
      assert ext[k] == pre[k];
    }
    assert ext[i] == standards[i];
  }

  /** Comparing against standard record i turns the marks of the first i records
      into the marks of the first i + 1. */
  lemma MarksStep(standards: seq<Standard>, i: nat, observed: seq<Record>, before: seq<bool>, after: seq<bool>)
    requires i < |standards| && before == MarkFlags(standards[..i], observed)
    requires |after| == |observed|
    requires forall j :: 0 <= j < |observed| ==> after[j] == (before[j] || MarkedBy(standards[i], observed[j]))
    ensures after == MarkFlags(standards[..i + 1], observed)
  {
    forall j | 0 <= j < |observed|
      ensures after[j] == MarkFlags(standards[..i + 1], observed)[j]
    {
      MarkedExtend(standards, i, observed[j]);
    }
  }

  /** Reporting entry i after the first i entries reports the first i + 1. */
  lemma FalseAtSnoc(bs: seq<bool>, i: nat)
    requires i < |bs|
    ensures FalseAt(bs[..i + 1]) == FalseAt(bs[..i]) + (if bs[i] then [] else [i])
  {
    assert bs[..i + 1][..i] == bs[..i];
  }

  /** compareWithStandardList (src/extension.ts:97-109), with the error report of
      src/extension.ts:125-127: the result starts false and each standard
      record's result overwrites it; errors are the standard records whose result
      is false, warnings the observed records no standard record marked. */
  method CompareWithStandardList(standards: seq<Standard>, observed: seq<Record>)
    returns (res: bool, errors: seq<nat>, warnings: seq<nat>)
    ensures res == (standards != [] && LastKeyFound(standards[|standards| - 1], observed))
    ensures errors == FalseAt(Verdicts(standards, observed))
    ensures warnings == FalseAt(MarkFlags(standards, observed))
  {
    var marks := new bool[|observed|](_ => false);
    ghost var verdicts := Verdicts(standards, observed);
    res := false;
    errors := [];
    for i := 0 to |standards|
      invariant res == (i > 0 && LastKeyFound(standards[i - 1], observed))
      invariant errors == FalseAt(verdicts[..i])
      invariant marks[..] == MarkFlags(standards[..i], observed)
    {
      ghost var before := marks[..];
      var compareRes := CompareWithStandard(standards[i], observed, marks);
      if !compareRes {
        errors := errors + [i];
      }
      res := compareRes;
      FalseAtSnoc(verdicts, i);
      MarksStep(standards, i, observed, before, marks[..]);
    }
    assert verdicts[..|standards|] == verdicts;
    assert standards[..|standards|] == standards;
    warnings := WarningsOf(marks, MarkFlags(standards, observed));
  }

  /** The warning loop of src/extension.ts:103-107: the unmarked observed records,
      in order. */
  method WarningsOf(marks: array<bool>, ghost flags: seq<bool>) returns (warnings: seq<nat>)
    requires marks[..] == flags
    ensures warnings == FalseAt(flags)
  {
    warnings := [];
    for j := 0 to marks.Length
      invariant warnings == FalseAt(flags[..j])
    {
      if !marks[j] {
        warnings := warnings + [j];
      }
      assert flags[..j + 1][..j] == flags[..j];
    }
    assert flags[..marks.Length] == flags;
  }

  // ------------------------------------------------ consequences

  /** With no standard records the result is false, no error is reported, and
      every observed record is warned about, in order. */
  lemma EmptyStandardList(observed: seq<Record>)
    ensures FalseAt(Verdicts([], observed)) == []
    ensures FalseAt(MarkFlags([], observed)) == seq(|observed|, j requires 0 <= j < |observed| => j)
  {
    FalseAtAllFalse(MarkFlags([], observed));
  }

  /** With no observed records nothing is warned about, and an error is reported
      exactly for the standard records that have at least one field. */
  lemma NothingObserved(standards: seq<Standard>, i: nat)
    ensures FalseAt(MarkFlags(standards, [])) == []
    ensures i in FalseAt(Verdicts(standards, [])) <==> i < |standards| && standards[i] != []
  {
    FalseAtExactly(Verdicts(standards, []), i);
  }

  /** A record whose fields are all found passes the comparison as written; the
      converse fails (see LastKeyOverwrites). */
  lemma AllKeysPassLastKey(standard: Standard, observed: seq<Record>)
    requires AllKeysFound(standard, observed)
    ensures LastKeyFound(standard, observed)
  {
    if standard != [] {
      assert Found(observed, standard[|standard| - 1]);
    }
  }

  /** As written, a record passes although its first field is found nowhere:
      only its last field's outcome is kept. */
  lemma LastKeyOverwrites()
    ensures var standard := [("event", "login"), ("level", "info")];
      var observed := [map["level" := "info"]];
      LastKeyFound(standard, observed) && !AllKeysFound(standard, observed)
  {
    var standard := [("event", "login"), ("level", "info")];
    var observed: seq<Record> := [map["level" := "info"]];
    assert Holds(observed[0], standard[1]);
    assert !Found(observed, standard[0]) by {
      assert "event" !in observed[0];
    }
  }

  /** As written, the list succeeds although an error is reported for its first
      record: only the last record's outcome is kept. */
  lemma LastRecordOverwrites()
    ensures var standards := [[("event", "login")], [("level", "info")]];
      var observed := [map["level" := "info"]];
      LastKeyFound(standards[|standards| - 1], observed)
      && FalseAt(Verdicts(standards, observed)) == [0]
  {
    var standards := [[("event", "login")], [("level", "info")]];
    var observed: seq<Record> := [map["level" := "info"]];
    assert Holds(observed[0], standards[1][0]);
    assert !Found(observed, standards[0][0]) by {
      assert "event" !in observed[0];
    }
    var vs := Verdicts(standards, observed);
    assert vs == [false, true];
    assert vs[..1] == [false];
    assert FalseAt(vs[..1]) == FalseAt([]) + [0];
    assert FalseAt(vs) == FalseAt(vs[..1]);
  }

  /** Fields of one standard record may be found in different observed records:
      the record passes, nothing is reported, and both observed records are
      marked. */
  lemma CrossRecordMatch()
    ensures var standards := [[("event", "login"), ("level", "info")]];
      var observed := [map["event" := "login"], map["level" := "info"]];
      AllKeysFound(standards[0], observed)
      && FalseAt(Verdicts(standards, observed)) == []
      && FalseAt(MarkFlags(standards, observed)) == []
  {
    var standards := [[("event", "login"), ("level", "info")]];
    var observed: seq<Record> := [map["event" := "login"], map["level" := "info"]];
    assert Holds(observed[0], standards[0][0]) && Holds(observed[1], standards[0][1]);
    assert MarkedBy(standards[0], observed[0]) && MarkedBy(standards[0], observed[1]);
    var vs, ms := Verdicts(standards, observed), MarkFlags(standards, observed);
    assert vs == [true] && ms == [true, true];
    assert FalseAt(vs) == FalseAt(vs[..0]);
    assert FalseAt(ms[..1]) == FalseAt(ms[..1][..0]);
    assert FalseAt(ms) == FalseAt(ms[..1]);
  }

  // ------------------------------------------------ the evidently intended comparison

  /** compareWithStandard with the field outcomes combined by "and", as the
      initial true of the result suggests: a record passes exactly when every
      field is found. Marking is unchanged. */
  method CompareWithStandardAllKeys(standard: Standard, observed: seq<Record>, marks: array<bool>)
    returns (res: bool)
    requires marks.Length == |observed|
    modifies marks
    ensures res == AllKeysFound(standard, observed)
    ensures forall j :: 0 <= j < |observed| ==>
      marks[j] == (old(marks[j]) || MarkedBy(standard, observed[j]))
  {
    res := true;
    for m := 0 to |standard|
      invariant res == AllKeysFound(standard[..m], observed)
      invariant forall j :: 0 <= j < |observed| ==>
        marks[j] == (old(marks[j]) || MarkedBy(standard[..m], observed[j]))
    {
      var flag := MarkKey(standard[m], observed, marks);
      res := res && flag;
      assert standard[..m + 1][m] == standard[m];
      assert forall k :: 0 <= k < m ==> standard[..m + 1][k] == standard[..m][k];
      forall j | 0 <= j < |observed|
        ensures MarkedBy(standard[..m + 1], observed[j])
          == (MarkedBy(standard[..m], observed[j]) || Holds(observed[j], standard[m]))
      {
        MarkedByExtend(standard, m, observed[j]);
      }
    }
    assert standard[..|standard|] == standard;
  }

  /** compareWithStandardList with the record results combined by "and" (and
      still false for an empty list), using the corrected record comparison:
      errors and warnings are reported as before. */
  method CompareWithStandardListAll(standards: seq<Standard>, observed: seq<Record>)
    returns (res: bool, errors: seq<nat>, warnings: seq<nat>)
    ensures res == (standards != [] && forall i :: 0 <= i < |standards| ==> AllKeysFound(standards[i], observed))
    ensures errors == FalseAt(AllKeysVerdicts(standards, observed))
    ensures warnings == FalseAt(MarkFlags(standards, observed))
  {
    var marks := new bool[|observed|](_ => false);
    ghost var verdicts := AllKeysVerdicts(standards, observed);
    res := standards != [];
    errors := [];
    for i := 0 to |standards|
      invariant res == (standards != [] && errors == [])
      invariant errors == FalseAt(verdicts[..i])
      invariant marks[..] == MarkFlags(standards[..i], observed)
    {
      ghost var before := marks[..];
      var compareRes := CompareWithStandardAllKeys(standards[i], observed, marks);
      if !compareRes {
        errors := errors + [i];
      }
      res := res && compareRes;
      FalseAtSnoc(verdicts, i);
      MarksStep(standards, i, observed, before, marks[..]);
    }
    assert verdicts[..|standards|] == verdicts;
    assert standards[..|standards|] == standards;
    SucceedsIffNoErrors(standards, observed);
    warnings := WarningsOf(marks, MarkFlags(standards, observed));
  }

  /** With the corrected comparison every standard record passes exactly when no
      error is reported; an empty list has neither a failing record nor an error. */
  lemma SucceedsIffNoErrors(standards: seq<Standard>, observed: seq<Record>)
    ensures (forall i :: 0 <= i < |standards| ==> AllKeysFound(standards[i], observed))
      <==> FalseAt(AllKeysVerdicts(standards, observed)) == []
  {
    var vs := AllKeysVerdicts(standards, observed);
    if FalseAt(vs) == [] {
      forall i | 0 <= i < |standards|
        ensures AllKeysFound(standards[i], observed)
      {
        FalseAtExactly(vs, i);
      }
    }
    if FalseAt(vs) != [] {
      var i := FalseAt(vs)[0];
      assert !AllKeysFound(standards[i], observed);
    }
  }
}
