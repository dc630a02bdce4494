/**
 * The batch of uploaded files (process_multiple_files): every present file is summarised
 * independently, failures are reported and skipped, and the measurement headers of the
 * first successful file become the headers of the whole table.
 */
module TrialBatch {
  import opened Wrappers
  import opened SparseRow
  import opened CellText
  import opened TrialExtractor

  /** An uploaded file: its parsed workbook and its name (the base name, without directories). */
  datatype UploadedFile = UploadedFile(sheets: seq<Worksheet>, name: string)

  /** The result a file slot contributes: absent slots and failing files contribute nothing. */
  function Outcome(file: Option<UploadedFile>, parse: NumberParser): (r: Option<TrialResult>)
    ensures r.Some? <==> file.Some? && FileOutcome(file.value.sheets, file.value.name, parse).Ok?
    ensures r.Some? ==> FileOutcome(file.value.sheets, file.value.name, parse) == Ok(r.value)
  {
    match file
    case None => None
    case Some(f) =>
      match FileOutcome(f.sheets, f.name, parse)
      case Ok(res) => Some(res)
      case Err(_) => None
  }

  /** The outcome of every file slot, in upload order. */
  function Outcomes(files: seq<Option<UploadedFile>>, parse: NumberParser): (outcomes: seq<Option<TrialResult>>)
    ensures |outcomes| == |files| && forall i :: 0 <= i < |files| ==> outcomes[i] == Outcome(files[i], parse)
  {
    seq(|files|, i requires 0 <= i < |files| => Outcome(files[i], parse))
  }

  /** The present outcomes, in order: the results list of a batch. */
  function Collect(outcomes: seq<Option<TrialResult>>): (results: seq<TrialResult>)
    decreases |outcomes|
  {
    if outcomes == [] then []
    else
      var n := |outcomes| - 1;
      Collect(outcomes[..n]) + match outcomes[n] case Some(res) => [res] case None => []
  }

  /** The headers of the first result, or None when no file succeeded. */
  function FirstHeaders(results: seq<TrialResult>): Option<Row>
  {
    if results == [] then None else Some(results[0].measurementHeaders)
  }

  /** The loop of process_multiple_files; the error messages it shows are not modelled. */
  method ProcessBatch(files: seq<Option<UploadedFile>>, parse: NumberParser)
    returns (results: seq<TrialResult>, headers: Option<Row>)
    ensures results == Collect(Outcomes(files, parse))
    ensures headers == FirstHeaders(results)
  {
    results := [];
    headers := None;
    ghost var outcomes := Outcomes(files, parse);
    var i := 0;
    while i < |files|
      invariant 0 <= i <= |files|
      invariant results == Collect(outcomes[..i])
      invariant headers == FirstHeaders(results)
    {
      assert outcomes[..i + 1][..i] == outcomes[..i];
      var upFile := files[i];
      if upFile.Some? {
        var res := ProcessFile(upFile.value.sheets, upFile.value.name, parse);
        if res.Ok? {
          results := results + [res.value];
          if headers.None? {
            headers := Some(res.value.measurementHeaders);
          }
        }
      }
      i := i + 1;
    }
    assert outcomes[..i] == outcomes;
  }

  /** Files are processed independently: the results of a concatenation are the concatenated results. */
  lemma {:induction false} CollectAppend(a: seq<Option<TrialResult>>, b: seq<Option<TrialResult>>)
    ensures Collect(a + b) == Collect(a) + Collect(b)
    decreases |b|
  {
    if b == [] {
      assert a + b == a;
    } else {
      var n := |b| - 1;
      assert (a + b)[..|a + b| - 1] == a + b[..n];
      CollectAppend(a, b[..n]);
    }
  }

  /** A missing slot or a failing file is skipped without affecting the others; a success is kept in its place. */
  lemma CollectSlot(before: seq<Option<TrialResult>>, outcome: Option<TrialResult>, after: seq<Option<TrialResult>>)
    ensures outcome.None? ==> Collect(before + [outcome] + after) == Collect(before) + Collect(after)
    ensures outcome.Some? ==> Collect(before + [outcome] + after) == Collect(before) + [outcome.value] + Collect(after)
  {
    assert before + [outcome] + after == (before + [outcome]) + after;
    CollectAppend(before + [outcome], after);
    CollectAppend(before, [outcome]);
    assert [outcome][..0] == [];
    assert Collect([outcome]) == match outcome case Some(res) => [res] case None => [];
  }

  /** Every result is the outcome of a file slot, and there are never more results than slots. */
  lemma {:induction false} ResultsFromSlots(outcomes: seq<Option<TrialResult>>, k: nat)
    requires k < |Collect(outcomes)|
    ensures exists i :: 0 <= i < |outcomes| && outcomes[i] == Some(Collect(outcomes)[k])
    decreases |outcomes|
  {
    var n := |outcomes| - 1;
    var init := outcomes[..n];
    if k < |Collect(init)| {
      ResultsFromSlots(init, k);
      var i :| 0 <= i < |init| && init[i] == Some(Collect(init)[k]);
      assert outcomes[i] == init[i];
    } else {
      assert outcomes[n] == Some(Collect(outcomes)[k]);
    }
  }

  lemma {:induction false} AtMostOneResultPerSlot(outcomes: seq<Option<TrialResult>>)
    ensures |Collect(outcomes)| <= |outcomes|
    decreases |outcomes|
  {
    if outcomes != [] {
      AtMostOneResultPerSlot(outcomes[..|outcomes| - 1]);
    }
  }

  /** Every successful file's result is among the results. */
  lemma SuccessesKept(outcomes: seq<Option<TrialResult>>, i: nat)
    requires i < |outcomes| && outcomes[i].Some?
    ensures outcomes[i].value in Collect(outcomes)
  {
    assert outcomes == outcomes[..i] + [outcomes[i]] + outcomes[i + 1..];
    CollectSlot(outcomes[..i], outcomes[i], outcomes[i + 1..]);
  }

  /**
   * Three uploads whose middle one fails or is missing: the results are the first and the
   * third, in that order, and the headers are the first file's.
   */
  lemma MiddleFailureExample(r1: TrialResult, r3: TrialResult)
    ensures Collect([Some(r1), None, Some(r3)]) == [r1, r3]
    ensures FirstHeaders(Collect([Some(r1), None, Some(r3)])) == Some(r1.measurementHeaders)
  {
    var outcomes := [Some(r1), None, Some(r3)];
    assert outcomes[..2] == [Some(r1), None];
    assert [Some(r1), None][..1] == [Some(r1)];
    assert [Some(r1)][..0] == [];
    assert Collect([Some(r1)]) == [r1];
    assert Collect([Some(r1), None]) == [r1];
  }
}
