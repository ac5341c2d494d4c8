/**
 * The top-level loop: every record of the configuration's `items` list is
 * applied with `update_item`, in order, to the one document.
 */
module Run {
  import opened Wrappers
  import opened Items
  import opened Modify

  /** The document after the whole run, and the names the run warned about, in order. */
  datatype Outcome = Outcome(doc: seq<Element>, unmatched: seq<Option<string>>)

  /**
   * A run cut short by `error`: nothing is written, but the warnings of the
   * records before the failing one, `unmatched`, have already been printed.
   */
  datatype Aborted = Aborted(error: Error, unmatched: seq<Option<string>>)

  /** The warning one record contributes: its name exactly when it matched nothing. */
  function Warning(r: Record, found: bool): seq<Option<string>> {
    if found then [] else [r.name]
  }

  /** Put the warnings `w`, printed earlier, in front of those of the run `res`. */
  function Prefix(w: seq<Option<string>>, res: Result<Outcome, Aborted>): (out: Result<Outcome, Aborted>)
    ensures out.Success? <==> res.Success?
    ensures out.Success? ==> out.value.doc == res.value.doc && |out.value.unmatched| == |w| + |res.value.unmatched|
    ensures out.Failure? ==> out.error.error == res.error.error && |out.error.unmatched| == |w| + |res.error.unmatched|
  {
    match res
    case Failure(a) => Failure(Aborted(a.error, w + a.unmatched))
    case Success(o) => Success(Outcome(o.doc, w + o.unmatched))
  }

  /**
   * Apply `records` left to right, threading the document through; the
   * first error aborts the whole run.
   */
  function ApplyAll(doc: seq<Element>, records: seq<Record>): (res: Result<Outcome, Aborted>)
    ensures res.Success? ==> |res.value.doc| == |doc| && |res.value.unmatched| <= |records|
    ensures res.Failure? ==> |res.error.unmatched| < |records|
    decreases |records|
  {
    if |records| == 0 then Success(Outcome(doc, []))
    else
      match UpdateItem(doc, records[0])
      case Failure(err) => Failure(Aborted(err, []))
      case Success(u) => Prefix(Warning(records[0], u.found), ApplyAll(u.doc, records[1..]))
  }

  /** Continue a run that has reached `res` with further records. */
  function Continue(res: Result<Outcome, Aborted>, more: seq<Record>): Result<Outcome, Aborted> {
    match res
    case Failure(a) => Failure(a)
    case Success(o) => Prefix(o.unmatched, ApplyAll(o.doc, more))
  }

  /** No earlier warnings change nothing. */
  lemma PrefixEmpty(res: Result<Outcome, Aborted>)
    ensures Prefix([], res) == res
  {
    match res
    case Failure(a) => assert [] + a.unmatched == a.unmatched;
    case Success(o) => assert [] + o.unmatched == o.unmatched;
  }

  /** Two batches of earlier warnings are one batch, in order. */
  lemma PrefixPrefix(w: seq<Option<string>>, v: seq<Option<string>>, res: Result<Outcome, Aborted>)
    ensures Prefix(w, Prefix(v, res)) == Prefix(w + v, res)
  {
    match res
    case Failure(a) => assert w + (v + a.unmatched) == (w + v) + a.unmatched;
    case Success(o) => assert w + (v + o.unmatched) == (w + v) + o.unmatched;
  }

  /** Continuing a run commutes with putting earlier warnings in front of it. */
  lemma PrefixContinue(w: seq<Option<string>>, res: Result<Outcome, Aborted>, more: seq<Record>)
    ensures Continue(Prefix(w, res), more) == Prefix(w, Continue(res, more))
  {
    if res.Success? {
      PrefixPrefix(w, res.value.unmatched, ApplyAll(res.value.doc, more));
    }
  }

  /** An empty `items` list leaves the document as it was and warns about nothing. */
  lemma EmptyConfigChangesNothing(doc: seq<Element>)
    ensures ApplyAll(doc, []) == Success(Outcome(doc, []))
  {
  }

  /** The run is a left fold: running `a + b` is running `a`, then `b` on its result. */
  lemma {:induction false} ApplyAllSplits(doc: seq<Element>, a: seq<Record>, b: seq<Record>)
    ensures ApplyAll(doc, a + b) == Continue(ApplyAll(doc, a), b)
    decreases |a|
  {
    if |a| == 0 {
      assert a + b == b;
      PrefixEmpty(ApplyAll(doc, b));
    } else {
      assert (a + b)[0] == a[0];
      assert (a + b)[1..] == a[1..] + b;
      if UpdateItem(doc, a[0]).Success? {
        var u := UpdateItem(doc, a[0]).value;
        ApplyAllSplits(u.doc, a[1..], b);
        PrefixContinue(Warning(a[0], u.found), ApplyAll(u.doc, a[1..]), b);
      }
    }
  }

  /** A run that has reached `current` stops at record `i` when that record fails, keeping the warnings so far. */
  lemma StepFails(doc: seq<Element>, records: seq<Record>, i: int, current: seq<Element>, unmatched: seq<Option<string>>)
    requires 0 <= i < |records|
    requires ApplyAll(doc, records[..i]) == Success(Outcome(current, unmatched))
    requires UpdateItem(current, records[i]).Failure?
    ensures ApplyAll(doc, records) == Failure(Aborted(UpdateItem(current, records[i]).error, unmatched))
  {
    assert records == records[..i] + records[i..];
    ApplyAllSplits(doc, records[..i], records[i..]);
    assert ApplyAll(current, records[i..]) == Failure(Aborted(UpdateItem(current, records[i]).error, []));
    assert unmatched + [] == unmatched;
  }

  /** A run that has reached `current` moves past a successful record `i`, adding its warning. */
  lemma StepSucceeds(doc: seq<Element>, records: seq<Record>, i: int, current: seq<Element>, unmatched: seq<Option<string>>)
    requires 0 <= i < |records|
    requires ApplyAll(doc, records[..i]) == Success(Outcome(current, unmatched))
    requires UpdateItem(current, records[i]).Success?
    ensures var u := UpdateItem(current, records[i]).value;
      ApplyAll(doc, records[..i + 1]) == Success(Outcome(u.doc, unmatched + Warning(records[i], u.found)))
  {
    var u := UpdateItem(current, records[i]).value;
    assert records[..i + 1] == records[..i] + [records[i]];
    ApplyAllSplits(doc, records[..i], [records[i]]);
    assert [records[i]][1..] == [];
    assert ApplyAll(current, [records[i]]) == Success(Outcome(u.doc, Warning(records[i], u.found))) by {
      assert Warning(records[i], u.found) + [] == Warning(records[i], u.found);
    }
  }

  /**
   * The loop over the configuration's `items` list: one `update_item` per record, warnings
   * collected as they are printed.
   */
  method ApplyConfig(doc: seq<Element>, records: seq<Record>) returns (res: Result<Outcome, Aborted>)
    ensures res == ApplyAll(doc, records)
  {
    var current := doc;
    var unmatched: seq<Option<string>> := [];
    var i := 0;
    while i < |records|
      invariant 0 <= i <= |records|
      invariant ApplyAll(doc, records[..i]) == Success(Outcome(current, unmatched))
    {
      var u := UpdateItem(current, records[i]);
      if u.Failure? {
        StepFails(doc, records, i, current, unmatched);
        return Failure(Aborted(u.error, unmatched));
      }
      StepSucceeds(doc, records, i, current, unmatched);
      unmatched := unmatched + Warning(records[i], u.value.found);
      current := u.value.doc;
      i := i + 1;
    }
    assert records[..i] == records;
    res := Success(Outcome(current, unmatched));
  }

  /** The names of the records, in order, that match no element of `doc`. */
  function UnmatchedNames(doc: seq<Element>, records: seq<Record>): seq<Option<string>>
    decreases |records|
  {
    if |records| == 0 then []
    else (if AnyMatch(doc, records[0]) then [] else [records[0].name]) + UnmatchedNames(doc, records[1..])
  }

  /** Documents whose elements pairwise agree on tag and `name`, and on whether `nominal` reads. */
  predicate SameShape(d1: seq<Element>, d2: seq<Element>) {
    && |d1| == |d2|
    && forall i :: 0 <= i < |d1| ==>
         SameIdentity(d1[i], d2[i]) && (NominalReadable(d1[i]) <==> NominalReadable(d2[i]))
  }

  /** One successful update leaves the document with the same shape. */
  lemma UpdateKeepsShape(doc: seq<Element>, r: Record)
    requires UpdateItem(doc, r).Success?
    ensures SameShape(doc, UpdateItem(doc, r).value.doc)
  {
    UpdateKeepsIdentity(doc, r);
  }

  /** Documents of the same shape leave the same records unmatched. */
  lemma {:induction false} UnmatchedNamesOfSameShape(d1: seq<Element>, d2: seq<Element>, records: seq<Record>)
    requires SameShape(d1, d2)
    ensures UnmatchedNames(d1, records) == UnmatchedNames(d2, records)
    decreases |records|
  {
    if |records| > 0 {
      var r := records[0];
      assert forall i :: 0 <= i < |d1| ==> (Matches(d1[i], r) <==> Matches(d2[i], r));
      assert AnyMatch(d1, r) <==> AnyMatch(d2, r);
      UnmatchedNamesOfSameShape(d1, d2, records[1..]);
    }
  }

  /**
   * The warnings of a completed run name exactly the records that match no
   * element of the input document, in configuration order: updates never
   * change what later records match.
   */
  lemma {:induction false} WarningsNameUnmatchedRecords(doc: seq<Element>, records: seq<Record>)
    requires ApplyAll(doc, records).Success?
    ensures ApplyAll(doc, records).value.unmatched == UnmatchedNames(doc, records)
    decreases |records|
  {
    if |records| > 0 {
      var u := UpdateItem(doc, records[0]).value;
      UpdateItemFound(doc, records[0]);
      UpdateKeepsShape(doc, records[0]);
      WarningsNameUnmatchedRecords(u.doc, records[1..]);
      UnmatchedNamesOfSameShape(doc, u.doc, records[1..]);
    }
  }

  /** Every element matched by some record of `records` has a readable nominal. */
  predicate RunReadable(doc: seq<Element>, records: seq<Record>) {
    forall k, i :: 0 <= k < |records| && 0 <= i < |doc| && Matches(doc[i], records[k]) ==> NominalReadable(doc[i])
  }

  /** Documents of the same shape are readable for the same records. */
  lemma RunReadableOfSameShape(d1: seq<Element>, d2: seq<Element>, records: seq<Record>)
    requires SameShape(d1, d2)
    ensures RunReadable(d1, records) <==> RunReadable(d2, records)
  {
    assert forall k, i :: 0 <= k < |records| && 0 <= i < |d1| ==>
      (Matches(d1[i], records[k]) <==> Matches(d2[i], records[k]));
  }

  /**
   * A run fails exactly when some record matches an element of the input
   * document whose nominal cannot be read. A later record never fails on an
   * element an earlier one rewrote, since the rewritten nominal always reads.
   */
  lemma {:induction false} RunFailsExactlyOnUnreadable(doc: seq<Element>, records: seq<Record>)
    ensures ApplyAll(doc, records).Success? <==> RunReadable(doc, records)
    decreases |records|
  {
    if |records| > 0 {
      var r := records[0];
      var rest := records[1..];
      assert forall k :: 1 <= k < |records| ==> records[k] == rest[k - 1];
      if UpdateItem(doc, r).Success? {
        var u := UpdateItem(doc, r).value;
        UpdateKeepsShape(doc, r);
        RunFailsExactlyOnUnreadable(u.doc, rest);
        RunReadableOfSameShape(doc, u.doc, rest);
        assert RunReadable(doc, records) <==> AllMatchesReadable(doc, r) && RunReadable(doc, rest);
      } else {
        assert !AllMatchesReadable(doc, r);
      }
    }
  }

  /** A run is readable for a non-empty record list exactly when it is for the first record and for the rest. */
  lemma RunReadableCons(doc: seq<Element>, records: seq<Record>)
    requires |records| > 0
    ensures RunReadable(doc, records) <==> AllMatchesReadable(doc, records[0]) && RunReadable(doc, records[1..])
  {
    assert forall k :: 1 <= k < |records| ==> records[k] == records[1..][k - 1];
  }

  /** Documents of the same shape make the same records fail. */
  lemma ReadableOfSameShape(d1: seq<Element>, d2: seq<Element>, r: Record)
    requires SameShape(d1, d2)
    ensures AllMatchesReadable(d1, r) <==> AllMatchesReadable(d2, r)
  {
    assert forall i :: 0 <= i < |d1| ==> (Matches(d1[i], r) <==> Matches(d2[i], r));
  }

  /** `k` is the first record that matches an unreadable element of `doc`. */
  predicate FirstFailingRecord(doc: seq<Element>, records: seq<Record>, k: int) {
    && 0 <= k < |records|
    && RunReadable(doc, records[..k])
    && !AllMatchesReadable(doc, records[k])
  }

  /**
   * An element at which a later record first fails was not touched by an
   * earlier successful update, and is the first failing element there too.
   */
  lemma UnreadableUntouched(doc: seq<Element>, r: Record, r2: Record, j: int)
    requires UpdateItem(doc, r).Success?
    requires FirstUnreadable(UpdateItem(doc, r).value.doc, r2, j)
    ensures FirstUnreadable(doc, r2, j) && UpdateItem(doc, r).value.doc[j] == doc[j]
  {
    var out := UpdateItem(doc, r).value.doc;
    UpdateKeepsShape(doc, r);
    assert !Matches(doc[j], r);
    NonMatchingUntouched(doc, r, j);
    assert SameShape(doc[..j], out[..j]);
    ReadableOfSameShape(doc[..j], out[..j], r2);
  }

  /** The first failing record of the run after one successful record is the next one of the whole run. */
  lemma FirstFailingShift(doc: seq<Element>, records: seq<Record>, k: int)
    requires |records| > 0 && UpdateItem(doc, records[0]).Success?
    requires FirstFailingRecord(UpdateItem(doc, records[0]).value.doc, records[1..], k)
    ensures FirstFailingRecord(doc, records, k + 1) && records[k + 1] == records[1..][k]
  {
    var u := UpdateItem(doc, records[0]).value;
    var rest := records[1..];
    var before := records[..k + 1];
    UpdateKeepsShape(doc, records[0]);
    assert before[0] == records[0] && before[1..] == rest[..k];
    RunReadableOfSameShape(doc, u.doc, rest[..k]);
    RunReadableCons(doc, before);
    ReadableOfSameShape(doc, u.doc, rest[k]);
  }

  /** A run has at most one first failing record. */
  lemma FirstFailingRecordUnique(doc: seq<Element>, records: seq<Record>, k1: int, k2: int)
    requires FirstFailingRecord(doc, records, k1) && FirstFailingRecord(doc, records, k2)
    ensures k1 == k2
  {
  }

  /**
   * An aborted run fails at the first record `k` that matches an unreadable
   * element of the input document, and by then it has warned about exactly
   * the records before `k` that match no element, in configuration order.
   */
  lemma {:induction false} AbortWarnsAboutEarlierRecords(doc: seq<Element>, records: seq<Record>)
    requires ApplyAll(doc, records).Failure?
    ensures exists k :: && FirstFailingRecord(doc, records, k)
                        && ApplyAll(doc, records).error.unmatched == UnmatchedNames(doc, records[..k])
    decreases |records|
  {
    var r := records[0];
    var rest := records[1..];
    if UpdateItem(doc, r).Failure? {
      assert records[..0] == [];
      assert RunReadable(doc, records[..0]);
      assert FirstFailingRecord(doc, records, 0);
    } else {
      var u := UpdateItem(doc, r).value;
      UpdateKeepsShape(doc, r);
      UpdateItemFound(doc, r);
      AbortWarnsAboutEarlierRecords(u.doc, rest);
      var k :| && FirstFailingRecord(u.doc, rest, k)
               && ApplyAll(u.doc, rest).error.unmatched == UnmatchedNames(u.doc, rest[..k]);
      var before := records[..k + 1];
      assert before[0] == r && before[1..] == rest[..k];
      UnmatchedNamesOfSameShape(doc, u.doc, rest[..k]);
      assert UnmatchedNames(doc, before) == Warning(r, u.found) + UnmatchedNames(doc, rest[..k]);
      FirstFailingShift(doc, records, k);
    }
  }

  /**
   * The error of an aborted run is the one the first failing record `k`
   * raises at its first matching element `j`, in document order, whose
   * nominal cannot be read; that element is as it was in the input.
   */
  lemma {:induction false} AbortReportsFirstUnreadable(doc: seq<Element>, records: seq<Record>)
    requires ApplyAll(doc, records).Failure?
    ensures exists k :: && FirstFailingRecord(doc, records, k)
                        && exists j :: && FirstUnreadable(doc, records[k], j)
                                       && ApplyAll(doc, records).error.error == NominalError(doc[j], records[k])
    decreases |records|
  {
    var r := records[0];
    var rest := records[1..];
    if UpdateItem(doc, r).Failure? {
      assert records[..0] == [];
      assert RunReadable(doc, records[..0]);
      UpdateItemFailsAtFirstUnreadable(doc, r);
      assert FirstFailingRecord(doc, records, 0);
    } else {
      var u := UpdateItem(doc, r).value;
      AbortReportsFirstUnreadable(u.doc, rest);
      var k :| && FirstFailingRecord(u.doc, rest, k)
               && exists j :: && FirstUnreadable(u.doc, rest[k], j)
                              && ApplyAll(u.doc, rest).error.error == NominalError(u.doc[j], rest[k]);
      var j :| FirstUnreadable(u.doc, rest[k], j) && ApplyAll(u.doc, rest).error.error == NominalError(u.doc[j], rest[k]);
      FirstFailingShift(doc, records, k);
      UnreadableUntouched(doc, r, rest[k], j);
    }
  }
}
