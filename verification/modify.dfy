/**
 * `update_item`: apply one change record to every matching `type` element of
 * the document and report whether any element matched.
 */
module Modify {
  import opened Wrappers
  import opened IntText
  import opened Scaling
  import opened Items

  /**
   * The errors that abort a run. Reading `nominal` with `int()` raises a
   * `TypeError` when the attribute is missing and a `ValueError` when its text
   * is not an integer.
   */
  datatype Error = NominalMissing(item: Option<string>) | NominalNotInteger(item: Option<string>, text: string)

  /** The document after one record, and whether any element matched it (the warning is printed exactly when not). */
  datatype Updated = Updated(doc: seq<Element>, found: bool)

  /** The element's `nominal` attribute is present and `int()` accepts it. */
  predicate NominalReadable(e: Element) {
    e.nominal.Some? && ParseInt(e.nominal.value).Some?
  }

  /** The error reading `nominal` raises on an element where it is not readable. */
  function NominalError(e: Element, r: Record): Error {
    if e.nominal.Some? then NominalNotInteger(r.name, e.nominal.value) else NominalMissing(r.name)
  }

  /** Reading the element's `nominal`: absent is one error, text `int()` rejects is the other. */
  function ReadNominal(e: Element, r: Record): (res: Result<int, Error>)
    ensures res.Success? <==> NominalReadable(e)
    ensures res.Success? ==> ParseInt(e.nominal.value) == Some(res.value)
    ensures res.Failure? ==> res.error == NominalError(e, r)
  {
    match e.nominal
    case None => Failure(NominalMissing(r.name))
    case Some(text) =>
      match ParseInt(text)
      case None => Failure(NominalNotInteger(r.name, text))
      case Some(n) => Success(n)
  }

  /** A supplied value replaces the attribute `current` with its decimal text; an absent one keeps it. */
  function Overwrite(current: Option<string>, supplied: Option<int>): (out: Option<string>)
    ensures supplied.Some? ==> out == Some(ShowInt(supplied.value))
    ensures supplied.None? ==> out == current
  {
    match supplied
    case None => current
    case Some(v) => Some(ShowInt(v))
  }

  /** A supplied `restock` or `lifetime` reads back as the supplied value, and writing it again changes nothing. */
  lemma OverwriteReadsBack(current: Option<string>, supplied: Option<int>)
    ensures supplied.Some? ==> Overwrite(current, supplied).Some? && ParseInt(Overwrite(current, supplied).value) == supplied
    ensures Overwrite(Overwrite(current, supplied), supplied) == Overwrite(current, supplied)
  {
    if supplied.Some? {
      ParseShowRoundTrip(supplied.value);
    }
  }

  /** Writing the four tier flags: every flag is set, "1" exactly for the desired tiers. */
  function SetTiers(t: TierSpec): (ts: Tiers)
    ensures forall i :: 1 <= i <= 4 ==> TierFlag(ts, i) == Some(if i in DesiredTiers(t) then "1" else "0")
  {
    Tiers(Some(Flag(t, 1)), Some(Flag(t, 2)), Some(Flag(t, 3)), Some(Flag(t, 4)))
  }

  /**
   * The attribute writes for one matching element: `nominal` becomes the text
   * of `newNominal`, `restock` and `lifetime` take the record's values when
   * it supplies them, all four tier flags are overwritten, and nothing else
   * changes.
   */
  function Rewrite(e: Element, r: Record, newNominal: int): (out: Element)
    ensures out.tag == e.tag && out.name == e.name && out.others == e.others
    ensures out.nominal == Some(ShowInt(newNominal))
    ensures r.restock.Some? ==> out.restock == Some(ShowInt(r.restock.value))
    ensures r.restock.None? ==> out.restock == e.restock
    ensures r.lifetime.Some? ==> out.lifetime == Some(ShowInt(r.lifetime.value))
    ensures r.lifetime.None? ==> out.lifetime == e.lifetime
    ensures forall i :: 1 <= i <= 4 ==> TierFlag(out.tiers, i) == Some(if i in DesiredTiers(r.tier) then "1" else "0")
  {
    e.(nominal := Some(ShowInt(newNominal)),
       restock := Overwrite(e.restock, r.restock),
       lifetime := Overwrite(e.lifetime, r.lifetime),
       tiers := SetTiers(r.tier))
  }

  /**
   * The body of the loop of `update_item` for one matching element: read
   * `nominal`, failing as `int()` does, then write `int(nominal * factor)`
   * and the record's other values.
   */
  function UpdateElement(e: Element, r: Record): (res: Result<Element, Error>)
    ensures res.Success? <==> NominalReadable(e)
    ensures res.Failure? ==> res.error == NominalError(e, r)
  {
    match ReadNominal(e, r)
    case Failure(err) => Failure(err)
    case Success(nominal) => Success(Rewrite(e, r, Scale(nominal, FactorOf(r))))
  }

  /** A successful update is the rewrite with the rescaled nominal. */
  lemma UpdateElementRewrites(e: Element, r: Record)
    requires NominalReadable(e)
    ensures UpdateElement(e, r) == Success(Rewrite(e, r, Scale(ReadNominal(e, r).value, FactorOf(r))))
  {
  }

  /** Every element that matches `r` has a readable nominal. */
  predicate AllMatchesReadable(doc: seq<Element>, r: Record) {
    forall i :: 0 <= i < |doc| && Matches(doc[i], r) ==> NominalReadable(doc[i])
  }

  lemma AllMatchesReadableCons(doc: seq<Element>, r: Record)
    requires |doc| > 0
    ensures AllMatchesReadable(doc, r) <==>
      (Matches(doc[0], r) ==> NominalReadable(doc[0])) && AllMatchesReadable(doc[1..], r)
  {
    assert forall i :: 1 <= i < |doc| ==> doc[i] == doc[1..][i - 1];
  }

  /** `k` is the first element that matches `r` and whose nominal cannot be read. */
  predicate FirstUnreadable(doc: seq<Element>, r: Record, k: int) {
    && 0 <= k < |doc|
    && Matches(doc[k], r)
    && !NominalReadable(doc[k])
    && AllMatchesReadable(doc[..k], r)
  }

  /** What one pass does to one element: a matching one is updated, any other is left alone. */
  predicate Applied(r: Record, before: Element, after: Element) {
    if Matches(before, r) then UpdateElement(before, r) == Success(after) else after == before
  }

  /** Some element of `doc` matches `r`. */
  predicate AnyMatch(doc: seq<Element>, r: Record) {
    exists i :: 0 <= i < |doc| && Matches(doc[i], r)
  }

  lemma AnyMatchCons(doc: seq<Element>, r: Record)
    requires |doc| > 0
    ensures AnyMatch(doc, r) <==> Matches(doc[0], r) || AnyMatch(doc[1..], r)
  {
    if AnyMatch(doc, r) && !Matches(doc[0], r) {
      var i :| 0 <= i < |doc| && Matches(doc[i], r);
      assert doc[1..][i - 1] == doc[i];
    }
  }

  /** One step of the loop of `update_item`: a matching element is updated, any other passes through. */
  function Visit(e: Element, r: Record): (res: Result<Element, Error>)
    ensures res.Success? <==> (Matches(e, r) ==> NominalReadable(e))
    ensures res.Failure? ==> res.error == NominalError(e, r)
    ensures res.Success? ==> Applied(r, e, res.value)
  {
    if Matches(e, r) then UpdateElement(e, r) else Success(e)
  }

  /**
   * `update_item(r)` over the elements `doc`, in document order. The first
   * matching element whose nominal cannot be read aborts with its error.
   */
  function UpdateItem(doc: seq<Element>, r: Record): (res: Result<Updated, Error>)
    ensures res.Success? <==> AllMatchesReadable(doc, r)
    ensures res.Success? ==> |res.value.doc| == |doc|
    decreases |doc|
  {
    if |doc| == 0 then Success(Updated([], false))
    else
      AllMatchesReadableCons(doc, r);
      match Visit(doc[0], r)
      case Failure(err) => Failure(err)
      case Success(e) =>
        match UpdateItem(doc[1..], r)
        case Failure(err) => Failure(err)
        case Success(rest) => Success(Updated([e] + rest.doc, Matches(doc[0], r) || rest.found))
  }

  /** How `UpdateItem` on a non-empty document is made of the first step and the rest. */
  lemma UpdateItemStep(doc: seq<Element>, r: Record)
    requires |doc| > 0
    ensures Visit(doc[0], r).Failure? ==> UpdateItem(doc, r) == Failure(Visit(doc[0], r).error)
    ensures Visit(doc[0], r).Success? && UpdateItem(doc[1..], r).Failure? ==>
      UpdateItem(doc, r) == Failure(UpdateItem(doc[1..], r).error)
    ensures Visit(doc[0], r).Success? && UpdateItem(doc[1..], r).Success? ==>
      UpdateItem(doc, r) == Success(Updated([Visit(doc[0], r).value] + UpdateItem(doc[1..], r).value.doc,
                                            Matches(doc[0], r) || UpdateItem(doc[1..], r).value.found))
  {
  }

  /** A successful update applies the record to every element independently. */
  lemma {:induction false} UpdateItemApplied(doc: seq<Element>, r: Record)
    requires UpdateItem(doc, r).Success?
    ensures forall i :: 0 <= i < |doc| ==> Applied(r, doc[i], UpdateItem(doc, r).value.doc[i])
    decreases |doc|
  {
    if |doc| > 0 {
      var tail := doc[1..];
      UpdateItemStep(doc, r);
      AllMatchesReadableCons(doc, r);
      UpdateItemApplied(tail, r);
      var out := UpdateItem(doc, r).value.doc;
      var rest := UpdateItem(tail, r).value.doc;
      assert out == [Visit(doc[0], r).value] + rest;
      forall i | 0 <= i < |doc|
        ensures Applied(r, doc[i], out[i])
      {
        if i > 0 {
          assert doc[i] == tail[i - 1];
          assert out[i] == rest[i - 1];
        }
      }
    }
  }

  /** A successful update reports a match exactly when some element matches. */
  lemma {:induction false} UpdateItemFound(doc: seq<Element>, r: Record)
    requires UpdateItem(doc, r).Success?
    ensures UpdateItem(doc, r).value.found == AnyMatch(doc, r)
    decreases |doc|
  {
    if |doc| > 0 {
      UpdateItemStep(doc, r);
      AllMatchesReadableCons(doc, r);
      AnyMatchCons(doc, r);
      UpdateItemFound(doc[1..], r);
    }
  }

  /** The rewritten nominal reads back as the value written. */
  lemma RewriteReadsBack(e: Element, r: Record, n: int)
    ensures ReadNominal(Rewrite(e, r, n), r) == Success(n)
  {
    ParseShowRoundTrip(n);
  }

  /** A failing update reports the first matching element, in document order, whose nominal cannot be read. */
  lemma {:induction false} UpdateItemFailsAtFirstUnreadable(doc: seq<Element>, r: Record)
    requires UpdateItem(doc, r).Failure?
    ensures exists k :: FirstUnreadable(doc, r, k) && UpdateItem(doc, r).error == NominalError(doc[k], r)
    decreases |doc|
  {
    var tail := doc[1..];
    UpdateItemStep(doc, r);
    if Visit(doc[0], r).Failure? {
      assert FirstUnreadable(doc, r, 0);
    } else {
      UpdateItemFailsAtFirstUnreadable(tail, r);
      var k :| FirstUnreadable(tail, r, k) && UpdateItem(tail, r).error == NominalError(tail[k], r);
      FirstUnreadableShift(doc, r, k);
    }
  }

  /** Behind a first element that does not fail, the first unreadable match of the rest is the first of the whole. */
  lemma FirstUnreadableShift(doc: seq<Element>, r: Record, k: int)
    requires |doc| > 0 && (Matches(doc[0], r) ==> NominalReadable(doc[0]))
    requires FirstUnreadable(doc[1..], r, k)
    ensures FirstUnreadable(doc, r, k + 1) && doc[k + 1] == doc[1..][k]
  {
    var prefix := doc[..k + 1];
    assert prefix[1..] == doc[1..][..k];
    AllMatchesReadableCons(prefix, r);
  }

  /** With nothing matching, the document comes back as it was and the warning fires. */
  lemma NoMatchLeavesDocument(doc: seq<Element>, r: Record)
    requires forall i :: 0 <= i < |doc| ==> !Matches(doc[i], r)
    ensures UpdateItem(doc, r) == Success(Updated(doc, false))
  {
    var u := UpdateItem(doc, r).value;
    UpdateItemApplied(doc, r);
    UpdateItemFound(doc, r);
    assert u.doc == doc;
  }

  /** An element the record does not match comes out of a successful update unchanged in every attribute. */
  lemma NonMatchingUntouched(doc: seq<Element>, r: Record, i: int)
    requires UpdateItem(doc, r).Success?
    requires 0 <= i < |doc| && !Matches(doc[i], r)
    ensures UpdateItem(doc, r).value.doc[i] == doc[i]
  {
    UpdateItemApplied(doc, r);
    assert Applied(r, doc[i], UpdateItem(doc, r).value.doc[i]);
  }

  /** When no element matched, the update left the document as it was. */
  lemma NotFoundLeavesDocument(doc: seq<Element>, r: Record)
    requires UpdateItem(doc, r).Success? && !UpdateItem(doc, r).value.found
    ensures UpdateItem(doc, r).value.doc == doc
  {
    UpdateItemFound(doc, r);
    forall i | 0 <= i < |doc|
      ensures UpdateItem(doc, r).value.doc[i] == doc[i]
    {
      NonMatchingUntouched(doc, r, i);
    }
  }

  /**
   * All matching elements receive the same `restock` and `lifetime` (when the
   * record supplies them) and the same tier flags; each nominal is its own old
   * nominal rescaled by the one factor, and everything else stays as it was.
   */
  lemma MatchesUpdatedAlike(doc: seq<Element>, r: Record, i: int, j: int)
    requires UpdateItem(doc, r).Success?
    requires 0 <= i < |doc| && 0 <= j < |doc| && Matches(doc[i], r) && Matches(doc[j], r)
    ensures var out := UpdateItem(doc, r).value.doc;
      && out[i].tiers == out[j].tiers
      && (r.restock.Some? ==> out[i].restock == out[j].restock)
      && (r.lifetime.Some? ==> out[i].lifetime == out[j].lifetime)
      && ReadNominal(out[i], r) == Success(Scale(ReadNominal(doc[i], r).value, FactorOf(r)))
      && SameIdentity(out[i], doc[i]) && out[i].others == doc[i].others
  {
    var out := UpdateItem(doc, r).value.doc;
    var ni := Scale(ReadNominal(doc[i], r).value, FactorOf(r));
    UpdateItemApplied(doc, r);
    UpdateElementRewrites(doc[i], r);
    UpdateElementRewrites(doc[j], r);
    assert out[i] == Rewrite(doc[i], r, ni);
    assert out[j] == Rewrite(doc[j], r, Scale(ReadNominal(doc[j], r).value, FactorOf(r)));
    RewriteReadsBack(doc[i], r, ni);
  }

  /**
   * What a successful `update_item` writes to a matching element: a nominal
   * that reads as the old nominal times the factor rounded toward zero,
   * every tier flag from the desired set, `restock` and `lifetime` as
   * supplied (kept otherwise), and the same tag, `name` and other attributes.
   */
  lemma MatchRewritten(doc: seq<Element>, r: Record, i: int)
    requires UpdateItem(doc, r).Success?
    requires 0 <= i < |doc| && Matches(doc[i], r)
    ensures var out := UpdateItem(doc, r).value.doc[i];
      && doc[i].nominal.Some? && ParseInt(doc[i].nominal.value).Some?
      && out.nominal.Some? && ParseInt(out.nominal.value).Some?
      && IsTruncatedQuotient(ParseInt(doc[i].nominal.value).value * FactorOf(r).num, FactorOf(r).den,
                             ParseInt(out.nominal.value).value)
    ensures var out := UpdateItem(doc, r).value.doc[i];
      forall k :: 1 <= k <= 4 ==> TierFlag(out.tiers, k) == Some(if k in DesiredTiers(r.tier) then "1" else "0")
    ensures var out := UpdateItem(doc, r).value.doc[i];
      && out.restock == (if r.restock.Some? then Some(ShowInt(r.restock.value)) else doc[i].restock)
      && out.lifetime == (if r.lifetime.Some? then Some(ShowInt(r.lifetime.value)) else doc[i].lifetime)
    ensures var out := UpdateItem(doc, r).value.doc[i];
      out.tag == doc[i].tag && out.name == doc[i].name && out.others == doc[i].others
  {
    var out := UpdateItem(doc, r).value.doc[i];
    var n := ReadNominal(doc[i], r).value;
    var q := Scale(n, FactorOf(r));
    UpdateItemApplied(doc, r);
    assert Applied(r, doc[i], out);
    UpdateElementRewrites(doc[i], r);
    assert out == Rewrite(doc[i], r, q);
    RewriteReadsBack(doc[i], r, q);
    TruncDivIsTruncatedQuotient(n * FactorOf(r).num, FactorOf(r).den, q);
  }

  /**
   * The flags depend only on which of 1..4 the tier entry lists: two entries
   * that agree there (for instance one with extra values outside 1..4, or a
   * single value and the one-element list of it) update every element alike.
   */
  lemma TiersDecidedWithinRange(e: Element, r: Record, t: TierSpec)
    requires forall i :: 1 <= i <= 4 ==> (i in DesiredTiers(r.tier) <==> i in DesiredTiers(t))
    ensures UpdateElement(e, r.(tier := t)) == UpdateElement(e, r)
  {
    assert Flag(r.tier, 1) == Flag(t, 1) && Flag(r.tier, 2) == Flag(t, 2);
    assert Flag(r.tier, 3) == Flag(t, 3) && Flag(r.tier, 4) == Flag(t, 4);
  }

  /** A tier value outside 1..4 sets no flag. */
  lemma OutOfRangeTierIgnored(e: Element, r: Record, v: int)
    requires v < 1 || v > 4
    ensures UpdateElement(e, r.(tier := TierList(TierValues(r.tier) + [v]))) == UpdateElement(e, r)
  {
    var t := TierList(TierValues(r.tier) + [v]);
    forall i | 1 <= i <= 4
      ensures i in DesiredTiers(r.tier) <==> i in DesiredTiers(t)
    {
      assert i in DesiredTiers(r.tier) <==> i in TierValues(r.tier);
    }
    TiersDecidedWithinRange(e, r, t);
  }

  /** A scalar `tier` is treated as the one-element list of it. */
  lemma ScalarTierIsSingletonList(e: Element, r: Record, v: int)
    ensures UpdateElement(e, r.(tier := TierValue(v))) == UpdateElement(e, r.(tier := TierList([v])))
  {
    assert DesiredTiers(TierList([v])) == {v};
    TiersDecidedWithinRange(e, r.(tier := TierList([v])), TierValue(v));
  }

  /** Without a `tier` entry (the default empty list) all four flags are cleared. */
  lemma NoTierClearsAll(e: Element, r: Record)
    requires r.tier == NoTier && UpdateElement(e, r).Success?
    ensures UpdateElement(e, r).value.tiers == Tiers(Some("0"), Some("0"), Some("0"), Some("0"))
  {
    UpdateElementRewrites(e, r);
    var ts := UpdateElement(e, r).value.tiers;
    assert TierFlag(ts, 1) == Some("0") && TierFlag(ts, 2) == Some("0");
    assert TierFlag(ts, 3) == Some("0") && TierFlag(ts, 4) == Some("0");
  }

  /** Without a `factor` entry the nominal keeps its value. */
  lemma NoFactorKeepsNominal(e: Element, r: Record)
    requires r.factor.None? && UpdateElement(e, r).Success?
    ensures ReadNominal(UpdateElement(e, r).value, r) == ReadNominal(e, r)
  {
    var n := ReadNominal(e, r).value;
    ScaleByOne(n, FactorOf(r));
    UpdateElementRewrites(e, r);
    RewriteReadsBack(e, r, n);
  }

  /**
   * A successful update keeps every element's tag and `name`, and leaves the
   * nominal of every element readable exactly when it was.
   */
  lemma UpdateKeepsIdentity(doc: seq<Element>, r: Record)
    requires UpdateItem(doc, r).Success?
    ensures forall i :: 0 <= i < |doc| ==> SameIdentity(doc[i], UpdateItem(doc, r).value.doc[i])
    ensures forall i :: 0 <= i < |doc| ==>
      (NominalReadable(UpdateItem(doc, r).value.doc[i]) <==> NominalReadable(doc[i]))
  {
    var out := UpdateItem(doc, r).value.doc;
    UpdateItemApplied(doc, r);
    forall i | 0 <= i < |doc|
      ensures SameIdentity(doc[i], out[i]) && (NominalReadable(out[i]) <==> NominalReadable(doc[i]))
    {
      assert Applied(r, doc[i], out[i]);
      if Matches(doc[i], r) {
        UpdateElementRewrites(doc[i], r);
        var n := Scale(ReadNominal(doc[i], r).value, FactorOf(r));
        assert out[i] == Rewrite(doc[i], r, n);
        RewriteReadsBack(doc[i], r, n);
      }
    }
  }

  /** Rewriting an element a second time with the same record overrides the first rewrite entirely. */
  lemma RewriteTwice(e: Element, r: Record, n: int, m: int)
    ensures Rewrite(Rewrite(e, r, n), r, m) == Rewrite(e, r, m)
  {
  }

  /** With a factor of one, updating an already updated element changes nothing. */
  lemma UpdateElementIdempotent(e: Element, r: Record)
    requires FactorOf(r).num == FactorOf(r).den
    requires UpdateElement(e, r).Success?
    ensures UpdateElement(UpdateElement(e, r).value, r) == UpdateElement(e, r)
  {
    var n := ReadNominal(e, r).value;
    ScaleByOne(n, FactorOf(r));
    RewriteReadsBack(e, r, n);
    RewriteTwice(e, r, n, n);
  }

  /**
   * A record whose factor is one applied twice has the effect of applying it
   * once, and reports the same match.
   */
  lemma UpdateItemIdempotent(doc: seq<Element>, r: Record)
    requires FactorOf(r).num == FactorOf(r).den
    requires UpdateItem(doc, r).Success?
    ensures UpdateItem(UpdateItem(doc, r).value.doc, r) == UpdateItem(doc, r)
  {
    var u := UpdateItem(doc, r).value;
    UpdateItemApplied(doc, r);
    UpdateKeepsIdentity(doc, r);
    assert AllMatchesReadable(u.doc, r);
    var v := UpdateItem(u.doc, r).value;
    UpdateItemApplied(u.doc, r);
    forall i | 0 <= i < |doc|
      ensures v.doc[i] == u.doc[i]
    {
      assert Applied(r, doc[i], u.doc[i]);
      assert Applied(r, u.doc[i], v.doc[i]);
      if Matches(doc[i], r) {
        UpdateElementIdempotent(doc[i], r);
      }
    }
    assert v.doc == u.doc;
    UpdateItemFound(doc, r);
    UpdateItemFound(u.doc, r);
    assert v.found == u.found by {
      assert forall i :: 0 <= i < |doc| ==> (Matches(doc[i], r) <==> Matches(u.doc[i], r));
    }
  }
}
