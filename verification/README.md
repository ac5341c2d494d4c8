# types.xml item modifier

A model of the DayZ `types.xml` modifier `modify.py`. It reads a list of change
records (`items`) from a YAML configuration. For each record, `update_item`
visits every `type` element whose `name` attribute equals the record's name and
does three things:

- It rescales `nominal` by the record's `factor` (default 1), truncating with `int()`.
- It overwrites `restock` and `lifetime` when the record supplies them.
- It rewrites the four flags `tier1`..`tier4`: "1" for each tier the record lists, "0" for the others.

A record that matches no element produces a warning. A matching element whose
`nominal` is missing or is not an integer raises, and then no output is written.

The model is purely functional:

- `Items`: the document is the sequence of its elements in document order, each with its tag. `root.iter('type')` is the restriction to the elements tagged `type`: matching checks the tag.
  - Every attribute the updater touches is kept as the text the document stores.
  - All other attributes sit in a map that is passed through.
- `Items` (records): a change record holds:
  - a `name`, or null (`name:` with no value), which matches exactly the `type` elements without a `name` attribute, as `None == None` does in the source;
  - a rational `factor`;
  - optional integer `restock` and `lifetime`;
  - a `tier` entry that is absent, a single value or a list.
  - An explicit null `tier` becomes `[None]` in the code, which sets no flag, so it is modelled as the absent entry.
- `IntText`: Python's `int()` on text and `str()` on integers.
  - `int()` strips ASCII whitespace (space, tab, line feed, vertical tab, form feed, carriage return) and accepts an optional sign, then digits with single underscores between them.
  - `str()` gives decimal digits with a leading `-` for negatives.
  - They are proved to round-trip.
- `Scaling`: `int(nominal * factor)` as a division truncated toward zero.
  - Dafny's `/` is Euclidean, so the truncation is written out.
  - It is characterised by its defining inequalities.
  - Wherever a floor and `int()` would disagree (a negative product that is not whole), the model follows `int()`.
- `Modify`: `update_item` as a function from (elements, record) to either the error that aborts the run or the new elements plus the `found` flag.
- `Run`: the loop over `config['items']` as a left fold that collects the names it warns about. It comes both as a function and as a loop method proved equal to it. A run that aborts still reports the warnings printed before the failing record.
- `Examples`: a worked element update and a run with an unknown name.

## Model

| member | source | states |
|---|---|---|
| IntText.ShowNat | modify.py:35 | `str()` of a natural is a non-empty run of decimal digits with no leading zero, one digit exactly below 10 |
| IntText.ShowInt | modify.py:35 | `str()` of an integer is non-empty, has no surrounding whitespace, and starts with `-` exactly when the value is negative; `ShowIntCanonical` fixes the rest of the text |
| IntText.ShowIntCanonical | modify.py:35 | the text `str()` writes is canonical: an optional `-`, then only decimal digits with no leading zero unless the value is 0, so 20 is written "20" and never "+20", "020" or "2_0" |
| IntText.TrimStart | modify.py:33 | the leading whitespace `int()` skips is removed: the result is a suffix that does not start with whitespace, and everything dropped is whitespace |
| IntText.TrimEnd | modify.py:33 | the trailing whitespace `int()` skips is removed: the result is a prefix that does not end with whitespace, and everything dropped is whitespace |
| IntText.DigitsValueOfShowNat | modify.py:33-35 | the digits `str()` writes for a natural read back as that natural |
| IntText.ParseShowRoundTrip | modify.py:33-35 | `int(str(n)) == n` for every integer `n` of the model, so a written nominal always reads back |
| IntText.ParseIgnoresPadding | modify.py:33 | `int()` gives the same result with or without surrounding whitespace |
| IntText.ParseIntAccepts | modify.py:33 | `int()` on text succeeds exactly when the text, stripped of white space, is a digit group with at most one leading sign; the value is negative only after a minus sign, and never positive after one |
| IntText.ParsePlusSign | modify.py:33 | `int("+5")` is 5 |
| IntText.ParseLeadingZeros | modify.py:33 | `int("007")` is 7 |
| IntText.ParseSingleUnderscore | modify.py:33 | `int("1_0")` is 10 |
| IntText.ParseDoubleUnderscore | modify.py:33 | `int("1__0")` is rejected |
| IntText.ParseBlank | modify.py:33 | `int("")` is rejected |
| IntText.SeparatorIsNotSpace | modify.py:33 | a file separator (U+001C) before the digits is not skipped: `int()` rejects the text |
| Scaling.TruncDivIsTruncatedQuotient | modify.py:34 | the truncated quotient is the unique `q` with `\|q\|*b <= \|a\| < (\|q\|+1)*b` and the sign of `a`, i.e. rounding toward zero |
| Scaling.Scale | modify.py:34 | the new nominal `int(nominal * factor)` is the quotient of `nominal * num` by `den` rounded toward zero, in the sense of the defining inequalities |
| Scaling.ScaleByOne | modify.py:21 | a factor equal to one (including the default `Factor(1, 1)`) leaves the nominal unchanged |
| Scaling.ScaleByInteger | modify.py:34 | a whole factor multiplies the nominal exactly |
| Scaling.HalvingOddNominals | modify.py:34 | a factor of one half takes 5 to 2 and -5 to -2, truncating toward zero |
| Items.Flag | modify.py:46-50 | the text written for tier `i` is "1" or "0", and "1" exactly when `i` is among the tiers the record asks for |
| Modify.ReadNominal | modify.py:33 | reading `nominal` succeeds exactly when the attribute is present and `int()` accepts it; the value is what `int()` returns; otherwise the error is the missing or non-integer one |
| Modify.Overwrite | modify.py:38-41 | a supplied value replaces the attribute with its `str()`; an absent one leaves the attribute as it was |
| Modify.OverwriteReadsBack | modify.py:38-41 | a supplied `restock` or `lifetime` reads back with `int()` as exactly the supplied value, and overwriting twice is overwriting once |
| Modify.SetTiers | modify.py:46-50 | all four tier flags are written, each "1" exactly for a desired tier and "0" otherwise |
| Modify.Rewrite | modify.py:35-50 | a matching element gets the new nominal's text, supplied `restock`/`lifetime`, fully rewritten tier flags, and keeps tag, `name` and every other attribute |
| Modify.UpdateElement | modify.py:29-50 | updating a matching element succeeds exactly when its nominal reads, and otherwise fails with that element's error |
| Modify.Visit | modify.py:29-50 | one loop step fails exactly on a matching element with an unreadable nominal, and on success is the update of a matching element or the unchanged non-matching one |
| Modify.UpdateItem | modify.py:28-33 | `update_item` succeeds exactly when every matching element's nominal reads, and keeps the number of elements |
| Modify.UpdateItemApplied | modify.py:28-50 | after a successful `update_item` each element is its own update if it matches and unchanged if it does not |
| Modify.UpdateItemFound | modify.py:26-30 | the `found` flag is true exactly when some element matches the record |
| Modify.RewriteReadsBack | modify.py:33-35 | the rewritten nominal reads back as exactly the value written |
| Modify.UpdateItemFailsAtFirstUnreadable | modify.py:28-33 | a failing `update_item` reports the first matching element, in document order, whose nominal cannot be read |
| Modify.NoMatchLeavesDocument | modify.py:26-53 | when no element matches, `update_item` succeeds, returns the document unchanged and reports no match |
| Modify.NonMatchingUntouched | modify.py:28-29 | an element whose name differs from the record's comes out unchanged in every attribute |
| Modify.NotFoundLeavesDocument | modify.py:52-53 | when `found` is false the document is unchanged |
| Modify.MatchesUpdatedAlike | modify.py:28-50 | all matching elements get the same tier flags and the same supplied `restock`/`lifetime`, and each nominal is its own old nominal scaled by the one factor |
| Modify.MatchRewritten | modify.py:29-50 | after a successful `update_item` a matching element's nominal reads as its old nominal times the factor rounded toward zero, each flag `tier{k}` is "1" exactly for a desired tier and "0" otherwise, `restock` and `lifetime` are the `str()` of the supplied values or kept, and tag, `name` and all other attributes are kept |
| Modify.TiersDecidedWithinRange | modify.py:46-50 | two tier entries that agree on which of 1..4 they list update every element alike |
| Modify.OutOfRangeTierIgnored | modify.py:46-50 | adding a tier value outside 1..4 to the entry changes no flag |
| Modify.ScalarTierIsSingletonList | modify.py:44-45 | a scalar `tier` acts as the one-element list of it |
| Modify.NoTierClearsAll | modify.py:24 | without a `tier` entry all four flags become "0" |
| Modify.NoFactorKeepsNominal | modify.py:21 | without a `factor` entry the nominal keeps its value |
| Modify.UpdateKeepsIdentity | modify.py:28-50 | an update keeps every element's tag and `name`, and keeps its nominal readable exactly when it was |
| Modify.RewriteTwice | modify.py:35-50 | rewriting twice with one record is the same as rewriting once with the second nominal |
| Modify.UpdateElementIdempotent | modify.py:33-50 | with a factor of one, updating an updated element changes nothing |
| Modify.UpdateItemIdempotent | modify.py:28-50 | with a factor of one, `update_item` applied twice equals applied once, including the `found` flag |
| Run.ApplyAll | modify.py:56-57 | a completed run keeps the number of elements and warns at most once per record; an aborted run has warned about fewer records than it was given |
| Run.EmptyConfigChangesNothing | modify.py:56-57 | an empty `items` list leaves the document unchanged and warns about nothing |
| Run.ApplyAllSplits | modify.py:56-57 | the run is a left fold: running `a + b` is running `a` and then `b` on its result |
| Run.ApplyConfig | modify.py:56-57 | the loop over the records computes exactly the fold, including stopping at the first error with the warnings printed so far |
| Run.UpdateKeepsShape | modify.py:28-50 | one successful update keeps each element's tag, `name` and nominal readability |
| Run.UnmatchedNamesOfSameShape | modify.py:52-53 | documents of the same shape leave the same records unmatched |
| Run.WarningsNameUnmatchedRecords | modify.py:52-57 | a completed run warns about exactly the records matching no element of the input document, in configuration order |
| Run.RunReadableOfSameShape | modify.py:33 | documents of the same shape are readable for the same records |
| Run.RunFailsExactlyOnUnreadable | modify.py:28-57 | a run fails exactly when some record matches an input element whose nominal cannot be read |
| Run.FirstFailingRecordUnique | modify.py:56-57 | a run has at most one first record matching an unreadable input element |
| Run.AbortWarnsAboutEarlierRecords | modify.py:52-57 | an aborted run fails at the first record matching an unreadable input element, after warning about exactly the earlier records that match nothing, in order |
| Run.AbortReportsFirstUnreadable | modify.py:28-57 | the error of an aborted run is the one raised by that first failing record at its first matching element, in document order, whose nominal cannot be read in the input |
| Examples.ReadTen | modify.py:33 | the nominal "10" reads as 10 |
| Examples.WriteTwenty | modify.py:35 | 20 is written as "20" |
| Examples.TiersTwoAndThree | modify.py:46-50 | the tier list [2, 3] writes flags 0, 1, 1, 0 |
| Examples.DoubleAppleWithTiers | modify.py:19-50 | doubling an element with nominal 10 and asking for tiers 2 and 3 gives nominal "20", flags 0, 1, 1, 0, and keeps `restock` and `lifetime` |
| Examples.PearNotFound | modify.py:52-57 | a configuration naming only an absent item leaves the document unchanged and warns about that name |

## Left out

- Command-line parsing, YAML loading, XML parsing and writing the output file (modify.py:6-16, 60). These are I/O. The configuration is a sequence of records, and the document is a sequence of elements.
- The printed warning text (modify.py:53). It is modelled as the list of unmatched names; a null name is printed as `None`.
- The element tree. `root.iter('type')` is modelled as the flat sequence of elements in iteration order, of which only those tagged `type` can match. The order of attributes is serialisation detail.
- Floating-point factors. `factor` is an exact rational, so float rounding, infinities and NaN are not modelled.
- YAML values of unexpected types: a null or non-numeric `factor`, `restock` or `lifetime` that is a string, float or boolean, and a `tier` that is not an integer or a list of integers. The code wraps a non-list scalar too (modify.py:44-45): `tier: true` becomes `[True]` and sets `tier1` because `True == 1`, while `tier: "2"` becomes `["2"]` and sets no flag. A list with such members behaves the same way. Records hold integers and rationals only.
- Record errors: a record without `name` (a `KeyError` at modify.py:20), and a record that is not a mapping (a `TypeError` there). A `name` that is neither text nor null (a YAML number, say) is not modelled; it never equals an attribute value, so it would only warn.
- Configuration errors: a configuration without `items`, or with `items` that is not a list.
- IntText.ShowInt: always writes the digits. Current Pythons raise `ValueError` from `str()` on an integer of more than 4300 digits (a limit that depends on the version and the `PYTHONINTMAXSTRDIGITS` setting); that error path is not modelled.
- IntText.ParseShowRoundTrip: holds for every integer of the model. In Python `int()` also refuses text of more than 4300 digits, so `ParseInt` accepts nominals Python would reject, and the round trip fails in Python beyond that length.
- Unicode in `int()`. Only ASCII digits and ASCII whitespace are accepted. CPython treats text with any non-ASCII character differently: it then also skips Unicode spaces (U+001C to U+001F among them) and reads other Unicode digits. This is not modelled.
- The elements already mutated when an exception aborts the run. Nothing is written after an error, so the model returns only the error and the warnings printed before it.
