/**
 * The data the item updater works on: `type` elements of the item-definition
 * document and the change records of the configuration's `items` list.
 */
module Items {
  import opened Wrappers
  import opened Scaling

  /** The four tier flag attributes `tier1` to `tier4`, each absent or holding its text. */
  datatype Tiers = Tiers(tier1: Option<string>, tier2: Option<string>, tier3: Option<string>, tier4: Option<string>)

  /**
   * One element of the document in iteration order. The attributes the
   * updater reads or writes have their own fields (`None` when the element
   * lacks the attribute), every value as the text the document stores;
   * `others` holds all remaining attributes, so its keys are never `name`,
   * `nominal`, `restock`, `lifetime` or `tier1` to `tier4`. `tag` is the
   * element's tag; only elements tagged `type` are ever updated.
   */
  datatype Element = Element(
    tag: string,
    name: Option<string>,
    nominal: Option<string>,
    restock: Option<string>,
    lifetime: Option<string>,
    tiers: Tiers,
    others: map<string, string>)

  /** The `tier` entry of a record: absent, a single value, or a list of values. */
  datatype TierSpec = NoTier | TierValue(value: int) | TierList(values: seq<int>)

  /**
   * One entry of `items`. `name` is `None` when the YAML value is null (it then
   * matches the `type` elements that have no `name` attribute). `factor`,
   * `restock` and `lifetime` are `None` when the key is absent or (for
   * `restock` and `lifetime`) null.
   */
  datatype Record = Record(
    name: Option<string>,
    factor: Option<Factor>,
    restock: Option<int>,
    lifetime: Option<int>,
    tier: TierSpec)

  /** The element tag the updater scans for. */
  const TypeTag := "type"

  /** The value of attribute `tier{i}`. */
  function TierFlag(ts: Tiers, i: int): Option<string>
    requires 1 <= i <= 4
  {
    if i == 1 then ts.tier1 else if i == 2 then ts.tier2 else if i == 3 then ts.tier3 else ts.tier4
  }

  /**
   * An element the record applies to: a `type` element whose `name` attribute
   * equals the record's name, where a missing attribute equals a null name.
   */
  predicate Matches(e: Element, r: Record) {
    e.tag == TypeTag && e.name == r.name
  }

  /**
   * `a` and `b` agree on everything matching looks at (tag and `name`), so
   * every record matches both or neither.
   */
  predicate SameIdentity(a: Element, b: Element) {
    a.tag == b.tag && a.name == b.name
  }

  /** The factor in force; a record without one scales by 1. */
  function FactorOf(r: Record): Factor {
    r.factor.GetOr(Unit)
  }

  /** The tier entry as a list: a single value becomes a one-element list, an absent entry the empty list. */
  function TierValues(t: TierSpec): seq<int> {
    match t
    case NoTier => []
    case TierValue(v) => [v]
    case TierList(vs) => vs
  }

  /** The tiers the record asks for, as a set. */
  function DesiredTiers(t: TierSpec): set<int> {
    match t
    case NoTier => {}
    case TierValue(v) => {v}
    case TierList(vs) => set v | v in vs
  }

  /** The value written to flag `i`: "1" exactly when `i` is a desired tier, "0" otherwise. */
  function Flag(t: TierSpec, i: int): (f: string)
    ensures f == "1" || f == "0"
    ensures f == "1" <==> i in DesiredTiers(t)
  {
    if i in TierValues(t) then "1" else "0"
  }
}
