/** Worked instances of the item updater on a concrete element and a one-element document. */
module Examples {
  import opened Wrappers
  import opened IntText
  import opened Scaling
  import opened Items
  import opened Modify
  import opened Run

  function Apple(): Element {
    Element(TypeTag, Some("Apple"), Some("10"), Some("1800"), Some("3600"),
      Tiers(Some("1"), Some("0"), Some("0"), Some("0")), map[])
  }

  /** Double the nominal and enable tiers 2 and 3. */
  function DoubleWithTiers(): Record {
    Record(Some("Apple"), Some(Factor(2, 1)), None, None, TierList([2, 3]))
  }

  /** A record for an item the document does not define. */
  function Pear(): Record {
    Record(Some("Pear"), None, None, None, NoTier)
  }

  lemma ReadTen()
    ensures ReadNominal(Apple(), DoubleWithTiers()) == Success(10)
  {
    assert ShowInt(10) == "10" by {
      assert ShowNat(1) == "1";
    }
    ParseShowRoundTrip(10);
  }

  lemma WriteTwenty()
    ensures ShowInt(20) == "20"
  {
    assert ShowNat(2) == "2";
  }

  lemma TiersTwoAndThree()
    ensures SetTiers(TierList([2, 3])) == Tiers(Some("0"), Some("1"), Some("1"), Some("0"))
  {
    var t := TierList([2, 3]);
    assert Flag(t, 1) == "0" && Flag(t, 2) == "1" && Flag(t, 3) == "1" && Flag(t, 4) == "0";
  }

  /**
   * Doubling with tiers 2 and 3: the nominal becomes 20, tier 1 is cleared,
   * tiers 2 and 3 are set, and restock and lifetime keep their values.
   */
  lemma DoubleAppleWithTiers()
    ensures UpdateElement(Apple(), DoubleWithTiers())
      == Success(Element(TypeTag, Some("Apple"), Some("20"), Some("1800"), Some("3600"),
           Tiers(Some("0"), Some("1"), Some("1"), Some("0")), map[]))
  {
    ReadTen();
    WriteTwenty();
    TiersTwoAndThree();
    assert Scale(10, Factor(2, 1)) == 20;
  }

  /** A configuration naming only an absent item leaves the document as it was and warns about that name. */
  lemma PearNotFound()
    ensures ApplyAll([Apple()], [Pear()]) == Success(Outcome([Apple()], [Some("Pear")]))
  {
    assert "Apple"[0] != "Pear"[0];
    assert !Matches(Apple(), Pear());
    NoMatchLeavesDocument([Apple()], Pear());
    assert [Pear()][1..] == [];
    assert ApplyAll([Apple()], []) == Success(Outcome([Apple()], []));
    assert UpdateItem([Apple()], Pear()) == Success(Updated([Apple()], false));
    assert [Pear()][0] == Pear();
    assert Warning(Pear(), false) + [] == [Some("Pear")];
  }
}
