/** A Color × Size catalog worked through the variant resolver. */
module SelectorExamples {
  import opened Wrappers
  import opened ShopifyTypes
  import opened VariantSelector

  function MakeVariant(id: string, color: string, size: string): Variant {
    Variant(id, true, Money(1000, "USD"), None,
            [SelectedOption("Color", color), SelectedOption("Size", size)])
  }

  const RedS := MakeVariant("red-s", "Red", "S")
  const RedM := MakeVariant("red-m", "Red", "M")
  const BlueS := MakeVariant("blue-s", "Blue", "S")
  const BlueM := MakeVariant("blue-m", "Blue", "M")

  const ColorAndSize := [ProductOption("Color", ["Red", "Blue"]), ProductOption("Size", ["S", "M"])]

  /** With all four combinations stocked, a complete selection resolves to its variant. */
  lemma CompleteSelectionResolves()
    ensures Resolve([RedS, RedM, BlueS, BlueM], map["Color" := "Red", "Size" := "M"]) == Some(RedM)
  {
    var sel := map["Color" := "Red", "Size" := "M"];
    assert !Agrees(sel, RedS.selectedOptions[1]);
    ResolveFirstMatch([RedS, RedM, BlueS, BlueM], sel, 1);
  }

  /** An incomplete selection and a never-stocked combination both resolve to None:
      the resolver does not tell them apart. */
  lemma IncompleteAndUnstockedLookAlike()
    ensures Resolve([RedS, RedM, BlueS, BlueM], map["Color" := "Red"]) == None
    ensures Resolve([RedS, RedM, BlueS, BlueM], map["Color" := "Red", "Size" := "L"]) == None
  {
    var variants := [RedS, RedM, BlueS, BlueM];
    var incomplete := map["Color" := "Red"];
    var unstocked := map["Color" := "Red", "Size" := "L"];
    forall k | 0 <= k < |variants|
      ensures !Matches(variants[k], incomplete) && !Matches(variants[k], unstocked)
    {
      assert !Agrees(incomplete, variants[k].selectedOptions[1]);
      assert !Agrees(unstocked, variants[k].selectedOptions[1]);
    }
  }

  /** With (Red, S) missing from the catalog and Red chosen, S is not available for Size. */
  lemma MissingCombinationDisablesValue()
    ensures AvailableValues(ColorAndSize, [RedM, BlueS, BlueM], map["Color" := "Red"], "Size") == ["M"]
  {
    var variants := [RedM, BlueS, BlueM];
    var sel := map["Color" := "Red"];
    assert FindOption(ColorAndSize, "Size") == Some(ColorAndSize[1]);
    var withS := sel["Size" := "S"];
    forall k | 0 <= k < |variants| ensures !Covers(variants[k], withS) {
      if k == 0 {
        assert !HasPair(variants[k], "Size", withS["Size"]);
      } else {
        assert !HasPair(variants[k], "Color", withS["Color"]);
      }
    }
    assert !IsAvailable(variants, sel, "Size", "S");
    var withM := sel["Size" := "M"];
    assert Covers(RedM, withM) by {
      assert HasPair(RedM, "Color", "Red") by { assert RedM.selectedOptions[0] == SelectedOption("Color", "Red"); }
      assert HasPair(RedM, "Size", "M") by { assert RedM.selectedOptions[1] == SelectedOption("Size", "M"); }
    }
    assert variants[0] == RedM;
    assert IsAvailable(variants, sel, "Size", "M");
    assert ["S", "M"][1..] == ["M"];
    assert ["M"][1..] == [];
  }
}
