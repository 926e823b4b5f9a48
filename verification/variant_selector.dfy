/** The variant resolver of app/VariantSelector.tsx: resolution of a selection to
    the first agreeing variant, per-option availability, and the selection update
    that notifies the parent. The selection state is threaded explicitly. */
module VariantSelector {
  import opened Wrappers
  import opened ShopifyTypes
  import opened Sequences

  datatype Variant = Variant(
    id: string,
    availableForSale: bool,
    price: Money,
    image: Option<Image>,
    selectedOptions: seq<SelectedOption>)

  /** One option axis (e.g. Color) and its declared values, in display order. */
  datatype ProductOption = ProductOption(name: string, values: seq<string>)

  /** The chosen values, keyed by option name. */
  type Selection = map<string, string>

  /** The selector starts with nothing chosen. */
  const InitialSelection: Selection := map[]

  // ---------------------------------------------------------------------------
  // Resolution
  // ---------------------------------------------------------------------------

  /** The selection holds the pair's value under the pair's name; a name the
      selection lacks agrees with no value. */
  predicate Agrees(selection: Selection, option: SelectedOption) {
    option.name in selection && selection[option.name] == option.value
  }

  /** Every pair the variant declares agrees with the selection; keys the
      variant does not mention play no part. */
  predicate Matches(variant: Variant, selection: Selection) {
    forall i :: 0 <= i < |variant.selectedOptions| ==> Agrees(selection, variant.selectedOptions[i])
  }

  /** Resolution (app/VariantSelector.tsx:34-39): the first variant, in sequence
      order, that matches. */
  function Resolve(variants: seq<Variant>, selection: Selection): (r: Option<Variant>)
    ensures r.Some? ==> exists k :: 0 <= k < |variants| && variants[k] == r.value
                                 && Matches(variants[k], selection)
                                 && forall j :: 0 <= j < k ==> !Matches(variants[j], selection)
    ensures r.None? <==> forall k :: 0 <= k < |variants| ==> !Matches(variants[k], selection)
  {
    if variants == [] then None
    else if Matches(variants[0], selection) then Some(variants[0])
    else
      var r := Resolve(variants[1..], selection);
      assert forall k :: 0 < k < |variants| ==> variants[k] == variants[1..][k - 1];
      r
  }

  /** A variant whose option list names a key the selection lacks is never the
      result of resolving that selection. */
  lemma MissingNameBlocksVariant(variants: seq<Variant>, selection: Selection, variant: Variant, i: int)
    requires 0 <= i < |variant.selectedOptions|
    requires variant.selectedOptions[i].name !in selection
    ensures !Matches(variant, selection)
    ensures Resolve(variants, selection) != Some(variant)
  {
  }

  /** A variant with no option pairs matches every selection, so it wins as
      soon as no earlier variant matches. */
  lemma OptionlessVariantMatchesAll(variants: seq<Variant>, selection: Selection, k: int)
    requires 0 <= k < |variants| && |variants[k].selectedOptions| == 0
    requires forall j :: 0 <= j < k ==> !Matches(variants[j], selection)
    ensures Resolve(variants, selection) == Some(variants[k])
  {
    ResolveFirstMatch(variants, selection, k);
  }

  /** Resolution picks the variant at `k` when it matches and no earlier one does. */
  lemma {:induction false} ResolveFirstMatch(variants: seq<Variant>, selection: Selection, k: int)
    requires 0 <= k < |variants| && Matches(variants[k], selection)
    requires forall j :: 0 <= j < k ==> !Matches(variants[j], selection)
    ensures Resolve(variants, selection) == Some(variants[k])
    decreases k
  {
    if k > 0 {
      assert !Matches(variants[0], selection);
      var tail := variants[1..];
      assert tail[k - 1] == variants[k];
      forall j | 0 <= j < k - 1 ensures !Matches(tail[j], selection) {
        assert tail[j] == variants[j + 1];
      }
      ResolveFirstMatch(tail, selection, k - 1);
    }
  }

  /** From the initial empty selection, only an option-less variant can resolve:
      there is no default first variant. */
  lemma InitialSelectionResolvesOnlyOptionless(variants: seq<Variant>)
    ensures Resolve(variants, InitialSelection).Some? <==>
            exists k :: 0 <= k < |variants| && |variants[k].selectedOptions| == 0
    ensures Resolve(variants, InitialSelection).Some? ==>
            |Resolve(variants, InitialSelection).value.selectedOptions| == 0
  {
    forall k | 0 <= k < |variants|
      ensures Matches(variants[k], InitialSelection) <==> |variants[k].selectedOptions| == 0
    {
      if |variants[k].selectedOptions| > 0 {
        assert !Agrees(InitialSelection, variants[k].selectedOptions[0]);
      }
    }
  }

  /** No variant mentions option name `key`. */
  predicate NeverMentioned(variants: seq<Variant>, key: string) {
    forall k, i :: 0 <= k < |variants| && 0 <= i < |variants[k].selectedOptions| ==>
      variants[k].selectedOptions[i].name != key
  }

  /** Setting or dropping a key that no variant mentions does not change resolution. */
  lemma {:induction false} UnmentionedKeyIgnored(variants: seq<Variant>, selection: Selection, key: string, value: string)
    requires NeverMentioned(variants, key)
    ensures Resolve(variants, selection[key := value]) == Resolve(variants, selection)
    ensures Resolve(variants, selection - {key}) == Resolve(variants, selection)
    decreases |variants|
  {
    if variants != [] {
      var v := variants[0];
      forall i | 0 <= i < |v.selectedOptions|
        ensures Agrees(selection[key := value], v.selectedOptions[i]) == Agrees(selection, v.selectedOptions[i])
        ensures Agrees(selection - {key}, v.selectedOptions[i]) == Agrees(selection, v.selectedOptions[i])
      {
        assert v.selectedOptions[i].name != key;
      }
      var tail := variants[1..];
      assert NeverMentioned(tail, key) by {
        forall k, i | 0 <= k < |tail| && 0 <= i < |tail[k].selectedOptions|
          ensures tail[k].selectedOptions[i].name != key
        {
          assert tail[k] == variants[k + 1];
        }
      }
      UnmentionedKeyIgnored(tail, selection, key, value);
    }
  }

  // ---------------------------------------------------------------------------
  // The transition
  // ---------------------------------------------------------------------------

  /** The new selection state, and the variant passed to `onVariantChange`
      (None when the callback does not fire). */
  datatype Transition = Transition(selection: Selection, notified: Option<Variant>)

  /** `handleOptionChange`: set one key, then resolve the new selection. */
  function HandleOptionChange(variants: seq<Variant>, selection: Selection, optionName: string, value: string): (t: Transition)
    ensures t.selection.Keys == selection.Keys + {optionName}
    ensures t.selection[optionName] == value
    ensures forall k :: k in selection && k != optionName ==> t.selection[k] == selection[k]
    ensures t.notified == Resolve(variants, t.selection)
    ensures t.notified.Some? <==> exists k :: 0 <= k < |variants| && Matches(variants[k], t.selection)
    ensures t.notified.Some? ==> t.notified.value in variants && Matches(t.notified.value, t.selection)
  {
    var newSelection := selection[optionName := value];
    Transition(newSelection, Resolve(variants, newSelection))
  }

  // ---------------------------------------------------------------------------
  // Availability
  // ---------------------------------------------------------------------------

  /** Some pair of the variant has exactly this name and this value. */
  predicate HasPair(variant: Variant, name: string, value: string) {
    exists i :: 0 <= i < |variant.selectedOptions| &&
      variant.selectedOptions[i].name == name && variant.selectedOptions[i].value == value
  }

  /** Every entry of the selection occurs among the variant's pairs. */
  predicate Covers(variant: Variant, selection: Selection) {
    forall name :: name in selection ==> HasPair(variant, name, selection[name])
  }

  /** Some variant covers the selection once `optionName` is set to `value`. */
  predicate IsAvailable(variants: seq<Variant>, selection: Selection, optionName: string, value: string) {
    exists k :: 0 <= k < |variants| && Covers(variants[k], selection[optionName := value])
  }

  /** The first declared option with the given name (app/VariantSelector.tsx:46-47). */
  function FindOption(options: seq<ProductOption>, name: string): (r: Option<ProductOption>)
    ensures r.Some? ==> exists k :: 0 <= k < |options| && options[k] == r.value && options[k].name == name
                                 && forall j :: 0 <= j < k ==> options[j].name != name
    ensures r.None? <==> forall k :: 0 <= k < |options| ==> options[k].name != name
  {
    if options == [] then None
    else if options[0].name == name then Some(options[0])
    else
      var r := FindOption(options[1..], name);
      assert forall k :: 0 < k < |options| ==> options[k] == options[1..][k - 1];
      r
  }

  /** The filtering step of `getAvailableValues` (app/VariantSelector.tsx:48-58):
      the declared values, in order, that are available. */
  function FilterAvailable(values: seq<string>, variants: seq<Variant>, selection: Selection, optionName: string): (r: seq<string>)
    ensures IsSubsequence(r, values)
    ensures forall x :: x in r <==> x in values && IsAvailable(variants, selection, optionName, x)
  {
    if values == [] then []
    else
      var rest := FilterAvailable(values[1..], variants, selection, optionName);
      assert forall x :: x in values <==> x == values[0] || x in values[1..];
      if IsAvailable(variants, selection, optionName, values[0]) then [values[0]] + rest
      else rest
  }

  /** `getAvailableValues(optionName)`: the declared values of the first option
      with that name that some variant still offers; `[]` when there is no such option. */
  function AvailableValues(options: seq<ProductOption>, variants: seq<Variant>, selection: Selection, optionName: string): (r: seq<string>)
    ensures FindOption(options, optionName).None? ==> r == []
    ensures FindOption(options, optionName).Some? ==> IsSubsequence(r, FindOption(options, optionName).value.values)
    ensures forall x :: x in r <==>
              FindOption(options, optionName).Some? && x in FindOption(options, optionName).value.values
              && IsAvailable(variants, selection, optionName, x)
  {
    match FindOption(options, optionName)
    case None => []
    case Some(option) => FilterAvailable(option.values, variants, selection, optionName)
  }

  /** Filtering with a weaker test keeps at least the values a stronger test keeps, in order. */
  lemma {:induction false} FilterWeakerKeepsMore(values: seq<string>, variants: seq<Variant>, smaller: Selection, larger: Selection, optionName: string)
    requires forall x :: x in values && IsAvailable(variants, larger, optionName, x) ==>
                         IsAvailable(variants, smaller, optionName, x)
    ensures IsSubsequence(FilterAvailable(values, variants, larger, optionName),
                          FilterAvailable(values, variants, smaller, optionName))
    decreases |values|
  {
    if values != [] {
      var a := FilterAvailable(values[1..], variants, larger, optionName);
      var b := FilterAvailable(values[1..], variants, smaller, optionName);
      assert forall x :: x in values[1..] ==> x in values;
      FilterWeakerKeepsMore(values[1..], variants, smaller, larger, optionName);
      var v := values[0];
      if IsAvailable(variants, larger, optionName, v) {
        assert ([v] + a)[0] == ([v] + b)[0] && ([v] + a)[1..] == a && ([v] + b)[1..] == b;
      } else if IsAvailable(variants, smaller, optionName, v) {
        if a != [] {
          assert ([v] + b)[1..] == b;
        }
      }
    }
  }

  /** Filtering with equivalent tests gives the same values. */
  lemma {:induction false} FilterSameTest(values: seq<string>, variants: seq<Variant>, s1: Selection, s2: Selection, optionName: string)
    requires forall x :: x in values ==>
               IsAvailable(variants, s1, optionName, x) == IsAvailable(variants, s2, optionName, x)
    ensures FilterAvailable(values, variants, s1, optionName) == FilterAvailable(values, variants, s2, optionName)
    decreases |values|
  {
    if values != [] {
      assert forall x :: x in values[1..] ==> x in values;
      FilterSameTest(values[1..], variants, s1, s2, optionName);
    }
  }

  /** Availability for an option does not depend on the value already chosen for it. */
  lemma AvailabilityIgnoresOwnValue(options: seq<ProductOption>, variants: seq<Variant>, selection: Selection, optionName: string, previous: string)
    ensures AvailableValues(options, variants, selection[optionName := previous], optionName)
         == AvailableValues(options, variants, selection, optionName)
    ensures AvailableValues(options, variants, selection - {optionName}, optionName)
         == AvailableValues(options, variants, selection, optionName)
  {
    match FindOption(options, optionName)
    case None =>
    case Some(option) =>
      forall x | x in option.values
        ensures IsAvailable(variants, selection[optionName := previous], optionName, x)
             == IsAvailable(variants, selection, optionName, x)
        ensures IsAvailable(variants, selection - {optionName}, optionName, x)
             == IsAvailable(variants, selection, optionName, x)
      {
        assert selection[optionName := previous][optionName := x] == selection[optionName := x];
        assert (selection - {optionName})[optionName := x] == selection[optionName := x];
      }
      FilterSameTest(option.values, variants, selection[optionName := previous], selection, optionName);
      FilterSameTest(option.values, variants, selection - {optionName}, selection, optionName);
  }

  /** `smaller` is contained in `larger`, key and value. */
  predicate IsSubSelection(smaller: Selection, larger: Selection) {
    forall k :: k in smaller ==> k in larger && larger[k] == smaller[k]
  }

  /** Choosing more options elsewhere can only remove available values, never add or reorder them. */
  lemma AvailabilityMonotone(options: seq<ProductOption>, variants: seq<Variant>, smaller: Selection, larger: Selection, optionName: string)
    requires IsSubSelection(smaller, larger)
    ensures IsSubsequence(AvailableValues(options, variants, larger, optionName),
                          AvailableValues(options, variants, smaller, optionName))
    ensures forall x :: x in AvailableValues(options, variants, larger, optionName) ==>
                        x in AvailableValues(options, variants, smaller, optionName)
  {
    forall x | IsAvailable(variants, larger, optionName, x)
      ensures IsAvailable(variants, smaller, optionName, x)
    {
      var sm, lg := smaller[optionName := x], larger[optionName := x];
      var k :| 0 <= k < |variants| && Covers(variants[k], lg);
      assert Covers(variants[k], sm) by {
        forall name | name in sm ensures HasPair(variants[k], name, sm[name]) {
          assert name in lg && lg[name] == sm[name];
        }
      }
    }
    match FindOption(options, optionName)
    case None =>
    case Some(option) =>
      FilterWeakerKeepsMore(option.values, variants, smaller, larger, optionName);
  }

  // ---------------------------------------------------------------------------
  // Clicking a value button
  // ---------------------------------------------------------------------------

  /** A click on a value button (app/VariantSelector.tsx:104-107): a disabled button
      does nothing, an enabled one runs `handleOptionChange`. */
  function ClickValue(options: seq<ProductOption>, variants: seq<Variant>, selection: Selection, optionName: string, value: string): (t: Transition)
    ensures value !in AvailableValues(options, variants, selection, optionName) ==>
              t.selection == selection && t.notified.None?
    ensures value in AvailableValues(options, variants, selection, optionName) ==>
              t.selection == selection[optionName := value] && t.notified == Resolve(variants, t.selection)
  {
    if value in AvailableValues(options, variants, selection, optionName) then
      HandleOptionChange(variants, selection, optionName, value)
    else
      Transition(selection, None)
  }

  /** The value button is drawn as chosen (app/VariantSelector.tsx:97): the
      selection already holds the value, so choosing it again changes nothing. */
  predicate IsSelected(selection: Selection, optionName: string, value: string): (b: bool)
    ensures b <==> selection[optionName := value] == selection
  {
    Agrees(selection, SelectedOption(optionName, value))
  }

  /** After a change, the clicked value is drawn as chosen and the other options keep theirs. */
  lemma ChangeMarksSelected(variants: seq<Variant>, selection: Selection, optionName: string, value: string)
    ensures IsSelected(HandleOptionChange(variants, selection, optionName, value).selection, optionName, value)
    ensures forall other, w :: other != optionName ==>
              (IsSelected(HandleOptionChange(variants, selection, optionName, value).selection, other, w)
               <==> IsSelected(selection, other, w))
  {
  }

  /** The variant lists each option name at most once. */
  predicate UniqueNames(variant: Variant) {
    forall i, j :: 0 <= i < j < |variant.selectedOptions| ==>
      variant.selectedOptions[i].name != variant.selectedOptions[j].name
  }

  /** With well-formed variants, clicking an available value that completes the
      selection always resolves a variant and notifies the parent. */
  lemma CompletingAvailableValueResolves(options: seq<ProductOption>, variants: seq<Variant>, selection: Selection, optionName: string, value: string)
    requires forall k :: 0 <= k < |variants| ==> UniqueNames(variants[k])
    requires forall k, i :: 0 <= k < |variants| && 0 <= i < |variants[k].selectedOptions| ==>
               variants[k].selectedOptions[i].name in selection[optionName := value]
    requires value in AvailableValues(options, variants, selection, optionName)
    ensures ClickValue(options, variants, selection, optionName, value).notified.Some?
  {
    var s := selection[optionName := value];
    var k :| 0 <= k < |variants| && Covers(variants[k], s);
    var opts := variants[k].selectedOptions;
    forall i | 0 <= i < |opts| ensures Agrees(s, opts[i]) {
      assert opts[i].name in s;
      assert HasPair(variants[k], opts[i].name, s[opts[i].name]);
      var j :| 0 <= j < |opts| && opts[j].name == opts[i].name && opts[j].value == s[opts[i].name];
      assert i == j;
    }
    assert Matches(variants[k], s);
  }
}
