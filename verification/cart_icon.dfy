/** The derived views of app/CartIcon.tsx: the item count, the badge shown when
    it is positive, the "empty" message, and removal from a rendered line. */
module CartIcon {
  import opened CartContext

  /** The number of items on the icon (app/CartIcon.tsx:10): the quantities of
      the lines added up from the first line to the last. */
  function ItemCount(items: Cart): (n: int)
    ensures PositiveQuantities(items) ==> n >= |items|
  {
    if items == [] then 0 else ItemCount(items[..|items| - 1]) + items[|items| - 1].quantity
  }

  /** The count badge on the icon is rendered (app/CartIcon.tsx:39). */
  predicate ShowsBadge(items: Cart): (b: bool)
    ensures b ==> |items| > 0
    ensures PositiveQuantities(items) ==> (b <==> |items| > 0)
  {
    ItemCount(items) > 0
  }

  /** The dropdown shows "Your cart is empty" instead of the lines and total
      (app/CartIcon.tsx:66). */
  predicate ShowsEmptyMessage(items: Cart): (b: bool)
    ensures b ==> ItemCount(items) == 0 && !ShowsBadge(items)
  {
    |items| == 0
  }

  /** Quantity of the first line with the given id, 0 when there is none. */
  function QuantityOf(items: Cart, variantId: string): int {
    if items == [] then 0
    else if items[0].variantId == variantId then items[0].quantity
    else QuantityOf(items[1..], variantId)
  }

  lemma {:induction false} ItemCountConcat(a: Cart, b: Cart)
    ensures ItemCount(a + b) == ItemCount(a) + ItemCount(b)
    decreases |b|
  {
    if b == [] {
      assert a + b == a;
    } else {
      var b' := b[..|b| - 1];
      assert (a + b)[..|a + b| - 1] == a + b';
      ItemCountConcat(a, b');
    }
  }

  lemma ItemCountCons(line: CartItem, rest: Cart)
    ensures ItemCount([line] + rest) == line.quantity + ItemCount(rest)
  {
    ItemCountConcat([line], rest);
    assert [line][..0] == [];
  }

  /** The empty cart counts 0 items. */
  lemma EmptyCartCount()
    ensures ItemCount(EmptyCart) == 0
    ensures !ShowsBadge(EmptyCart) && ShowsEmptyMessage(EmptyCart)
  {
  }

  /** The badge is shown exactly when the "empty" message is not. */
  lemma BadgeIffNonEmpty(items: Cart)
    requires PositiveQuantities(items)
    ensures ShowsBadge(items) <==> !ShowsEmptyMessage(items)
  {
  }

  /** Each `addItem` adds exactly one item to the count. */
  lemma AddRaisesCountByOne(items: Cart, item: NewItem)
    requires UniqueIds(items)
    ensures ItemCount(AddItem(items, item)) == ItemCount(items) + 1
  {
    if HasLine(items, item.variantId) {
      var k :| 0 <= k < |items| && items[k].variantId == item.variantId;
      AddExistingItemIncrements(items, item, k);
      CountBumpAt(items, k);
    } else {
      ItemCountConcat(items, [WithQuantity(item, 1)]);
      assert [WithQuantity(item, 1)][..0] == [];
    }
  }

  lemma CountBumpAt(items: Cart, k: int)
    requires 0 <= k < |items|
    ensures ItemCount(items[k := items[k].(quantity := items[k].quantity + 1)]) == ItemCount(items) + 1
  {
    var bumped := items[k := items[k].(quantity := items[k].quantity + 1)];
    CountAround(items, k);
    CountAround(bumped, k);
    UpdateKeepsSlices(items, k, bumped[k]);
  }

  lemma CountAround(items: Cart, k: int)
    requires 0 <= k < |items|
    ensures ItemCount(items) == ItemCount(items[..k]) + items[k].quantity + ItemCount(items[k + 1..])
  {
    var before, line, after := items[..k], [items[k]], items[k + 1..];
    assert items == (before + line) + after;
    ItemCountConcat(before + line, after);
    ItemCountConcat(before, line);
    assert ItemCount(line) == items[k].quantity by {
      assert line[..0] == [];
    }
  }

  /** `removeItem(v)` lowers the count by the quantity of v's line, or by 0 when v has none. */
  lemma {:induction false} RemoveLowersCount(items: Cart, variantId: string)
    requires UniqueIds(items)
    ensures ItemCount(RemoveItem(items, variantId)) == ItemCount(items) - QuantityOf(items, variantId)
    decreases |items|
  {
    if items != [] {
      var rest := items[1..];
      assert items == [items[0]] + rest;
      ItemCountCons(items[0], rest);
      assert UniqueIds(rest) by {
        forall i, j | 0 <= i < j < |rest| ensures rest[i].variantId != rest[j].variantId {
          assert rest[i] == items[i + 1] && rest[j] == items[j + 1];
        }
      }
      if items[0].variantId == variantId {
        assert !HasLine(rest, variantId) by {
          forall i | 0 <= i < |rest| ensures rest[i].variantId != variantId {
            assert rest[i] == items[i + 1];
          }
        }
      } else {
        RemoveLowersCount(rest, variantId);
        ItemCountCons(items[0], RemoveItem(rest, variantId));
      }
    }
  }

  /** Clearing leaves no items: no badge, and the "empty" message. */
  lemma ClearEmptiesCount(items: Cart)
    ensures ItemCount(ClearCart(items)) == 0
    ensures !ShowsBadge(ClearCart(items)) && ShowsEmptyMessage(ClearCart(items))
  {
  }

  /** The Remove button of a rendered line deletes that one line and lowers the count by its quantity. */
  lemma RemoveRenderedLine(items: Cart, k: int)
    requires Valid(items)
    requires 0 <= k < |items|
    ensures RemoveItem(items, items[k].variantId) == items[..k] + items[k + 1..]
    ensures ItemCount(RemoveItem(items, items[k].variantId)) == ItemCount(items) - items[k].quantity
  {
    RemoveLineAt(items, k);
    CountAround(items, k);
    ItemCountConcat(items[..k], items[k + 1..]);
  }
}
