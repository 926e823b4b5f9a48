/** The cart aggregator of app/CartContext.tsx. Each setter passed to `setItems`
    is modelled as a pure function from the old line sequence to the new one. */
module CartContext {
  import opened Wrappers
  import opened ShopifyTypes
  import opened Sequences

  /** One line of the cart; `variantId` is its identity key. */
  datatype CartItem = CartItem(
    productId: string,
    variantId: string,
    productTitle: string,
    price: Money,
    image: Option<Image>,
    selectedOptions: seq<SelectedOption>,
    quantity: int)

  /** What `addItem` receives: a cart line without its quantity. */
  datatype NewItem = NewItem(
    productId: string,
    variantId: string,
    productTitle: string,
    price: Money,
    image: Option<Image>,
    selectedOptions: seq<SelectedOption>)

  /** The candidate item spread into a cart line with the given quantity. */
  function WithQuantity(item: NewItem, quantity: int): CartItem {
    CartItem(item.productId, item.variantId, item.productTitle, item.price,
             item.image, item.selectedOptions, quantity)
  }

  /** The cart's state: its lines, in first-add order. */
  type Cart = seq<CartItem>

  /** The state the provider starts from. */
  const EmptyCart: Cart := []

  predicate HasLine(items: Cart, variantId: string) {
    exists i :: 0 <= i < |items| && items[i].variantId == variantId
  }

  /** No two lines share a `variantId` (merge, never duplicate). */
  predicate UniqueIds(items: Cart) {
    forall i, j :: 0 <= i < j < |items| ==> items[i].variantId != items[j].variantId
  }

  /** A line is deleted, never left at quantity 0. */
  predicate PositiveQuantities(items: Cart) {
    forall i :: 0 <= i < |items| ==> items[i].quantity >= 1
  }

  predicate Valid(items: Cart) {
    UniqueIds(items) && PositiveQuantities(items)
  }

  /** The mapping callback of `addItem`: raise the quantity of a line with the given id. */
  function Bump(line: CartItem, variantId: string): CartItem {
    if line.variantId == variantId then line.(quantity := line.quantity + 1) else line
  }

  /** `addItem`: merge by `variantId` when a line exists, otherwise append with quantity 1. */
  function AddItem(items: Cart, item: NewItem): (r: Cart)
    ensures HasLine(r, item.variantId)
    ensures |r| == if HasLine(items, item.variantId) then |items| else |items| + 1
    ensures forall i :: 0 <= i < |items| && items[i].variantId != item.variantId ==> r[i] == items[i]
    ensures forall i :: 0 <= i < |items| && items[i].variantId == item.variantId ==>
              r[i] == items[i].(quantity := items[i].quantity + 1)
    ensures !HasLine(items, item.variantId) ==> r[|items|] == WithQuantity(item, 1)
    ensures PositiveQuantities(items) ==> PositiveQuantities(r)
    ensures UniqueIds(items) ==> UniqueIds(r)
  {
    if HasLine(items, item.variantId) then
      var r := seq(|items|, i requires 0 <= i < |items| => Bump(items[i], item.variantId));
      assert forall i :: 0 <= i < |items| ==> r[i].variantId == items[i].variantId;
      r
    else
      var r := items + [WithQuantity(item, 1)];
      assert r[|items|].variantId == item.variantId;
      r
  }

  /** `removeItem`: keep the lines whose id differs, in their order. */
  function RemoveItem(items: Cart, variantId: string): (r: Cart)
    ensures !HasLine(r, variantId)
    ensures |r| <= |items|
    ensures !HasLine(items, variantId) ==> r == items
    ensures PositiveQuantities(items) ==> PositiveQuantities(r)
  {
    if items == [] then []
    else if items[0].variantId == variantId then RemoveItem(items[1..], variantId)
    else [items[0]] + RemoveItem(items[1..], variantId)
  }

  /** The lines that survive removal keep their relative order, and every line
      with another id survives. */
  lemma {:induction false} RemoveKeepsOthersInOrder(items: Cart, variantId: string)
    ensures IsSubsequence(RemoveItem(items, variantId), items)
    ensures forall i :: 0 <= i < |items| && items[i].variantId != variantId ==>
              items[i] in RemoveItem(items, variantId)
    decreases |items|
  {
    if items != [] {
      var rest := items[1..];
      RemoveKeepsOthersInOrder(rest, variantId);
      var r := RemoveItem(items, variantId);
      forall i | 0 < i < |items| && items[i].variantId != variantId ensures items[i] in r {
        assert items[i] == rest[i - 1];
      }
      if items[0].variantId != variantId {
        assert r == [items[0]] + RemoveItem(rest, variantId);
        assert r[0] == items[0] && r[1..] == RemoveItem(rest, variantId);
      }
    }
  }

  /** `clearCart`: the previous state is discarded. */
  function ClearCart(items: Cart): (r: Cart)
    ensures |r| == 0
    ensures Valid(r)
  {
    EmptyCart
  }

  /** No line carries a negative price. */
  predicate NonNegativePrices(items: Cart) {
    forall i :: 0 <= i < |items| ==> items[i].price.amount >= 0
  }

  /** One line's subtotal in cents: its unit amount times its quantity. */
  function LineTotal(line: CartItem): int {
    line.price.amount * line.quantity
  }

  /** Sum of amount × quantity over the lines, folded from the left as `reduce` does. */
  function TotalCents(items: Cart): (t: int)
    ensures NonNegativePrices(items) && PositiveQuantities(items) ==> t >= 0
  {
    if items == [] then 0 else TotalCents(items[..|items| - 1]) + LineTotal(items[|items| - 1])
  }

  /** `getTotalPrice`: the `reduce` accumulation, in cents. */
  method GetTotalPrice(items: Cart) returns (total: int)
    ensures total == TotalCents(items)
  {
    total := 0;
    var i := 0;
    while i < |items|
      invariant 0 <= i <= |items|
      invariant total == TotalCents(items[..i])
    {
      total := total + items[i].price.amount * items[i].quantity;
      i := i + 1;
      assert items[..i][..i - 1] == items[..i - 1];
    }
    assert items[..|items|] == items;
  }

  lemma {:induction false} TotalCentsConcat(a: Cart, b: Cart)
    ensures TotalCents(a + b) == TotalCents(a) + TotalCents(b)
    decreases |b|
  {
    if b == [] {
      assert a + b == a;
    } else {
      var b' := b[..|b| - 1];
      assert (a + b)[..|a + b| - 1] == a + b';
      TotalCentsConcat(a, b');
    }
  }

  /** Adding an absent variant appends exactly one line, with quantity 1, after the unchanged old lines. */
  lemma AddNewItemAppends(items: Cart, item: NewItem)
    requires !HasLine(items, item.variantId)
    ensures AddItem(items, item) == items + [WithQuantity(item, 1)]
  {
  }

  /** Adding a present variant changes only that line, and only its quantity;
      price, image and the other fields are not refreshed from the new item. */
  lemma AddExistingItemIncrements(items: Cart, item: NewItem, k: int)
    requires UniqueIds(items)
    requires 0 <= k < |items| && items[k].variantId == item.variantId
    ensures AddItem(items, item) == items[k := items[k].(quantity := items[k].quantity + 1)]
  {
  }

  /** Two adds of one variant to the empty cart make one line of quantity 2. */
  lemma AddSameTwiceFromEmpty(item: NewItem)
    ensures AddItem(AddItem(EmptyCart, item), item) == [WithQuantity(item, 2)]
  {
    var first := WithQuantity(item, 1);
    AddNewItemAppends(EmptyCart, item);
    assert EmptyCart + [first] == [first];
    AddExistingItemIncrements([first], item, 0);
    assert first.(quantity := first.quantity + 1) == WithQuantity(item, 2);
    assert [first][0 := WithQuantity(item, 2)] == [WithQuantity(item, 2)];
  }

  /** Removing twice is removing once. */
  lemma RemoveIdempotent(items: Cart, variantId: string)
    ensures RemoveItem(RemoveItem(items, variantId), variantId) == RemoveItem(items, variantId)
  {
  }

  /** Removal distributes over concatenation. */
  lemma {:induction false} RemoveConcat(a: Cart, b: Cart, variantId: string)
    ensures RemoveItem(a + b, variantId) == RemoveItem(a, variantId) + RemoveItem(b, variantId)
    decreases |a|
  {
    if a == [] {
      assert a + b == b;
    } else {
      assert (a + b)[0] == a[0];
      assert (a + b)[1..] == a[1..] + b;
      RemoveConcat(a[1..], b, variantId);
    }
  }

  /** No line other than the one at `k` carries its id. */
  predicate OnlyLineWithId(items: Cart, k: int)
    requires 0 <= k < |items|
  {
    forall i :: 0 <= i < |items| && i != k ==> items[i].variantId != items[k].variantId
  }

  lemma SplitAt(items: Cart, k: int)
    requires 0 <= k < |items|
    ensures items == items[0..k] + ([items[k]] + items[k + 1..|items|])
    ensures items[..k] == items[0..k] && items[k + 1..] == items[k + 1..|items|]
  {
  }

  /** A slice that skips position `k` holds no line with `k`'s id. */
  lemma SliceWithoutId(items: Cart, k: int, lo: int, hi: int)
    requires 0 <= k < |items| && OnlyLineWithId(items, k)
    requires 0 <= lo <= hi <= |items| && (k < lo || hi <= k)
    ensures !HasLine(items[lo..hi], items[k].variantId)
  {
    var part := items[lo..hi];
    forall i | 0 <= i < |part| ensures part[i].variantId != items[k].variantId {
      assert part[i] == items[lo + i];
    }
  }

  /** Removing the id of a middle line that no other part carries leaves the two other parts. */
  lemma RemoveMiddle(head: Cart, line: CartItem, tail: Cart)
    requires !HasLine(head, line.variantId) && !HasLine(tail, line.variantId)
    ensures RemoveItem(head + ([line] + tail), line.variantId) == head + tail
  {
    var id := line.variantId;
    RemoveConcat(head, [line] + tail, id);
    RemoveConcat([line], tail, id);
    assert RemoveItem([line], id) == [];
  }

  lemma RemoveOnlyLine(items: Cart, k: int)
    requires 0 <= k < |items| && OnlyLineWithId(items, k)
    ensures RemoveItem(items, items[k].variantId) == items[..k] + items[k + 1..]
  {
    SliceWithoutId(items, k, 0, k);
    SliceWithoutId(items, k, k + 1, |items|);
    SplitAt(items, k);
    RemoveMiddle(items[0..k], items[k], items[k + 1..|items|]);
  }

  /** With unique ids, removing the id of a line deletes exactly that line. */
  lemma RemoveLineAt(items: Cart, k: int)
    requires UniqueIds(items)
    requires 0 <= k < |items|
    ensures RemoveItem(items, items[k].variantId) == items[..k] + items[k + 1..]
  {
    RemoveOnlyLine(items, k);
  }

  /** A cart's total splits around any one of its lines. */
  lemma TotalAround(items: Cart, k: int)
    requires 0 <= k < |items|
    ensures TotalCents(items) == TotalCents(items[..k]) + LineTotal(items[k]) + TotalCents(items[k + 1..])
  {
    var before, line, after := items[..k], [items[k]], items[k + 1..];
    assert items == (before + line) + after;
    TotalCentsConcat(before + line, after);
    TotalCentsConcat(before, line);
    assert TotalCents(line) == LineTotal(items[k]) by {
      assert line[..0] == [];
    }
  }

  lemma LineTotalBump(line: CartItem)
    ensures LineTotal(line.(quantity := line.quantity + 1)) == LineTotal(line) + line.price.amount
  {
    assert line.price.amount * (line.quantity + 1) == line.price.amount * line.quantity + line.price.amount;
  }

  lemma UpdateKeepsSlices(items: Cart, k: int, line: CartItem)
    requires 0 <= k < |items|
    ensures items[k := line][..k] == items[..k]
    ensures items[k := line][k + 1..] == items[k + 1..]
  {
  }

  /** Raising one line's quantity by 1 raises the total by that line's amount. */
  lemma TotalBumpAt(items: Cart, k: int)
    requires 0 <= k < |items|
    ensures TotalCents(items[k := items[k].(quantity := items[k].quantity + 1)])
         == TotalCents(items) + items[k].price.amount
  {
    var bumped := items[k := items[k].(quantity := items[k].quantity + 1)];
    TotalAround(items, k);
    TotalAround(bumped, k);
    UpdateKeepsSlices(items, k, bumped[k]);
    LineTotalBump(items[k]);
  }

  /** Adding a present variant raises the total by that line's own amount. */
  lemma AddExistingRaisesTotal(items: Cart, item: NewItem, k: int)
    requires UniqueIds(items)
    requires 0 <= k < |items| && items[k].variantId == item.variantId
    ensures TotalCents(AddItem(items, item)) == TotalCents(items) + items[k].price.amount
  {
    AddExistingItemIncrements(items, item, k);
    TotalBumpAt(items, k);
  }

  /** Adding an absent variant raises the total by the new item's amount. */
  lemma AddNewRaisesTotal(items: Cart, item: NewItem)
    requires !HasLine(items, item.variantId)
    ensures TotalCents(AddItem(items, item)) == TotalCents(items) + item.price.amount
  {
    TotalCentsConcat(items, [WithQuantity(item, 1)]);
  }

  lemma TotalWithoutLine(items: Cart, k: int)
    requires 0 <= k < |items|
    ensures TotalCents(items[..k] + items[k + 1..]) == TotalCents(items) - LineTotal(items[k])
  {
    TotalAround(items, k);
    TotalCentsConcat(items[..k], items[k + 1..]);
  }

  /** With unique ids, removing the id of a line lowers the total by that line's subtotal. */
  lemma RemoveLowersTotal(items: Cart, k: int)
    requires UniqueIds(items)
    requires 0 <= k < |items|
    ensures TotalCents(RemoveItem(items, items[k].variantId)) == TotalCents(items) - LineTotal(items[k])
  {
    RemoveLineAt(items, k);
    TotalWithoutLine(items, k);
  }

  /** Lines at 10.00 × 2 and 5.50 × 1 total 25.50. */
  lemma TotalExample(a: CartItem, b: CartItem)
    requires a.price.amount == 1000 && a.quantity == 2
    requires b.price.amount == 550 && b.quantity == 1
    ensures TotalCents([a, b]) == 2550
  {
    assert [a, b][..1] == [a];
    assert [a][..0] == [];
    assert TotalCents([a]) == TotalCents([]) + LineTotal(a);
    assert TotalCents([a, b]) == TotalCents([a]) + LineTotal(b);
  }

  /** The three mutations the provider exposes. */
  datatype CartAction = Add(item: NewItem) | Remove(variantId: string) | Clear

  function Apply(items: Cart, action: CartAction): Cart {
    match action
    case Add(item) => AddItem(items, item)
    case Remove(variantId) => RemoveItem(items, variantId)
    case Clear => ClearCart(items)
  }

  /** The state after a sequence of actions, starting from `items`. */
  function Run(items: Cart, actions: seq<CartAction>): Cart
    decreases |actions|
  {
    if actions == [] then items else Run(Apply(items, actions[0]), actions[1..])
  }

  /** A sub-sequence of a cart with unique ids has unique ids. */
  lemma {:induction false} SubsequenceKeepsUniqueIds(a: Cart, b: Cart)
    requires IsSubsequence(a, b)
    requires UniqueIds(b)
    ensures UniqueIds(a)
    decreases |b|
  {
    if a != [] {
      assert UniqueIds(b[1..]) by {
        forall i, j | 0 <= i < j < |b[1..]| ensures b[1..][i].variantId != b[1..][j].variantId {
          assert b[1..][i] == b[i + 1] && b[1..][j] == b[j + 1];
        }
      }
      if a[0] == b[0] && IsSubsequence(a[1..], b[1..]) {
        SubsequenceKeepsUniqueIds(a[1..], b[1..]);
        SubsequenceMembers(a[1..], b[1..]);
        forall i, j | 0 <= i < j < |a| ensures a[i].variantId != a[j].variantId {
          if i == 0 {
            assert a[j] == a[1..][j - 1];
            assert a[j] in b[1..];
            var m :| 0 <= m < |b[1..]| && b[1..][m] == a[j];
            assert b[m + 1] == a[j];
          } else {
            assert a[i] == a[1..][i - 1] && a[j] == a[1..][j - 1];
          }
        }
      } else {
        SubsequenceKeepsUniqueIds(a, b[1..]);
      }
    }
  }

  /** Each action keeps a valid cart valid. */
  lemma ApplyPreservesValid(items: Cart, action: CartAction)
    requires Valid(items)
    ensures Valid(Apply(items, action))
  {
    if action.Remove? {
      RemoveKeepsOthersInOrder(items, action.variantId);
      SubsequenceKeepsUniqueIds(RemoveItem(items, action.variantId), items);
    }
  }

  /** Every cart reachable from the empty cart has unique ids and positive quantities. */
  lemma {:induction false} RunPreservesValid(items: Cart, actions: seq<CartAction>)
    requires Valid(items)
    ensures Valid(Run(items, actions))
    decreases |actions|
  {
    if actions != [] {
      ApplyPreservesValid(items, actions[0]);
      RunPreservesValid(Apply(items, actions[0]), actions[1..]);
    }
  }

  /** Whatever happened before, clearing yields the empty cart. */
  lemma ClearAfterAnything(actions: seq<CartAction>)
    ensures Run(EmptyCart, actions + [Clear]) == EmptyCart
  {
    RunConcat(EmptyCart, actions, [Clear]);
  }

  lemma {:induction false} RunConcat(items: Cart, first: seq<CartAction>, second: seq<CartAction>)
    ensures Run(items, first + second) == Run(Run(items, first), second)
    decreases |first|
  {
    if first == [] {
      assert first + second == second;
    } else {
      assert (first + second)[0] == first[0];
      assert (first + second)[1..] == first[1..] + second;
      RunConcat(Apply(items, first[0]), first[1..], second);
    }
  }
}
