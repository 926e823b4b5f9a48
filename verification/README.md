# Cart and variant selector of a storefront, in Dafny

This project models the two pieces of logic in a Next.js/Shopify storefront that are
more than presentation:

- **The cart aggregator** (`app/CartContext.tsx`, with the derived item count of
  `app/CartIcon.tsx`). The cart is an ordered sequence of lines keyed by `variantId`.
  `addItem` merges by identity: it raises an existing line's quantity by one, or else
  appends a new line with quantity 1. `removeItem` filters out one id. `clearCart`
  empties the cart. `getTotalPrice` sums amount × quantity. The icon shows a badge
  when the item count (the sum of quantities) is positive, and an "empty" message
  when there are no lines.
- **The variant resolver** (`app/VariantSelector.tsx`). A selection maps option names
  to values. Resolution returns the *first* variant whose every declared
  (name, value) pair agrees with the selection. A value of an option is available
  when some variant carries every entry of the selection after that option's entry
  is overridden with the value. Choosing a value updates the selection, resolves it,
  and notifies the parent only when resolution succeeds. Buttons for unavailable
  values are disabled.

Each React state setter is a pure function from the old state to the new one.
Modules:

- `Wrappers`: `Option`.
- `ShopifyTypes`: `Money`, `Image`, `SelectedOption`.
- `Sequences`: order-preserving sub-sequences.
- `CartContext`: the cart and its invariants.
- `CartIcon`: the item count and the badge and empty-message conditions.
- `VariantSelector`: resolution, availability and the transition.
- `SelectorExamples`: a worked Color × Size catalog.

Prices are integer cents. The invariants of a cart are `UniqueIds` (no two lines share a
`variantId`) and `PositiveQuantities` (every quantity is at least 1). Together they form
`Valid`, which every sequence of add, remove and clear actions from the empty cart keeps.

Some behaviour of the code is worth stating because a reader might expect otherwise:

- Resolution does not tell an incomplete selection from a combination that no variant
  carries: `find` returns `undefined` for both.
  `SelectorExamples.IncompleteAndUnstockedLookAlike` shows this on a Color × Size catalog.
- The selection starts empty (`{}`), and no variant is chosen on load. From the empty
  selection only a variant with no option pairs can resolve
  (`VariantSelector.InitialSelectionResolvesOnlyOptionless`).
- Nothing checks that a variant's pairs cover every product option. A variant with an
  empty option list matches every selection (`VariantSelector.OptionlessVariantMatchesAll`).
  Selection keys that no variant mentions are ignored (`VariantSelector.UnmentionedKeyIgnored`).
- `availableForSale` is carried in `Variant`, but neither resolution nor availability
  reads it.

## Model

| member | source | states |
|---|---|---|
| `CartContext.AddItem` | app/CartContext.tsx:39-53 | the result always has a line for the added id; its length grows by one exactly when the id was absent; lines with other ids are unchanged at their positions; a line with the id gets quantity + 1 and keeps every other field; a new line is the candidate with quantity 1 at the end; positive quantities and unique ids are preserved |
| `CartContext.RemoveItem` | app/CartContext.tsx:56-58 | no line with the id remains; the cart never grows; removing an absent id changes nothing; positive quantities are preserved |
| `CartContext.RemoveKeepsOthersInOrder` | app/CartContext.tsx:57 | the result of a removal is an order-preserving sub-sequence of the cart, and every line with another id is in it |
| `CartContext.ClearCart` | app/CartContext.tsx:61-63 | whatever the prior cart, the result has no lines and is valid |
| `CartContext.TotalCents` | app/CartContext.tsx:67-69 | the sum of the line subtotals, folded from the left; a cart with no negative price and every quantity at least 1 never totals below 0 |
| `CartContext.GetTotalPrice` | app/CartContext.tsx:66-71 | the left-to-right accumulation of `reduce` computes the sum over the lines of amount × quantity |
| `CartContext.TotalCentsConcat` | app/CartContext.tsx:67-69 | the total of two carts placed end to end is the sum of their totals |
| `CartContext.AddNewItemAppends` | app/CartContext.tsx:41-51 | adding an absent id yields exactly the old lines, in order, followed by the candidate with quantity 1 |
| `CartContext.AddExistingItemIncrements` | app/CartContext.tsx:41-48 | with unique ids, adding the id of line k yields the same cart except that line k's quantity is one higher; price and image are not refreshed from the candidate |
| `CartContext.AddSameTwiceFromEmpty` | app/CartContext.tsx:36-53 | two adds of one variant to the empty cart give a single line with quantity 2 |
| `CartContext.RemoveIdempotent` | app/CartContext.tsx:56-58 | removing an id twice is the same as removing it once |
| `CartContext.RemoveConcat` | app/CartContext.tsx:57 | filtering a concatenation filters each part |
| `CartContext.SliceWithoutId` | app/CartContext.tsx:57 | when only line k carries its id, no slice that skips position k holds that id |
| `CartContext.RemoveMiddle` | app/CartContext.tsx:57 | removing the id of a line that neither the part before nor the part after carries leaves exactly those two parts, joined |
| `CartContext.RemoveOnlyLine` | app/CartContext.tsx:57 | when only line k carries its id, removing that id deletes exactly line k |
| `CartContext.RemoveLineAt` | app/CartContext.tsx:57 | with unique ids, removing the id of line k deletes exactly line k and keeps the others in order |
| `CartContext.TotalAround` | app/CartContext.tsx:67-69 | the total is the total before line k, plus line k's subtotal, plus the total after it |
| `CartContext.LineTotalBump` | app/CartContext.tsx:46-68 | one more unit of a line adds that line's amount to its subtotal |
| `CartContext.TotalBumpAt` | app/CartContext.tsx:66-70 | raising one line's quantity by 1 raises the total by that line's amount |
| `CartContext.AddExistingRaisesTotal` | app/CartContext.tsx:41-70 | adding a present variant raises the total by the existing line's amount, not by the candidate's |
| `CartContext.AddNewRaisesTotal` | app/CartContext.tsx:51-70 | adding an absent variant raises the total by the candidate's amount |
| `CartContext.TotalWithoutLine` | app/CartContext.tsx:67-69 | deleting line k lowers the total by that line's subtotal |
| `CartContext.RemoveLowersTotal` | app/CartContext.tsx:56-70 | with unique ids, removing a line's id lowers the total by that line's amount × quantity |
| `CartContext.TotalExample` | app/CartContext.tsx:66-70 | lines at 10.00 × 2 and 5.50 × 1 total 25.50, in cents |
| `CartContext.SubsequenceKeepsUniqueIds` | app/CartContext.tsx:57 | any order-preserving sub-sequence of a cart with unique ids has unique ids, so filtering keeps ids unique |
| `CartContext.ApplyPreservesValid` | app/CartContext.tsx:39-63 | add, remove and clear each keep unique ids and positive quantities |
| `CartContext.RunPreservesValid` | app/CartContext.tsx:36-63 | every sequence of actions keeps a valid cart valid, so every cart reachable from the initial `[]` is valid |
| `CartContext.RunConcat` | app/CartContext.tsx:39-63 | running two action sequences in turn is running their concatenation |
| `CartContext.ClearAfterAnything` | app/CartContext.tsx:61-63 | after any sequence of actions from the empty cart, clearing yields the empty cart |
| `CartIcon.ItemCount` | app/CartIcon.tsx:10 | the sum of the line quantities; when every quantity is at least 1, it is at least the number of lines |
| `CartIcon.ShowsBadge` | app/CartIcon.tsx:39 | the badge is shown only for a cart with lines; when every quantity is at least 1, it is shown exactly when the cart has lines |
| `CartIcon.ShowsEmptyMessage` | app/CartIcon.tsx:66 | when the "empty" message shows, the count is 0 and no badge shows |
| `CartIcon.ItemCountConcat` | app/CartIcon.tsx:10 | the item count of two carts end to end is the sum of their counts |
| `CartIcon.ItemCountCons` | app/CartIcon.tsx:10 | the count of a line followed by a cart is that line's quantity plus the cart's count |
| `CartIcon.EmptyCartCount` | app/CartIcon.tsx:10-67 | the empty cart counts 0 items, shows no badge and shows the "empty" message |
| `CartIcon.BadgeIffNonEmpty` | app/CartIcon.tsx:10-67 | when every quantity is at least 1, the badge is shown exactly when the "empty" message is not |
| `CartIcon.AddRaisesCountByOne` | app/CartContext.tsx:39-53 | with unique ids, each add raises the item count by exactly 1 |
| `CartIcon.CountBumpAt` | app/CartIcon.tsx:10 | raising one line's quantity by 1 raises the count by 1 |
| `CartIcon.CountAround` | app/CartIcon.tsx:10 | the count is the count before line k, plus its quantity, plus the count after it |
| `CartIcon.RemoveLowersCount` | app/CartContext.tsx:56-58 | with unique ids, removing an id lowers the count by that id's line quantity, or by 0 when no line has it |
| `CartIcon.ClearEmptiesCount` | app/CartIcon.tsx:10-67 | after clearing, the count is 0, there is no badge and the "empty" message shows |
| `CartIcon.RemoveRenderedLine` | app/CartIcon.tsx:73-103 | in a valid cart, the Remove button of rendered line k deletes exactly that line and lowers the count by its quantity |
| `VariantSelector.Resolve` | app/VariantSelector.tsx:35-39 | the result is the first variant, in sequence order, all of whose pairs agree with the selection; it is none exactly when no variant agrees |
| `VariantSelector.MissingNameBlocksVariant` | app/VariantSelector.tsx:36-37 | a variant naming an option the selection lacks does not match and is never the resolved variant |
| `VariantSelector.OptionlessVariantMatchesAll` | app/VariantSelector.tsx:36 | a variant with no option pairs matches any selection, and is resolved when no earlier variant matches |
| `VariantSelector.ResolveFirstMatch` | app/VariantSelector.tsx:35-39 | a matching variant preceded by no matching variant is the one resolved |
| `VariantSelector.InitialSelectionResolvesOnlyOptionless` | app/VariantSelector.tsx:29-39 | from the initial empty selection, resolution succeeds exactly when some variant has no option pairs, and then returns such a variant |
| `VariantSelector.UnmentionedKeyIgnored` | app/VariantSelector.tsx:36-37 | setting or dropping a selection key that no variant mentions does not change resolution |
| `VariantSelector.HandleOptionChange` | app/VariantSelector.tsx:62-76 | the new selection has the old keys plus the changed one, with the new value there and every other value kept; the parent is notified exactly when some variant matches the new selection, and it receives the resolved variant |
| `VariantSelector.FindOption` | app/VariantSelector.tsx:46-47 | the result is the first option with the name, and none exactly when no option has it |
| `VariantSelector.FilterAvailable` | app/VariantSelector.tsx:48-59 | the kept values are an order-preserving sub-sequence of the declared values, and a value is kept exactly when it is available |
| `VariantSelector.AvailableValues` | app/VariantSelector.tsx:43-60 | the result is empty when no option has the name; otherwise it is an order-preserving sub-sequence of the first such option's values; a value is in it exactly when it is declared there and some variant carries every entry of the selection with the option overridden by that value |
| `VariantSelector.FilterWeakerKeepsMore` | app/VariantSelector.tsx:48-59 | filtering with a weaker availability test keeps a super-sequence of what a stronger test keeps |
| `VariantSelector.FilterSameTest` | app/VariantSelector.tsx:48-59 | filtering with equivalent availability tests keeps the same values |
| `VariantSelector.AvailabilityIgnoresOwnValue` | app/VariantSelector.tsx:44-49 | the available values of an option are the same whatever value, if any, the selection already holds for that option |
| `VariantSelector.AvailabilityMonotone` | app/VariantSelector.tsx:52-57 | adding entries to the selection can only remove available values, never add or reorder them |
| `VariantSelector.ClickValue` | app/VariantSelector.tsx:94-106 | clicking an unavailable value leaves the selection unchanged and notifies nobody; clicking an available value sets it and notifies the parent with the resolved variant, if any |
| `VariantSelector.IsSelected` | app/VariantSelector.tsx:97 | a value is drawn as selected exactly when setting it again would leave the selection unchanged |
| `VariantSelector.ChangeMarksSelected` | app/VariantSelector.tsx:63-97 | after a change the clicked value is drawn as selected, and every other option's selected value is as before |
| `VariantSelector.CompletingAvailableValueResolves` | app/VariantSelector.tsx:48-75 | when each variant names every option at most once and the new selection covers all names the variants use, clicking an available value always notifies the parent |
| `SelectorExamples.CompleteSelectionResolves` | app/VariantSelector.tsx:67-71 | with all four Color × Size variants, {Color: Red, Size: M} resolves to the Red/M variant |
| `SelectorExamples.IncompleteAndUnstockedLookAlike` | app/VariantSelector.tsx:67-75 | {Color: Red} and {Color: Red, Size: L} both resolve to none, so an incomplete selection and a never-stocked combination are indistinguishable |
| `SelectorExamples.MissingCombinationDisablesValue` | app/VariantSelector.tsx:43-60 | with (Red, S) absent from the catalog and Red chosen, Size offers only M |

## Left out

- CartContext.GetTotalPrice: returns the exact integer number of cents. It does not model `parseFloat` of the decimal amount string, IEEE double rounding, or the `toFixed(2)` formatting. These are floating-point and string conversions.
- The currency code is carried but never compared. The total adds amounts of any currencies, as the code does.
- Quantities are unbounded integers. JavaScript numbers lose integer precision above 2^53, which no real cart reaches.
- React machinery is not modelled: `useState`, `useMemo`, the context provider, and the error `useCart` throws outside a provider. The components pass state explicitly instead.
- Animation, rendering and styling in app/CartIcon.tsx and app/VariantSelector.tsx are not modelled, and neither is the dropdown's open/closed toggle.
- JavaScript object-key quirks of the `Record` selection are not modelled, such as a `__proto__` option name. The selection is a plain map.
- app/ProductModal.tsx, app/ProductModalContainer.tsx, app/page.tsx, app/layout.tsx and app/components.tsx are not part of this model. They contain UI, DOM events, scroll locking and alerts, with no computation to state. None of them wires a resolved variant into `addItem`.
- env.ts, next.config.ts, lib/shopify/serverClient.tsx and lib/shopify/graphql/query.ts are not part of this model. They are configuration validation, the network client and GraphQL query text.
