/** Record shapes shared by the cart and the variant selector (types/shopify.tsx). */
module ShopifyTypes {
  import opened Wrappers

  /** A price. `amount` is a decimal string in the storefront; here it is an
      integer number of minor units (cents), so that sums are exact. */
  datatype Money = Money(amount: int, currencyCode: string)

  datatype Image = Image(url: string, altText: Option<string>)

  /** One (option name, chosen value) pair of a variant or a cart line. */
  datatype SelectedOption = SelectedOption(name: string, value: string)
}
