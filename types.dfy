/** Records of the catalog store and of the product API, as plain values.

    Tables are sequences: an Item's id is its index in the items table, a
    ParentItem's id its index in the parents table, and the offers table is
    kept in offer-id order, each Offer naming the Item that owns it. */
module CatalogTypes {

  datatype Option<T> = None | Some(value: T)

  /** Amazon Standard Identification Number of an item or of a parent item. */
  type Asin = string

  /** A calendar day; the model receives "today" as a parameter. */
  type Date = int

  /** A wall-clock instant; the model receives "now" as a parameter. */
  type Timestamp = int

  /** Starting value of the running minimum in best-offer selection: an offer
      qualifies only when its price is strictly below it. */
  const BEST_PRICE_SENTINEL: int := 999999999

  /** The offer source whose price stands in for a missing list price. */
  const BUYBOX: string := "Buybox"

  /** The product group for which no offers are ever fetched. */
  const EBOOKS: string := "eBooks"

  /** Python truthiness of a nullable integer column: neither null nor zero. */
  predicate IsTruthy(v: Option<int>)
  {
    v.Some? && v.value != 0
  }

  datatype Item = Item(
    asin: Asin,
    name: Option<string>,
    listPriceAmount: Option<int>,
    listPriceFormatted: Option<string>,
    productGroup: Option<string>,
    url: Option<string>,
    isCookbook: Option<bool>,
    dateLastChecked: Option<Date>,
    isOnWishlist: bool,
    parent: Option<nat>)

  /** Prices are integer minor currency units. The last five fields are the
      flags that the reconciliation passes compute. */
  datatype Offer = Offer(
    item: nat,
    condition: string,
    offerSource: string,
    priceAmount: int,
    priceFormatted: string,
    primeEligible: bool,
    availability: string,
    bestOffer: bool,
    savingsVsList: Option<int>,
    wishlistItemId: Option<nat>,
    cheapestOverall: bool,
    cheapestVsList: bool)

  datatype ImageSize = ImageSize(url: string, height: int, width: int)

  datatype Image = Image(item: nat, small: ImageSize, medium: ImageSize, large: ImageSize)

  /** One offer as the product API lists it. */
  datatype RawOffer = RawOffer(
    condition: string,
    offerSource: string,
    priceAmount: int,
    priceFormatted: string,
    primeEligible: bool,
    availability: string)

  /** The attribute lookup either answers an empty dictionary or a dictionary
      in which each key may be missing. */
  datatype Attributes = Attributes(
    listPriceAmount: Option<int>,
    listPriceFormatted: Option<string>,
    productGroup: Option<string>,
    title: Option<string>,
    url: Option<string>,
    isCookbook: Option<bool>)

  datatype AttributesResponse = NoAttributes | Found(attributes: Attributes)

  /** One non-empty size entry of the image lookup; each of its URL, Height
      and Width keys may be missing. */
  datatype RawImageSize = RawImageSize(url: Option<string>, height: Option<int>, width: Option<int>)

  /** The image lookup: each of SmallImage, MediumImage, LargeImage is None
      when it is missing or empty (falsy). */
  datatype ImageResponse = ImageResponse(
    small: Option<RawImageSize>,
    medium: Option<RawImageSize>,
    large: Option<RawImageSize>)

  /** A freshly inserted offer: no flag set, no savings recorded. */
  function NewOffer(raw: RawOffer, x: nat): (o: Offer)
    ensures o.item == x && o.priceAmount == raw.priceAmount && o.offerSource == raw.offerSource
    ensures !o.bestOffer && !o.cheapestOverall && !o.cheapestVsList && o.savingsVsList.None?
  {
    Offer(x, raw.condition, raw.offerSource, raw.priceAmount, raw.priceFormatted,
          raw.primeEligible, raw.availability, false, None, None, false, false)
  }
}
