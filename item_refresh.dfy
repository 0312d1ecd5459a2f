/** The per-item refresh of the main loop: attribute backfill
    (`refresh_item_data`) and, for an item with a name, replacing its offers
    with the ones the lookup returns, except for eBooks. */
module ItemRefresh {
  import opened CatalogTypes
  import opened Queries

  /** The result of `refresh_item_data` and the item it leaves. */
  datatype Refreshed = Refreshed(ok: bool, item: Item)

  /** An item without a name takes its attributes from the lookup and is
      dated today; an empty answer makes the call fail; an item with a name
      is not looked at. */
  function RefreshItem(it: Item, resp: AttributesResponse, today: Date): Refreshed
  {
    if it.name.Some? then Refreshed(true, it)
    else
      match resp
      case NoAttributes => Refreshed(false, it)
      case Found(a) =>
        Refreshed(true, it.(listPriceAmount := a.listPriceAmount, listPriceFormatted := a.listPriceFormatted,
                            productGroup := a.productGroup, name := a.title, url := a.url,
                            dateLastChecked := Some(today), isCookbook := a.isCookbook))
  }

  /** The call fails exactly for an unnamed item with an empty answer, and
      then changes nothing; the check date moves only when the attributes are
      filled in, and then to today; the ASIN, the wishlist flag and the
      parent never change. */
  lemma RefreshItemSpec(it: Item, resp: AttributesResponse, today: Date)
    ensures !RefreshItem(it, resp, today).ok <==> it.name.None? && resp.NoAttributes?
    ensures !RefreshItem(it, resp, today).ok ==> RefreshItem(it, resp, today).item == it
    ensures it.name.Some? ==> RefreshItem(it, resp, today).item == it
    ensures RefreshItem(it, resp, today).item.dateLastChecked != it.dateLastChecked ==>
              it.name.None? && resp.Found? && RefreshItem(it, resp, today).item.dateLastChecked == Some(today)
    ensures it.name.None? && resp.Found? ==>
              RefreshItem(it, resp, today).item.dateLastChecked == Some(today)
              && RefreshItem(it, resp, today).item.name == resp.attributes.title
              && RefreshItem(it, resp, today).item.productGroup == resp.attributes.productGroup
              && RefreshItem(it, resp, today).item.listPriceAmount == resp.attributes.listPriceAmount
    ensures var r := RefreshItem(it, resp, today).item;
            r.asin == it.asin && r.isOnWishlist == it.isOnWishlist && r.parent == it.parent
  {
  }

  /** The offers table without the offers of item x, in order. */
  function OffersOfOthers(offers: seq<Offer>, x: nat): (r: seq<Offer>)
    ensures |r| <= |offers|
    ensures forall t :: 0 <= t < |r| ==> r[t].item != x && r[t] in offers
  {
    if offers == [] then []
    else
      var n := |offers| - 1;
      OffersOfOthers(offers[..n], x) + (if offers[n].item != x then [offers[n]] else [])
  }

  /** New offer rows for item x from the lookup's offers: one per fetched
      offer, in order, each naming x, carrying the fetched offer's data, and
      with no flag, no savings and no wishlist item. */
  function NewOffers(fetched: seq<RawOffer>, x: nat): (r: seq<Offer>)
    ensures |r| == |fetched|
    ensures forall t :: 0 <= t < |r| ==>
              r[t].item == x && r[t].condition == fetched[t].condition && r[t].offerSource == fetched[t].offerSource
              && r[t].priceAmount == fetched[t].priceAmount && r[t].priceFormatted == fetched[t].priceFormatted
              && r[t].primeEligible == fetched[t].primeEligible && r[t].availability == fetched[t].availability
    ensures forall t :: 0 <= t < |r| ==>
              !r[t].bestOffer && r[t].savingsVsList.None? && r[t].wishlistItemId.None?
              && !r[t].cheapestOverall && !r[t].cheapestVsList
  {
    seq(|fetched|, t requires 0 <= t < |fetched| => NewOffer(fetched[t], x))
  }

  /** The offers the lookup would give an item: none for an eBook. */
  function OffersToInsert(it: Item, fetched: seq<RawOffer>, x: nat): seq<Offer>
  {
    if it.productGroup == Some(EBOOKS) then [] else NewOffers(fetched, x)
  }

  /** The offers table after item x's offers are replaced. */
  function ReplaceOffers(offers: seq<Offer>, it: Item, x: nat, fetched: seq<RawOffer>): seq<Offer>
  {
    OffersOfOthers(offers, x) + OffersToInsert(it, fetched, x)
  }

  lemma {:induction false} OffersOfOthersItemOffers(offers: seq<Offer>, x: nat, y: nat)
    ensures ItemOffers(OffersOfOthers(offers, x), y) == if y == x then [] else ItemOffers(offers, y)
    decreases |offers|
  {
    if offers != [] {
      var n := |offers| - 1;
      OffersOfOthersItemOffers(offers[..n], x, y);
      ItemOffersAppend(OffersOfOthers(offers[..n], x), if offers[n].item != x then [offers[n]] else [], y);
      assert ItemOffers([offers[n]], y) == if offers[n].item == y then [offers[n]] else [] by {
        assert [offers[n]][..0] == [];
      }
    }
  }

  lemma {:induction false} NewOffersItemOffers(fetched: seq<RawOffer>, x: nat, y: nat)
    ensures ItemOffers(NewOffers(fetched, x), y) == if y == x then NewOffers(fetched, x) else []
    decreases |fetched|
  {
    if fetched != [] {
      var n := |fetched| - 1;
      NewOffersItemOffers(fetched[..n], x, y);
      assert NewOffers(fetched, x)[..n] == NewOffers(fetched[..n], x);
    }
  }

  /** After the replacement item x has exactly the offers fetched for it
      (none for an eBook), in the lookup's order, and every other item's
      offers are as they were. */
  lemma ReplaceOffersSpec(offers: seq<Offer>, it: Item, x: nat, fetched: seq<RawOffer>, y: nat)
    ensures ItemOffers(ReplaceOffers(offers, it, x, fetched), y) ==
              if y == x then OffersToInsert(it, fetched, x) else ItemOffers(offers, y)
  {
    ItemOffersAppend(OffersOfOthers(offers, x), OffersToInsert(it, fetched, x), y);
    OffersOfOthersItemOffers(offers, x, y);
    if it.productGroup != Some(EBOOKS) {
      NewOffersItemOffers(fetched, x, y);
    }
  }

  /** The new rows are not flagged best, so every offer flagged best still
      carries savings, and every row still names an existing item. */
  lemma ReplaceOffersKeeps(offers: seq<Offer>, it: Item, x: nat, fetched: seq<RawOffer>, m: nat)
    requires forall k :: 0 <= k < |offers| ==> offers[k].item < m
    requires x < m
    ensures forall k :: 0 <= k < |ReplaceOffers(offers, it, x, fetched)| ==> ReplaceOffers(offers, it, x, fetched)[k].item < m
    ensures (forall k :: 0 <= k < |offers| && offers[k].bestOffer ==> offers[k].savingsVsList.Some?) ==>
              forall k :: 0 <= k < |ReplaceOffers(offers, it, x, fetched)| && ReplaceOffers(offers, it, x, fetched)[k].bestOffer ==>
                ReplaceOffers(offers, it, x, fetched)[k].savingsVsList.Some?
    ensures (forall k :: 0 <= k < |offers| && offers[k].wishlistItemId.Some? ==> offers[k].wishlistItemId.value < m) ==>
              forall k :: 0 <= k < |ReplaceOffers(offers, it, x, fetched)| && ReplaceOffers(offers, it, x, fetched)[k].wishlistItemId.Some? ==>
                ReplaceOffers(offers, it, x, fetched)[k].wishlistItemId.value < m
  {
  }
}
