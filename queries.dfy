/** The store queries that the refresh reads through, written as functions
    over the tables, and the two price lookups of best-offer selection. */
module Queries {
  import opened CatalogTypes

  /** No value occurs twice (the uniqueness of an ASIN column). */
  predicate Distinct<T(==)>(s: seq<T>)
  {
    forall i, j :: 0 <= i < j < |s| ==> s[i] != s[j]
  }

  /** `filter_by(column=v).first()`: the lowest index holding v, if any. */
  function FirstIndex<T(==)>(s: seq<T>, v: T): (r: Option<nat>)
    ensures r.Some? ==> r.value < |s| && s[r.value] == v
    ensures r.Some? ==> forall i :: 0 <= i < r.value ==> s[i] != v
    ensures r.None? <==> v !in s
  {
    if s == [] then None
    else
      match FirstIndex(s[..|s| - 1], v)
      case Some(i) => Some(i)
      case None => if s[|s| - 1] == v then Some(|s| - 1) else None
  }

  /** The ASIN column of the items table. */
  function Asins(items: seq<Item>): (r: seq<Asin>)
    ensures |r| == |items|
    ensures forall x :: 0 <= x < |items| ==> r[x] == items[x].asin
  {
    seq(|items|, x requires 0 <= x < |items| => items[x].asin)
  }

  /** An item not checked today: its check date is null or another day. */
  predicate IsStale(it: Item, today: Date)
  {
    it.dateLastChecked.None? || it.dateLastChecked.value != today
  }

  /** Ids, in id order, of the items not checked today. */
  function StaleItems(items: seq<Item>, today: Date): (r: seq<nat>)
    ensures forall t :: 0 <= t < |r| ==> r[t] < |items| && IsStale(items[r[t]], today)
    ensures forall t, u :: 0 <= t < u < |r| ==> r[t] < r[u]
  {
    if items == [] then []
    else
      var n := |items| - 1;
      StaleItems(items[..n], today) + (if IsStale(items[n], today) then [n] else [])
  }

  /** Every item not checked today is listed. */
  lemma {:induction false} StaleItemsComplete(items: seq<Item>, today: Date, x: nat)
    requires x < |items| && IsStale(items[x], today)
    ensures x in StaleItems(items, today)
    decreases |items|
  {
    var n := |items| - 1;
    if x < n {
      assert items[..n][x] == items[x];
      StaleItemsComplete(items[..n], today, x);
    }
  }

  /** An offer of item x whose source is the Buybox. */
  predicate IsBuybox(o: Offer, x: nat)
  {
    o.item == x && o.offerSource == BUYBOX
  }

  /** The price of the last Buybox offer of item x in table order, or null. */
  function BuyboxPrice(offers: seq<Offer>, x: nat): Option<int>
  {
    if offers == [] then None
    else if IsBuybox(offers[|offers| - 1], x) then Some(offers[|offers| - 1].priceAmount)
    else BuyboxPrice(offers[..|offers| - 1], x)
  }

  /** The Buybox price is the price of the LAST Buybox offer of the item, and
      null exactly when the item has no Buybox offer. */
  lemma {:induction false} BuyboxPriceIsLastMatch(offers: seq<Offer>, x: nat)
    ensures BuyboxPrice(offers, x).None? <==> forall k :: 0 <= k < |offers| ==> !IsBuybox(offers[k], x)
    ensures BuyboxPrice(offers, x).Some? ==>
              exists k :: 0 <= k < |offers| && IsBuybox(offers[k], x)
                          && BuyboxPrice(offers, x).value == offers[k].priceAmount
                          && forall j :: k < j < |offers| ==> !IsBuybox(offers[j], x)
    decreases |offers|
  {
    if offers != [] {
      var n := |offers| - 1;
      BuyboxPriceIsLastMatch(offers[..n], x);
      if IsBuybox(offers[n], x) {
        assert IsBuybox(offers[n], x) && BuyboxPrice(offers, x).value == offers[n].priceAmount;
      } else {
        assert forall k :: 0 <= k < n ==> offers[..n][k] == offers[k];
        if BuyboxPrice(offers[..n], x).Some? {
          var k :| 0 <= k < n && IsBuybox(offers[..n][k], x)
                   && BuyboxPrice(offers[..n], x).value == offers[..n][k].priceAmount
                   && forall j :: k < j < n ==> !IsBuybox(offers[..n][j], x);
          assert IsBuybox(offers[k], x) && forall j :: k < j < |offers| ==> !IsBuybox(offers[j], x);
        }
      }
    }
  }

  /** `get_buybox_price`: scan the item's offers, overwriting the answer at
      every Buybox offer. */
  method GetBuyboxPrice(offers: seq<Offer>, x: nat) returns (price: Option<int>)
    ensures price == BuyboxPrice(offers, x)
  {
    price := None;
    for k := 0 to |offers|
      invariant price == BuyboxPrice(offers[..k], x)
    {
      assert offers[..k + 1][..k] == offers[..k];
      if offers[k].item == x && offers[k].offerSource == BUYBOX {
        price := Some(offers[k].priceAmount);
      }
    }
    assert offers[..|offers|] == offers;
  }

  /** The price a best offer is compared with: the list price when it is
      truthy, else the Buybox price when that is truthy, else 0. */
  function ComparisonPrice(listPrice: Option<int>, buybox: Option<int>): (r: int)
    ensures IsTruthy(listPrice) ==> r == listPrice.value
    ensures !IsTruthy(listPrice) && IsTruthy(buybox) ==> r == buybox.value
    ensures r == 0 <==> !IsTruthy(listPrice) && !IsTruthy(buybox)
  {
    if IsTruthy(listPrice) then listPrice.value
    else if IsTruthy(buybox) then buybox.value
    else 0
  }

  /** The offers of item x, in table order (`item.offers.all()`). */
  function ItemOffers(offers: seq<Offer>, x: nat): (r: seq<Offer>)
    ensures |r| <= |offers|
    ensures forall t :: 0 <= t < |r| ==> r[t].item == x
  {
    if offers == [] then []
    else
      var n := |offers| - 1;
      ItemOffers(offers[..n], x) + (if offers[n].item == x then [offers[n]] else [])
  }

  lemma {:induction false} ItemOffersAppend(a: seq<Offer>, b: seq<Offer>, x: nat)
    ensures ItemOffers(a + b, x) == ItemOffers(a, x) + ItemOffers(b, x)
    decreases |b|
  {
    if b == [] {
      assert a + b == a;
    } else {
      var n := |b| - 1;
      assert (a + b)[..|a + b| - 1] == a + b[..n];
      ItemOffersAppend(a, b[..n], x);
    }
  }
}
