/** The whole selection pass: the loop of `find_best_offer_per_wishlist_item`
    over every wishlist item in id order, and what it leaves in the offers
    table. */
module BestOfferPass {
  import opened CatalogTypes
  import opened Queries
  import opened BestOffer

  /** The offers table after the iterations for items[..n]. */
  function SelectUpTo(items: seq<Item>, offers: seq<Offer>, n: nat): (r: seq<Offer>)
    requires n <= |items|
    ensures |r| == |offers|
    decreases n
  {
    if n == 0 then offers
    else SelectFor(items, SelectUpTo(items, offers, n - 1), n - 1)
  }

  /** The offers table after the whole pass. */
  function BestOffers(items: seq<Item>, offers: seq<Offer>): (r: seq<Offer>)
    ensures |r| == |offers|
  {
    SelectUpTo(items, offers, |items|)
  }

  /** The last of items[..n] that the selection works on under parent p. */
  function LastSelector(items: seq<Item>, p: nat, n: nat): (r: Option<nat>)
    requires n <= |items|
    ensures r.Some? ==> r.value < n && Selects(items[r.value]) && items[r.value].parent == Some(p)
    ensures r.Some? ==> forall w :: r.value < w < n && Selects(items[w]) ==> items[w].parent != Some(p)
    ensures r.None? ==> forall w :: 0 <= w < n && Selects(items[w]) ==> items[w].parent != Some(p)
    decreases n
  {
    if n == 0 then None
    else if Selects(items[n - 1]) && items[n - 1].parent == Some(p) then Some(n - 1)
    else LastSelector(items, p, n - 1)
  }

  /** An offer with the three fields that the selection writes erased. */
  function WithoutSelection(o: Offer): Offer
  {
    o.(bestOffer := false, savingsVsList := None, wishlistItemId := None)
  }

  /** Two offers tables that differ at most in the fields the selection writes. */
  predicate SameData(a: seq<Offer>, b: seq<Offer>)
  {
    |a| == |b| && forall k :: 0 <= k < |a| ==> WithoutSelection(a[k]) == WithoutSelection(b[k])
  }

  /** What the pass over items[..n] leaves in row k of the offers table: an
      offer of a variant of parent p that some selected wishlist item has is
      treated as the iteration of the LAST such wishlist item treats it; any
      other offer is as it was. */
  function Settled(items: seq<Item>, offers: seq<Offer>, n: nat, k: nat): Offer
    requires n <= |items| && k < |offers|
  {
    var x := offers[k].item;
    if x >= |items| || items[x].parent.None? then offers[k]
    else
      var p := items[x].parent.value;
      match LastSelector(items, p, n)
      case None => offers[k]
      case Some(w) =>
        RowAfter(items, offers[k], k, p, Chosen(items, offers, p),
                 ComparisonPrice(items[w].listPriceAmount, BuyboxPrice(offers, w)), w)
  }

  lemma MarkBestSameData(a: Offer, b: Offer, savings: int, w: nat)
    requires WithoutSelection(a) == WithoutSelection(b)
    ensures MarkBest(a, savings, w) == MarkBest(b, savings, w)
    ensures a.(bestOffer := false) == b.(bestOffer := false) <==> a.savingsVsList == b.savingsVsList && a.wishlistItemId == b.wishlistItemId
  {
    assert a.item == WithoutSelection(a).item && b.item == WithoutSelection(b).item;
  }

  lemma {:induction false} OffersOfItemSameData(a: seq<Offer>, b: seq<Offer>, x: nat, n: nat)
    requires SameData(a, b) && n <= |a|
    ensures OffersOfItem(a, x, n) == OffersOfItem(b, x, n)
    decreases n
  {
    if n > 0 {
      OffersOfItemSameData(a, b, x, n - 1);
      assert WithoutSelection(a[n - 1]).item == WithoutSelection(b[n - 1]).item;
      assert WithoutSelection(a[n - 1]).priceAmount == WithoutSelection(b[n - 1]).priceAmount;
    }
  }

  lemma {:induction false} PoolSameData(items: seq<Item>, a: seq<Offer>, b: seq<Offer>, p: nat, x: nat)
    requires SameData(a, b) && x <= |items|
    ensures Pool(items, a, p, x) == Pool(items, b, p, x)
    decreases x
  {
    if x > 0 {
      PoolSameData(items, a, b, p, x - 1);
      OffersOfItemSameData(a, b, x - 1, |a|);
    }
  }

  /** The chosen offer depends only on the data the selection does not write. */
  lemma ChosenSameData(items: seq<Item>, a: seq<Offer>, b: seq<Offer>, p: nat)
    requires SameData(a, b)
    ensures Chosen(items, a, p) == Chosen(items, b, p)
  {
    PoolSameData(items, a, b, p, |items|);
  }

  lemma {:induction false} BuyboxSameData(a: seq<Offer>, b: seq<Offer>, x: nat)
    requires SameData(a, b)
    ensures BuyboxPrice(a, x) == BuyboxPrice(b, x)
    decreases |a|
  {
    if a != [] {
      var n := |a| - 1;
      assert SameData(a[..n], b[..n]);
      BuyboxSameData(a[..n], b[..n], x);
      assert WithoutSelection(a[n]).item == WithoutSelection(b[n]).item;
      assert WithoutSelection(a[n]).offerSource == WithoutSelection(b[n]).offerSource;
      assert WithoutSelection(a[n]).priceAmount == WithoutSelection(b[n]).priceAmount;
    }
  }

  /** The selection never writes a field other than its three. */
  lemma SelectForKeepsData(items: seq<Item>, a: seq<Offer>, w: nat, k: nat)
    requires w < |items| && k < |a|
    ensures WithoutSelection(SelectFor(items, a, w)[k]) == WithoutSelection(a[k])
  {
    SelectForAt(items, a, w, k);
  }

  /** An item that does not select leaves every group's last selector as it was. */
  lemma LastSelectorSkips(items: seq<Item>, p: nat, n: nat)
    requires 0 < n <= |items|
    requires !Selects(items[n - 1]) || items[n - 1].parent != Some(p)
    ensures LastSelector(items, p, n) == LastSelector(items, p, n - 1)
  {
  }

  /** The step for a row outside the group of item n - 1. */
  lemma SettledStepOutside(items: seq<Item>, offers: seq<Offer>, n: nat, k: nat)
    requires 0 < n <= |items| && k < |offers|
    requires !Selects(items[n - 1]) || !InGroup(items, offers[k].item, items[n - 1].parent.value)
    ensures Settled(items, offers, n, k) == Settled(items, offers, n - 1, k)
  {
    var x := offers[k].item;
    if x < |items| && items[x].parent.Some? {
      LastSelectorSkips(items, items[x].parent.value, n);
    }
  }

  /** A row of group p once some selector of p has run is the row as the
      iteration of the last one treats it. */
  lemma SettledSelected(items: seq<Item>, offers: seq<Offer>, n: nat, k: nat, p: nat, w: nat)
    requires n <= |items| && k < |offers| && InGroup(items, offers[k].item, p)
    requires LastSelector(items, p, n) == Some(w)
    ensures Settled(items, offers, n, k) ==
              RowAfter(items, offers[k], k, p, Chosen(items, offers, p),
                       ComparisonPrice(items[w].listPriceAmount, BuyboxPrice(offers, w)), w)
  {
  }

  /** Inside the group a row is marked when chosen and cleared otherwise. */
  lemma RowAfterForms(items: seq<Item>, o: Offer, k: nat, p: nat, chosen: Option<nat>, comparison: int, w: nat)
    requires InGroup(items, o.item, p)
    ensures chosen == Some(k) ==> RowAfter(items, o, k, p, chosen, comparison, w) == MarkBest(o, comparison - o.priceAmount, w)
    ensures chosen != Some(k) ==> RowAfter(items, o, k, p, chosen, comparison, w) == o.(bestOffer := false)
  {
  }

  /** Item n - 1, when it selects, is the last selector of its own group. */
  lemma LastSelectorAt(items: seq<Item>, n: nat)
    requires 0 < n <= |items| && Selects(items[n - 1])
    ensures LastSelector(items, items[n - 1].parent.value, n) == Some(n - 1)
  {
  }

  /** A row of the group that is not chosen keeps its savings and wishlist
      item id through the pass: it is at most unflagged. */
  lemma SettledUnchosen(items: seq<Item>, offers: seq<Offer>, n: nat, k: nat, p: nat)
    requires n <= |items| && k < |offers| && InGroup(items, offers[k].item, p)
    requires Chosen(items, offers, p) != Some(k)
    ensures Settled(items, offers, n, k).savingsVsList == offers[k].savingsVsList
    ensures Settled(items, offers, n, k).wishlistItemId == offers[k].wishlistItemId
  {
  }

  /** Treating the previous form of a row of the group gives what treating
      the original row gives. */
  lemma RowAfterPrevious(items: seq<Item>, offers: seq<Offer>, n: nat, k: nat, p: nat,
                         ak: Offer, chosen: Option<nat>, comparison: int, w: nat)
    requires 0 < n <= |items| && k < |offers| && InGroup(items, offers[k].item, p)
    requires WithoutSelection(ak) == WithoutSelection(offers[k])
    requires ak == Settled(items, offers, n - 1, k)
    requires chosen == Chosen(items, offers, p)
    ensures RowAfter(items, ak, k, p, chosen, comparison, w) == RowAfter(items, offers[k], k, p, chosen, comparison, w)
  {
    assert ak.item == offers[k].item && ak.priceAmount == offers[k].priceAmount by {
      assert WithoutSelection(ak).item == WithoutSelection(offers[k]).item;
      assert WithoutSelection(ak).priceAmount == WithoutSelection(offers[k]).priceAmount;
    }
    RowAfterForms(items, ak, k, p, chosen, comparison, w);
    RowAfterForms(items, offers[k], k, p, chosen, comparison, w);
    if chosen == Some(k) {
      MarkBestSameData(ak, offers[k], comparison - offers[k].priceAmount, w);
    } else {
      SettledUnchosen(items, offers, n - 1, k, p);
      MarkBestSameData(ak, offers[k], 0, w);
    }
  }

  /** The step for a row inside the group of item n - 1. */
  lemma SettledStepInside(items: seq<Item>, offers: seq<Offer>, a: seq<Offer>, n: nat, k: nat)
    requires 0 < n <= |items| && k < |offers| && |a| == |offers|
    requires Selects(items[n - 1]) && InGroup(items, offers[k].item, items[n - 1].parent.value)
    requires WithoutSelection(a[k]) == WithoutSelection(offers[k])
    requires a[k] == Settled(items, offers, n - 1, k)
    requires Chosen(items, a, items[n - 1].parent.value) == Chosen(items, offers, items[n - 1].parent.value)
    requires BuyboxPrice(a, n - 1) == BuyboxPrice(offers, n - 1)
    ensures SelectFor(items, a, n - 1)[k] == Settled(items, offers, n, k)
  {
    var w := n - 1;
    var q := items[w].parent.value;
    var c := ComparisonPrice(items[w].listPriceAmount, BuyboxPrice(offers, w));
    SelectForAt(items, a, w, k);
    LastSelectorAt(items, n);
    SettledSelected(items, offers, n, k, q, w);
    RowAfterPrevious(items, offers, n, k, q, a[k], Chosen(items, offers, q), c, w);
  }

  /** One more iteration, row by row, given the rows after the previous ones. */
  lemma SettledStep(items: seq<Item>, offers: seq<Offer>, a: seq<Offer>, n: nat, k: nat)
    requires 0 < n <= |items| && k < |offers|
    requires SameData(a, offers)
    requires a[k] == Settled(items, offers, n - 1, k)
    ensures SelectFor(items, a, n - 1)[k] == Settled(items, offers, n, k)
    ensures WithoutSelection(SelectFor(items, a, n - 1)[k]) == WithoutSelection(offers[k])
  {
    var w := n - 1;
    SelectForKeepsData(items, a, w, k);
    if Selects(items[w]) && InGroup(items, offers[k].item, items[w].parent.value) {
      ChosenSameData(items, a, offers, items[w].parent.value);
      BuyboxSameData(a, offers, w);
      SettledStepInside(items, offers, a, n, k);
    } else {
      SettledStepOutside(items, offers, n, k);
      SelectForAt(items, a, w, k);
      assert WithoutSelection(a[k]).item == WithoutSelection(offers[k]).item;
    }
  }

  /** The pass over items[..n] leaves every row as Settled describes, and
      changes nothing but the fields the selection writes. */
  lemma {:induction false} SelectUpToSettles(items: seq<Item>, offers: seq<Offer>, n: nat)
    requires n <= |items|
    ensures SameData(SelectUpTo(items, offers, n), offers)
    ensures forall k :: 0 <= k < |offers| ==> SelectUpTo(items, offers, n)[k] == Settled(items, offers, n, k)
    decreases n
  {
    if n > 0 {
      SelectUpToSettles(items, offers, n - 1);
      var a := SelectUpTo(items, offers, n - 1);
      forall k | 0 <= k < |offers|
        ensures SelectUpTo(items, offers, n)[k] == Settled(items, offers, n, k)
        ensures WithoutSelection(SelectUpTo(items, offers, n)[k]) == WithoutSelection(offers[k])
      {
        SettledStep(items, offers, a, n, k);
      }
    }
  }

  /** Row k after the whole pass. */
  lemma BestOffersAt(items: seq<Item>, offers: seq<Offer>, k: nat)
    requires k < |offers|
    ensures BestOffers(items, offers)[k] == Settled(items, offers, |items|, k)
  {
    SelectUpToSettles(items, offers, |items|);
  }

  /** Treating a row a second time the same way changes nothing. */
  lemma RowAfterTwice(items: seq<Item>, o: Offer, k: nat, p: nat, chosen: Option<nat>, comparison: int, w: nat)
    ensures RowAfter(items, RowAfter(items, o, k, p, chosen, comparison, w), k, p, chosen, comparison, w)
            == RowAfter(items, o, k, p, chosen, comparison, w)
  {
  }

  /** Row k of a table the pass has already settled is settled again as it is. */
  lemma SettledAgain(items: seq<Item>, offers: seq<Offer>, once: seq<Offer>, k: nat)
    requires k < |offers| && SameData(once, offers)
    requires once[k] == Settled(items, offers, |items|, k)
    ensures Settled(items, once, |items|, k) == once[k]
  {
    var x := offers[k].item;
    assert once[k].item == x by {
      assert WithoutSelection(once[k]).item == WithoutSelection(offers[k]).item;
    }
    if x < |items| && items[x].parent.Some? {
      var p := items[x].parent.value;
      match LastSelector(items, p, |items|)
      case None =>
      case Some(w) =>
        ChosenSameData(items, once, offers, p);
        BuyboxSameData(once, offers, w);
        RowAfterTwice(items, offers[k], k, p, Chosen(items, offers, p),
                      ComparisonPrice(items[w].listPriceAmount, BuyboxPrice(offers, w)), w);
    }
  }

  /** Running the pass twice on unchanged data gives the same table as
      running it once: the same offers flagged, with the same savings and
      wishlist item ids. */
  lemma BestOffersIdempotent(items: seq<Item>, offers: seq<Offer>)
    ensures BestOffers(items, BestOffers(items, offers)) == BestOffers(items, offers)
  {
    var once := BestOffers(items, offers);
    SelectUpToSettles(items, offers, |items|);
    SelectUpToSettles(items, once, |items|);
    forall k | 0 <= k < |offers|
      ensures BestOffers(items, once)[k] == once[k]
    {
      SettledAgain(items, offers, once, k);
    }
  }

  /** After the pass, an offer is unchanged unless its item is a variant of a
      parent that some selected wishlist item has: offers of items without a
      parent, and offers of groups no enriched wishlist item belongs to, are
      untouched. */
  lemma BestOffersFrame(items: seq<Item>, offers: seq<Offer>, k: nat)
    requires k < |offers|
    requires forall w :: 0 <= w < |items| && Selects(items[w]) ==>
               !InGroup(items, offers[k].item, items[w].parent.value)
    ensures BestOffers(items, offers)[k] == offers[k]
  {
    SelectUpToSettles(items, offers, |items|);
  }

  /** After the pass, in the group of a parent that some selected wishlist
      item has, exactly the chosen offer is flagged; it carries the savings
      and the id of the LAST selected wishlist item of that parent. */
  lemma BestOffersInGroup(items: seq<Item>, offers: seq<Offer>, p: nat, w: nat, k: nat)
    requires k < |offers| && InGroup(items, offers[k].item, p)
    requires LastSelector(items, p, |items|) == Some(w)
    ensures BestOffers(items, offers)[k].bestOffer <==> Chosen(items, offers, p) == Some(k)
    ensures Chosen(items, offers, p) == Some(k) ==>
              BestOffers(items, offers)[k].wishlistItemId == Some(w)
              && BestOffers(items, offers)[k].savingsVsList ==
                   Some(ComparisonPrice(items[w].listPriceAmount, BuyboxPrice(offers, w)) - offers[k].priceAmount)
  {
    BestOffersAt(items, offers, k);
    SettledInGroup(items, offers, p, w, k);
  }

  /** Settled row k of a group whose last selector is w. */
  lemma SettledInGroup(items: seq<Item>, offers: seq<Offer>, p: nat, w: nat, k: nat)
    requires k < |offers| && InGroup(items, offers[k].item, p)
    requires LastSelector(items, p, |items|) == Some(w)
    ensures Settled(items, offers, |items|, k).bestOffer <==> Chosen(items, offers, p) == Some(k)
    ensures Chosen(items, offers, p) == Some(k) ==>
              Settled(items, offers, |items|, k).wishlistItemId == Some(w)
              && Settled(items, offers, |items|, k).savingsVsList ==
                   Some(ComparisonPrice(items[w].listPriceAmount, BuyboxPrice(offers, w)) - offers[k].priceAmount)
  {
    SettledSelected(items, offers, |items|, k, p, w);
    RowAfterForms(items, offers[k], k, p, Chosen(items, offers, p),
                  ComparisonPrice(items[w].listPriceAmount, BuyboxPrice(offers, w)), w);
  }

  /** Every offer flagged best carries savings: the pass keeps this. */
  predicate BestHaveSavings(offers: seq<Offer>)
  {
    forall k :: 0 <= k < |offers| && offers[k].bestOffer ==> offers[k].savingsVsList.Some?
  }

  /** Every wishlist item id recorded on an offer is below m. */
  predicate WishlistIdsBelow(offers: seq<Offer>, m: nat)
  {
    forall k :: 0 <= k < |offers| && offers[k].wishlistItemId.Some? ==> offers[k].wishlistItemId.value < m
  }

  /** The pass records only ids of items of the table. */
  lemma BestOffersKeepWishlistIds(items: seq<Item>, offers: seq<Offer>)
    requires WishlistIdsBelow(offers, |items|)
    ensures WishlistIdsBelow(BestOffers(items, offers), |items|)
  {
    SelectUpToSettles(items, offers, |items|);
  }

  lemma BestOffersKeepSavings(items: seq<Item>, offers: seq<Offer>)
    requires BestHaveSavings(offers)
    ensures BestHaveSavings(BestOffers(items, offers))
  {
    SelectUpToSettles(items, offers, |items|);
  }
}
