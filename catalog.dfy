/** The catalog store and the refresh run over it. The store's tables are
    fields that the steps of the run update in place; each step is proved
    against the function of the old tables that specifies it. */
module Catalog {
  import opened CatalogTypes
  import opened Queries
  import opened BestOffer
  import opened BestOfferPass
  import opened Ranking
  import opened Images
  import opened FindOrCreate
  import opened ItemRefresh
  import opened RefreshPass

  /** How a run ends: completed, or stopped by the IndexError of
      `find_cheapest_overall_and_vs_list` when no offer is flagged best. */
  datatype Outcome = Completed | NoBestOffers

  /** What the store keeps true between steps: ASINs and parent ASINs are
      unique; an item's parent, an offer's item and wishlist item, and an
      image's item name existing rows; and every offer flagged best carries
      its savings. */
  predicate Consistent(items: seq<Item>, parents: seq<Asin>, offers: seq<Offer>, images: seq<Image>)
  {
    Distinct(Asins(items)) && Distinct(parents) && ParentsValid(items, parents)
    && (forall k :: 0 <= k < |offers| ==> offers[k].item < |items|)
    && WishlistIdsBelow(offers, |items|)
    && (forall j :: 0 <= j < |images| ==> images[j].item < |items|)
    && BestHaveSavings(offers)
  }

  /** Find-or-create of items keeps the store consistent when the parent
      given to new items exists. */
  lemma AddMissingConsistent(items: seq<Item>, parents: seq<Asin>, offers: seq<Offer>, images: seq<Image>,
                             asins: seq<Asin>, onWishlist: bool, parent: Option<nat>)
    requires Consistent(items, parents, offers, images)
    requires parent.Some? ==> parent.value < |parents|
    ensures Consistent(AddMissing(items, asins, onWishlist, parent, |asins|), parents, offers, images)
  {
    var r := AddMissing(items, asins, onWishlist, parent, |asins|);
    AddMissingDistinct(items, asins, onWishlist, parent, |asins|);
    AddMissingAddsFresh(items, asins, onWishlist, parent, |asins|);
    AddMissingExtends(items, asins, onWishlist, parent, |asins|);
    forall y | 0 <= y < |r| && r[y].parent.Some?
      ensures r[y].parent.value < |parents|
    {
      if y < |items| {
        assert r[y] == items[y];
      }
    }
  }

  /** Attaching parents keeps the store consistent. */
  lemma AttachParentsConsistent(items: seq<Item>, parents: seq<Asin>, offers: seq<Offer>, images: seq<Image>,
                                xs: seq<nat>, parentOf: Asin -> Asin)
    requires Consistent(items, parents, offers, images)
    requires forall t :: 0 <= t < |xs| ==> xs[t] < |items|
    ensures Consistent(AttachParents(items, parents, xs, parentOf, |xs|).items,
                       AttachParents(items, parents, xs, parentOf, |xs|).parents, offers, images)
    ensures Asins(AttachParents(items, parents, xs, parentOf, |xs|).items) == Asins(items)
  {
    var r := AttachParents(items, parents, xs, parentOf, |xs|);
    AttachParentsKeeps(items, parents, xs, parentOf, |xs|);
    assert Asins(r.items) == Asins(items) by {
      forall y | 0 <= y < |items|
        ensures r.items[y].asin == items[y].asin
      {
        assert r.items[y] == items[y].(parent := r.items[y].parent);
      }
    }
  }

  /** Adding variations keeps the store consistent. */
  lemma AddVariationsConsistent(items: seq<Item>, parents: seq<Asin>, offers: seq<Offer>, images: seq<Image>,
                                ps: seq<nat>, variationsOf: Asin -> seq<Asin>)
    requires Consistent(items, parents, offers, images)
    requires forall t :: 0 <= t < |ps| ==> ps[t] < |parents|
    ensures Consistent(AddVariations(items, parents, ps, variationsOf, |ps|), parents, offers, images)
  {
    AddVariationsValid(items, parents, ps, variationsOf, |ps|);
  }

  /** Refreshing an item keeps the store consistent: it changes neither the
      item's ASIN nor its parent. */
  lemma RefreshItemConsistent(items: seq<Item>, parents: seq<Asin>, offers: seq<Offer>, images: seq<Image>,
                              x: nat, it: Item)
    requires Consistent(items, parents, offers, images)
    requires x < |items| && it.asin == items[x].asin && it.parent == items[x].parent
    ensures Consistent(items[x := it], parents, offers, images)
    ensures Asins(items[x := it]) == Asins(items)
  {
    assert Asins(items[x := it]) == Asins(items);
  }

  /** Looks each ASIN up in the items table and creates an item for it
      when none has it; returns the new table. */
  method FindOrCreateItems(table: seq<Item>, asins: seq<Asin>, onWishlist: bool, parent: Option<nat>)
    returns (r: seq<Item>)
    ensures r == AddMissing(table, asins, onWishlist, parent, |asins|)
  {
    r := table;
    for n := 0 to |asins|
      invariant r == AddMissing(table, asins, onWishlist, parent, n)
    {
      if FirstIndex(Asins(r), asins[n]).None? {
        r := r + [FreshItem(asins[n], onWishlist, parent)];
      }
    }
  }

  /** The loop of `get_all_variations_under_parents` over the parents ps:
      every variation of each parent without an item gets one under that
      parent. */
  method AddVariationsLoop(table: seq<Item>, parents: seq<Asin>, ps: seq<nat>, variationsOf: Asin -> seq<Asin>)
    returns (r: seq<Item>)
    requires forall t :: 0 <= t < |ps| ==> ps[t] < |parents|
    ensures r == AddVariations(table, parents, ps, variationsOf, |ps|)
  {
    r := table;
    for n := 0 to |ps|
      invariant r == AddVariations(table, parents, ps, variationsOf, n)
    {
      var vs := GetVariations(parents[ps[n]], variationsOf);
      assert AddVariations(table, parents, ps, variationsOf, n + 1) == AddMissing(r, vs, false, Some(ps[n]), |vs|);
      r := FindOrCreateItems(r, vs, false, Some(ps[n]));
    }
  }

  /** r is offers with the best-offer flag of every offer of item x cleared. */
  predicate ClearedItem(offers: seq<Offer>, x: nat, r: seq<Offer>)
  {
    |r| == |offers|
    && forall k :: 0 <= k < |offers| ==> r[k] == if offers[k].item == x then offers[k].(bestOffer := false) else offers[k]
  }

  /** r is offers with the best-offer flag of every offer of a variant of p
      among items[..x] cleared. */
  predicate ClearedGroup(items: seq<Item>, offers: seq<Offer>, p: nat, x: nat, r: seq<Offer>)
  {
    |r| == |offers|
    && forall k :: 0 <= k < |offers| ==>
         r[k] == if offers[k].item < x && InGroup(items, offers[k].item, p) then offers[k].(bestOffer := false)
                 else offers[k]
  }

  /** Clearing flags changes nothing the selection reads. */
  lemma ClearedGroupSameData(items: seq<Item>, offers: seq<Offer>, p: nat, x: nat, r: seq<Offer>)
    requires ClearedGroup(items, offers, p, x, r)
    ensures SameData(r, offers)
  {
  }

  /** Clearing the offers of the next item extends the cleared group by it
      when it is a variant of p; otherwise the group reaches past it as is. */
  lemma ClearedGroupStep(items: seq<Item>, offers: seq<Offer>, p: nat, x: nat, r: seq<Offer>, r': seq<Offer>)
    requires x < |items| && ClearedGroup(items, offers, p, x, r)
    requires if InGroup(items, x, p) then ClearedItem(r, x, r') else r' == r
    ensures ClearedGroup(items, offers, p, x + 1, r')
  {
  }

  /** r is offers with the best-offer flag of every offer of item x among
      offers[..k] cleared. */
  predicate ClearedBefore(offers: seq<Offer>, x: nat, k: nat, r: seq<Offer>)
  {
    |r| == |offers|
    && forall j :: 0 <= j < |offers| ==>
         r[j] == if j < k && offers[j].item == x then offers[j].(bestOffer := false) else offers[j]
  }

  /** Clearing row k, when it is an offer of x, extends the cleared prefix
      by one row; the pool the scan has seen grows by row k's entry. */
  lemma ScanStep(offers: seq<Offer>, x: nat, k: nat, r: seq<Offer>, pool: seq<Entry>)
    requires k < |offers| && ClearedBefore(offers, x, k, r)
    ensures offers[k].item == x ==>
              ClearedBefore(offers, x, k + 1, r[k := r[k].(bestOffer := false)])
              && pool + OffersOfItem(offers, x, k + 1) == pool + OffersOfItem(offers, x, k) + [Entry(k, offers[k].priceAmount)]
    ensures offers[k].item != x ==>
              ClearedBefore(offers, x, k + 1, r) && OffersOfItem(offers, x, k + 1) == OffersOfItem(offers, x, k)
  {
    if offers[k].item == x {
      var e := Entry(k, offers[k].priceAmount);
      assert OffersOfItem(offers, x, k + 1) == OffersOfItem(offers, x, k) + [e];
      assert pool + OffersOfItem(offers, x, k) + [e] == pool + (OffersOfItem(offers, x, k) + [e]);
    }
  }

  /** The inner loop of `find_best_offer_per_wishlist_item` over item x's
      offers: each loses its best-offer flag, and one strictly cheaper than
      the offer held so far is held instead. The ghost pool is what the scan
      has seen before; on return the scan has also seen x's offers. */
  method ScanOffers(offers: seq<Offer>, x: nat, best: Option<nat>, bestPrice: int, ghost pool: seq<Entry>)
    returns (r: seq<Offer>, best': Option<nat>, bestPrice': int)
    requires best == PickedRow(pool) && bestPrice == PickBest(pool).price
    ensures ClearedItem(offers, x, r)
    ensures best' == PickedRow(pool + OffersOfItem(offers, x, |offers|))
    ensures bestPrice' == PickBest(pool + OffersOfItem(offers, x, |offers|)).price
  {
    r, best', bestPrice' := offers, best, bestPrice;
    ghost var seen := pool;
    assert pool + OffersOfItem(offers, x, 0) == pool;
    for k := 0 to |offers|
      invariant ClearedBefore(offers, x, k, r)
      invariant seen == pool + OffersOfItem(offers, x, k)
      invariant best' == PickedRow(seen) && bestPrice' == PickBest(seen).price
    {
      ScanStep(offers, x, k, r, pool);
      if offers[k].item == x {
        var e := Entry(k, offers[k].priceAmount);
        PickedRowSnoc(seen, e);
        seen := seen + [e];
        r := r[k := r[k].(bestOffer := false)];
        if offers[k].priceAmount < bestPrice' {
          best', bestPrice' := Some(k), offers[k].priceAmount;
        }
      }
    }
  }

  /** The loop over the variants of parent p, in id order: every offer of a
      variant loses its best-offer flag, and the scan ends holding the
      chosen offer and its price. */
  method SelectGroup(items: seq<Item>, offers: seq<Offer>, p: nat)
    returns (r: seq<Offer>, best: Option<nat>, bestPrice: int)
    ensures ClearedGroup(items, offers, p, |items|, r)
    ensures best == Chosen(items, offers, p)
    ensures bestPrice == PickBest(Pool(items, offers, p, |items|)).price
  {
    r, best, bestPrice := offers, None, BEST_PRICE_SENTINEL;
    ghost var seen: seq<Entry> := [];
    for x := 0 to |items|
      invariant ClearedGroup(items, offers, p, x, r)
      invariant seen == Pool(items, offers, p, x)
      invariant best == PickedRow(seen) && bestPrice == PickBest(seen).price
    {
      ghost var before := r;
      if items[x].parent == Some(p) {
        ClearedGroupSameData(items, offers, p, x, r);
        OffersOfItemSameData(r, offers, x, |r|);
        r, best, bestPrice := ScanOffers(r, x, best, bestPrice, seen);
        seen := seen + OffersOfItem(offers, x, |offers|);
      }
      ClearedGroupStep(items, offers, p, x, before, r);
    }
  }

  /** The cleared group with the chosen offer, if any, marked for w with
      its savings is the table the iteration for w specifies. */
  lemma MarkChosenIsSelectFor(items: seq<Item>, offers: seq<Offer>, w: nat, cleared: seq<Offer>, r: seq<Offer>,
                              comparison: int, price: int)
    requires w < |items| && Selects(items[w])
    requires ClearedGroup(items, offers, items[w].parent.value, |items|, cleared)
    requires comparison == ComparisonPrice(items[w].listPriceAmount, BuyboxPrice(offers, w))
    requires price == PickBest(Pool(items, offers, items[w].parent.value, |items|)).price
    requires Chosen(items, offers, items[w].parent.value).None? ==> r == cleared
    requires Chosen(items, offers, items[w].parent.value).Some? ==>
               Chosen(items, offers, items[w].parent.value).value < |cleared|
               && r == cleared[Chosen(items, offers, items[w].parent.value).value :=
                                 MarkBest(cleared[Chosen(items, offers, items[w].parent.value).value], comparison - price, w)]
    ensures r == SelectFor(items, offers, w)
  {
    var p := items[w].parent.value;
    var chosen := Chosen(items, offers, p);
    if chosen.Some? {
      ChosenFacts(items, offers, p);
    }
    forall k | 0 <= k < |offers|
      ensures r[k] == SelectFor(items, offers, w)[k]
    {
      SelectForAt(items, offers, w, k);
      if chosen == Some(k) {
        assert r[k] == MarkBest(cleared[k], comparison - price, w);
      } else {
        assert r[k] == cleared[k];
      }
      MarkChosenRow(items, offers[k], k, p, chosen, comparison, price, w, cleared[k], r[k]);
    }
  }

  /** The chosen offer is a row of the group and its price is the one the
      scan ends with. */
  lemma ChosenFacts(items: seq<Item>, offers: seq<Offer>, p: nat)
    requires Chosen(items, offers, p).Some?
    ensures Chosen(items, offers, p).value < |offers|
    ensures InGroup(items, offers[Chosen(items, offers, p).value].item, p)
    ensures offers[Chosen(items, offers, p).value].priceAmount == PickBest(Pool(items, offers, p, |items|)).price
  {
    ChosenIsCheapest(items, offers, p);
    ChosenPrice(items, offers, p);
  }

  /** Row k cleared and, when chosen, marked is the row the iteration
      specifies. */
  lemma MarkChosenRow(items: seq<Item>, o: Offer, k: nat, p: nat, chosen: Option<nat>, comparison: int, price: int,
                      w: nat, ck: Offer, rk: Offer)
    requires chosen == Some(k) ==> InGroup(items, o.item, p) && o.priceAmount == price
    requires ck == if InGroup(items, o.item, p) then o.(bestOffer := false) else o
    requires rk == if chosen == Some(k) then MarkBest(ck, comparison - price, w) else ck
    ensures rk == RowAfter(items, o, k, p, chosen, comparison, w)
  {
  }

  /** The pass keeps the store consistent: it only writes the selection
      fields, and a flagged offer always gets its savings. */
  lemma BestOffersConsistent(items: seq<Item>, parents: seq<Asin>, offers: seq<Offer>, images: seq<Image>)
    requires Consistent(items, parents, offers, images)
    ensures Consistent(items, parents, BestOffers(items, offers), images)
  {
    SelectUpToSettles(items, offers, |items|);
    BestOffersKeepSavings(items, offers);
    BestOffersKeepWishlistIds(items, offers);
    var r := BestOffers(items, offers);
    forall k | 0 <= k < |r|
      ensures r[k].item < |items|
    {
      assert WithoutSelection(r[k]) == WithoutSelection(offers[k]);
    }
  }

  /** The loop of `get_images_for_best_offer_items` over the best offers
      ids: the item of each gets an image row built from the lookup's
      answer, unless it has an image already. */
  method BackfillLoop(images: seq<Image>, items: seq<Item>, offers: seq<Offer>, ids: seq<nat>,
                      imagesOf: Asin -> ImageResponse)
    returns (r: seq<Image>)
    requires forall t :: 0 <= t < |ids| ==> ids[t] < |offers| && offers[ids[t]].item < |items|
    ensures r == Backfill(images, items, offers, ids, imagesOf, |ids|)
  {
    r := images;
    for n := 0 to |ids|
      invariant r == Backfill(images, items, offers, ids, imagesOf, n)
    {
      var x := offers[ids[n]].item;
      assert Backfill(images, items, offers, ids, imagesOf, n + 1) ==
             if HasImage(r, x) then r else r + [ImageRow(imagesOf(items[x].asin), x)];
      if !HasImage(r, x) {
        r := r + [ImageRow(imagesOf(items[x].asin), x)];
      }
    }
  }

  /** The image backfill keeps the store consistent: every new image names
      an existing item. */
  lemma BackfillConsistent(items: seq<Item>, parents: seq<Asin>, offers: seq<Offer>, images: seq<Image>,
                           ids: seq<nat>, imagesOf: Asin -> ImageResponse)
    requires Consistent(items, parents, offers, images)
    requires forall t :: 0 <= t < |ids| ==> ids[t] < |offers| && offers[ids[t]].item < |items|
    ensures Consistent(items, parents, offers, Backfill(images, items, offers, ids, imagesOf, |ids|))
  {
    var r := Backfill(images, items, offers, ids, imagesOf, |ids|);
    BackfillAdds(images, items, offers, ids, imagesOf, |ids|);
    BackfillKeeps(images, items, offers, ids, imagesOf, |ids|);
    forall j | 0 <= j < |r|
      ensures r[j].item < |items|
    {
      if j < |images| {
        assert r[j] == images[j];
      }
    }
  }

  /** Setting the two flags keeps the store consistent. */
  lemma CheapestFlagsConsistent(items: seq<Item>, parents: seq<Asin>, offers: seq<Offer>, images: seq<Image>)
    requires Consistent(items, parents, offers, images) && CheapestFlags(offers).Some?
    ensures Consistent(items, parents, CheapestFlags(offers).value, images)
    ensures forall k :: 0 <= k < |offers| ==> CheapestFlags(offers).value[k].bestOffer == offers[k].bestOffer
  {
    forall k | 0 <= k < |offers|
      ensures CheapestFlags(offers).value[k] ==
                offers[k].(cheapestVsList := CheapestFlags(offers).value[k].cheapestVsList,
                           cheapestOverall := CheapestFlags(offers).value[k].cheapestOverall)
    {
      CheapestFlagsSetsPicks(offers, k);
    }
  }

  /** The parent ids the run's parents query yields. The query filters
      parent rows on item columns without a join, so it yields every parent
      row (in id order) when some item is stale, and no row otherwise. */
  function AllParents(parents: seq<Asin>, anyStale: bool): seq<nat>
  {
    if anyStale then seq(|parents|, t requires 0 <= t < |parents| => t) else []
  }

  /** The refresh loop keeps the store consistent: each turn keeps the
      item's ASIN and parent, and the offers it inserts name that item and
      are not flagged best. */
  lemma {:induction false} RefreshAllConsistent(items: seq<Item>, parents: seq<Asin>, offers: seq<Offer>,
                                                images: seq<Image>, xs: seq<nat>,
                                                attributesOf: Asin -> AttributesResponse,
                                                offersOf: Asin -> seq<RawOffer>, today: Date, n: nat)
    requires Consistent(items, parents, offers, images)
    requires n <= |xs| && forall i :: 0 <= i < |xs| ==> xs[i] < |items|
    ensures Consistent(RefreshAll(Tables(items, offers), xs, attributesOf, offersOf, today, n).items, parents,
                       RefreshAll(Tables(items, offers), xs, attributesOf, offersOf, today, n).offers, images)
    decreases n
  {
    if n > 0 {
      RefreshAllConsistent(items, parents, offers, images, xs, attributesOf, offersOf, today, n - 1);
      var before := RefreshAll(Tables(items, offers), xs, attributesOf, offersOf, today, n - 1);
      var x := xs[n - 1];
      var it := RefreshPass.Refreshed(before.items[x], attributesOf, today);
      RefreshItemSpec(before.items[x], attributesOf(before.items[x].asin), today);
      RefreshItemConsistent(before.items, parents, before.offers, images, x, it);
      if it.name.Some? {
        ReplaceOffersKeeps(before.offers, it, x, offersOf(it.asin), |items|);
      }
    }
  }

  /** What the whole run leaves in the store, and how it ends. */
  datatype RunResult = RunResult(items: seq<Item>, parents: seq<Asin>, offers: seq<Offer>, images: seq<Image>,
                                 outcome: Outcome)

  /** The items and parents after the first three steps of the run: the
      wishlist is added, the items not checked today get parents, and every
      parent's variations get items. */
  function Prepared(items: seq<Item>, parents: seq<Asin>, wishlist: seq<Asin>, parentOf: Asin -> Asin,
                    variationsOf: Asin -> seq<Asin>, today: Date): Linked
  {
    var added := AddMissing(items, wishlist, true, None, |wishlist|);
    var linked := AttachParents(added, parents, StaleItems(added, today), parentOf, |StaleItems(added, today)|);
    var scanned := AllParents(linked.parents, |StaleItems(added, today)| > 0);
    Linked(AddVariations(linked.items, linked.parents, scanned, variationsOf, |scanned|),
           linked.parents)
  }

  /** The first three steps keep the store consistent. */
  lemma PreparedConsistent(items: seq<Item>, parents: seq<Asin>, offers: seq<Offer>, images: seq<Image>,
                           wishlist: seq<Asin>, parentOf: Asin -> Asin, variationsOf: Asin -> seq<Asin>, today: Date)
    requires Consistent(items, parents, offers, images)
    ensures Consistent(Prepared(items, parents, wishlist, parentOf, variationsOf, today).items,
                       Prepared(items, parents, wishlist, parentOf, variationsOf, today).parents, offers, images)
  {
    AddMissingConsistent(items, parents, offers, images, wishlist, true, None);
    var added := AddMissing(items, wishlist, true, None, |wishlist|);
    AttachParentsConsistent(added, parents, offers, images, StaleItems(added, today), parentOf);
    var linked := AttachParents(added, parents, StaleItems(added, today), parentOf, |StaleItems(added, today)|);
    AddVariationsConsistent(linked.items, linked.parents, offers, images,
                            AllParents(linked.parents, |StaleItems(added, today)| > 0), variationsOf);
  }

  /** The tables the whole run (`main`) leaves: the first three steps, the
      refresh loop over the items then not checked today, the best-offer
      pass, the image backfill over the best offers, and the two global
      flags, which fail when no offer is flagged best. */
  function Run(items: seq<Item>, parents: seq<Asin>, offers: seq<Offer>, images: seq<Image>,
               wishlist: seq<Asin>, parentOf: Asin -> Asin, variationsOf: Asin -> seq<Asin>,
               attributesOf: Asin -> AttributesResponse, offersOf: Asin -> seq<RawOffer>,
               imagesOf: Asin -> ImageResponse, today: Date): RunResult
    requires Consistent(items, parents, offers, images)
  {
    var prepared := Prepared(items, parents, wishlist, parentOf, variationsOf, today);
    PreparedConsistent(items, parents, offers, images, wishlist, parentOf, variationsOf, today);
    var stale := StaleItems(prepared.items, today);
    var refreshed := RefreshAll(Tables(prepared.items, offers), stale, attributesOf, offersOf, today, |stale|);
    RefreshAllConsistent(prepared.items, prepared.parents, offers, images, stale, attributesOf, offersOf, today, |stale|);
    var best := BestOffers(refreshed.items, refreshed.offers);
    BestOffersConsistent(refreshed.items, prepared.parents, refreshed.offers, images);
    var ids := BestOfferIds(best, |best|);
    var backfilled := Backfill(images, refreshed.items, best, ids, imagesOf, |ids|);
    match CheapestFlags(best)
    case None => RunResult(refreshed.items, prepared.parents, best, backfilled, NoBestOffers)
    case Some(flagged) => RunResult(refreshed.items, prepared.parents, flagged, backfilled, Completed)
  }

  class CatalogStore {
    /** Items, indexed by id. */
    var items: seq<Item>
    /** Parent items' ASINs, indexed by id. */
    var parents: seq<Asin>
    /** Offers, in offer-id order. */
    var offers: seq<Offer>
    var images: seq<Image>
    /** The last-refreshed rows. */
    var lastRefreshed: seq<Timestamp>

    predicate Valid()
      reads this
    {
      Consistent(items, parents, offers, images)
    }

    /** An empty store. */
    constructor()
      ensures Valid()
      ensures items == [] && parents == [] && offers == [] && images == [] && lastRefreshed == []
    {
      items, parents, offers, images, lastRefreshed := [], [], [], [], [];
    }

    /** `add_wishlist_items_to_db`: each wishlist ASIN without an item gets
        one, on the wishlist and without a parent. */
    method AddWishlistItems(asins: seq<Asin>)
      requires Valid()
      modifies this
      ensures Valid()
      ensures items == AddMissing(old(items), asins, true, None, |asins|)
      ensures parents == old(parents) && offers == old(offers) && images == old(images)
      ensures lastRefreshed == old(lastRefreshed)
    {
      AddMissingConsistent(items, parents, offers, images, asins, true, None);
      items := FindOrCreateItems(items, asins, true, None);
    }

    /** One item of `get_all_parents`: an item without a parent gets the
        parent whose ASIN `parentOf` gives for it, created when new. */
    method AttachParentTo(x: nat, parentOf: Asin -> Asin)
      requires x < |items|
      modifies this
      ensures Linked(items, parents) == AttachParent(old(items), old(parents), x, parentOf(old(items)[x].asin))
      ensures offers == old(offers) && images == old(images) && lastRefreshed == old(lastRefreshed)
    {
      if items[x].parent.None? {
        var parentAsin := parentOf(items[x].asin);
        var found := FirstIndex(parents, parentAsin);
        if found.Some? {
          items := items[x := items[x].(parent := Some(found.value))];
        } else {
          parents := parents + [parentAsin];
          items := items[x := items[x].(parent := Some(|parents| - 1))];
        }
      }
    }

    /** `get_all_parents` over the items xs. */
    method GetAllParents(xs: seq<nat>, parentOf: Asin -> Asin)
      requires Valid() && forall t :: 0 <= t < |xs| ==> xs[t] < |items|
      modifies this
      ensures offers == old(offers) && images == old(images) && lastRefreshed == old(lastRefreshed)
      ensures Linked(items, parents) == AttachParents(old(items), old(parents), xs, parentOf, |xs|)
      ensures Asins(items) == Asins(old(items))
      ensures Valid()
    {
      for n := 0 to |xs|
        invariant offers == old(offers) && images == old(images) && lastRefreshed == old(lastRefreshed)
        invariant Linked(items, parents) == AttachParents(old(items), old(parents), xs, parentOf, n)
      {
        AttachParentTo(xs[n], parentOf);
      }
      AttachParentsConsistent(old(items), old(parents), offers, images, xs, parentOf);
    }

    /** `get_all_variations_under_parents` over the parents ps. */
    method AddVariationsUnderParents(ps: seq<nat>, variationsOf: Asin -> seq<Asin>)
      requires Valid() && forall t :: 0 <= t < |ps| ==> ps[t] < |parents|
      modifies this
      ensures parents == old(parents) && offers == old(offers) && images == old(images)
      ensures lastRefreshed == old(lastRefreshed)
      ensures items == AddVariations(old(items), parents, ps, variationsOf, |ps|)
      ensures forall a :: a in Asins(old(items)) ==> a in Asins(items)
      ensures Valid()
    {
      AddVariationsConsistent(items, parents, offers, images, ps, variationsOf);
      AddVariationsExtends(items, parents, ps, variationsOf, |ps|);
      AsinsPrefix(items, AddVariations(items, parents, ps, variationsOf, |ps|));
      items := AddVariationsLoop(items, parents, ps, variationsOf);
    }

    /** `refresh_item_data` for item x with the attribute lookup's answer. */
    method RefreshItemData(x: nat, resp: AttributesResponse, today: Date) returns (ok: bool)
      requires Valid() && x < |items|
      modifies this
      ensures Valid()
      ensures ok == RefreshItem(old(items)[x], resp, today).ok
      ensures items == old(items)[x := RefreshItem(old(items)[x], resp, today).item]
      ensures Asins(items) == Asins(old(items))
      ensures parents == old(parents) && offers == old(offers) && images == old(images)
      ensures lastRefreshed == old(lastRefreshed)
    {
      RefreshItemSpec(items[x], resp, today);
      RefreshItemConsistent(items, parents, offers, images, x, RefreshItem(items[x], resp, today).item);
      var it := items[x];
      if it.name.None? {
        match resp
        case NoAttributes =>
          return false;
        case Found(a) =>
          items := items[x := it.(listPriceAmount := a.listPriceAmount, listPriceFormatted := a.listPriceFormatted,
                                  productGroup := a.productGroup, name := a.title, url := a.url,
                                  dateLastChecked := Some(today), isCookbook := a.isCookbook)];
      }
      ok := true;
    }

    /** Deletes every offer of item x, keeping the others in order. */
    method DeleteItemOffers(x: nat)
      modifies this
      ensures offers == OffersOfOthers(old(offers), x)
      ensures items == old(items) && parents == old(parents) && images == old(images)
      ensures lastRefreshed == old(lastRefreshed)
    {
      var kept: seq<Offer> := [];
      for k := 0 to |offers|
        invariant kept == OffersOfOthers(offers[..k], x)
      {
        assert offers[..k + 1][..k] == offers[..k];
        if offers[k].item != x {
          kept := kept + [offers[k]];
        }
      }
      assert offers[..|offers|] == offers;
      offers := kept;
    }

    /** Appends a new offer row for item x per fetched offer, in order. */
    method InsertOffers(x: nat, fetched: seq<RawOffer>)
      modifies this
      ensures offers == old(offers) + NewOffers(fetched, x)
      ensures items == old(items) && parents == old(parents) && images == old(images)
      ensures lastRefreshed == old(lastRefreshed)
    {
      for t := 0 to |fetched|
        invariant offers == old(offers) + NewOffers(fetched[..t], x)
        invariant items == old(items) && parents == old(parents) && images == old(images)
        invariant lastRefreshed == old(lastRefreshed)
      {
        assert NewOffers(fetched[..t + 1], x) == NewOffers(fetched[..t], x) + [NewOffer(fetched[t], x)];
        offers := offers + [NewOffer(fetched[t], x)];
      }
      assert fetched[..|fetched|] == fetched;
    }

    /** Deletes item x's offers and, unless it is an eBook, inserts the
        offers the lookup returns for it. */
    method ReplaceItemOffers(x: nat, offersOf: Asin -> seq<RawOffer>)
      requires Valid() && x < |items|
      modifies this
      ensures items == old(items) && parents == old(parents) && images == old(images)
      ensures lastRefreshed == old(lastRefreshed)
      ensures offers == ReplaceOffers(old(offers), items[x], x, offersOf(items[x].asin))
      ensures Valid()
    {
      DeleteItemOffers(x);
      if items[x].productGroup != Some(EBOOKS) {
        InsertOffers(x, offersOf(items[x].asin));
      }
      ReplaceOffersKeeps(old(offers), items[x], x, offersOf(items[x].asin), |items|);
    }

    /** One iteration of `find_best_offer_per_wishlist_item`, for item w:
        when w is an enriched wishlist item with a parent, every offer of a
        variant of that parent loses its best-offer flag and the chosen
        offer is marked for w with its savings against the comparison
        price. */
    method SelectBestFor(w: nat)
      requires w < |items|
      modifies this
      ensures items == old(items) && parents == old(parents) && images == old(images)
      ensures lastRefreshed == old(lastRefreshed)
      ensures offers == SelectFor(items, old(offers), w)
    {
      var it := items[w];
      if it.isOnWishlist && it.name.Some? {
        var buybox := GetBuyboxPrice(offers, w);
        if it.parent.Some? {
          var p := it.parent.value;
          var cleared, best, bestPrice := SelectGroup(items, offers, p);
          var r := cleared;
          if best.Some? {
            var comparison := 0;
            if IsTruthy(it.listPriceAmount) {
              comparison := it.listPriceAmount.value;
            } else if IsTruthy(buybox) {
              comparison := buybox.value;
            }
            ChosenPrice(items, offers, p);
            r := cleared[best.value := MarkBest(cleared[best.value], comparison - bestPrice, w)];
          }
          MarkChosenIsSelectFor(items, offers, w, cleared, r, ComparisonPrice(it.listPriceAmount, buybox), bestPrice);
          offers := r;
        }
      }
    }

    /** `find_best_offer_per_wishlist_item`: the iterations for every item,
        in id order. */
    method FindBestOfferPerWishlistItem()
      requires Valid()
      modifies this
      ensures offers == BestOffers(items, old(offers))
      ensures items == old(items) && parents == old(parents) && images == old(images)
      ensures lastRefreshed == old(lastRefreshed)
      ensures Valid()
    {
      for w := 0 to |items|
        invariant items == old(items) && parents == old(parents) && images == old(images)
        invariant lastRefreshed == old(lastRefreshed)
        invariant offers == SelectUpTo(items, old(offers), w)
      {
        SelectBestFor(w);
      }
      BestOffersConsistent(items, parents, old(offers), images);
    }

    /** `get_images_for_best_offer_items`: the item of every offer flagged
        best, in table order, gets an image unless it has one. */
    method GetImagesForBestOfferItems(imagesOf: Asin -> ImageResponse)
      requires Valid()
      modifies this
      ensures items == old(items) && parents == old(parents) && offers == old(offers)
      ensures lastRefreshed == old(lastRefreshed)
      ensures images == Backfill(old(images), items, offers, BestOfferIds(offers, |offers|), imagesOf,
                                 |BestOfferIds(offers, |offers|)|)
      ensures Valid()
    {
      var ids := BestOfferIds(offers, |offers|);
      BackfillConsistent(items, parents, offers, images, ids, imagesOf);
      images := BackfillLoop(images, items, offers, ids, imagesOf);
    }

    /** `find_cheapest_overall_and_vs_list` as it takes effect: the first
        best offer with the largest savings gets the cheapest-vs-list flag,
        the first with the largest price the cheapest-overall flag; with no
        best offer the run stops with an IndexError and nothing changes. */
    method FindCheapestOverallAndVsList() returns (outcome: Outcome)
      requires Valid()
      modifies this
      ensures items == old(items) && parents == old(parents) && images == old(images)
      ensures lastRefreshed == old(lastRefreshed)
      ensures outcome == NoBestOffers <==> CheapestFlags(old(offers)).None?
      ensures outcome == NoBestOffers ==> offers == old(offers)
      ensures outcome == Completed ==> offers == CheapestFlags(old(offers)).value
      ensures forall k :: 0 <= k < |offers| ==> offers[k].bestOffer == old(offers)[k].bestOffer
      ensures outcome == NoBestOffers <==> forall k :: 0 <= k < |offers| ==> !offers[k].bestOffer
      ensures Valid()
    {
      CheapestPicksAreFirstLargest(offers);
      if CheapestFlags(offers).None? {
        return NoBestOffers;
      }
      CheapestFlagsConsistent(items, parents, offers, images);
      offers := CheapestFlags(offers).value;
      outcome := Completed;
    }

    /** `update_last_refreshed`: deletes every last-refreshed row, returning
        how many there were, and stores the given time alone. */
    method UpdateLastRefreshed(now: Timestamp) returns (deleted: nat)
      modifies this
      ensures deleted == |old(lastRefreshed)| && lastRefreshed == [now]
      ensures items == old(items) && parents == old(parents) && offers == old(offers) && images == old(images)
    {
      deleted := |lastRefreshed|;
      lastRefreshed := [now];
    }

    /** The refresh loop of the run over the items xs: each is refreshed
        and, when it then has a name, gets its offers replaced. */
    /** One turn of the refresh loop: item x is refreshed and, when it then
        has a name, its offers are replaced. */
    method RefreshOneItem(x: nat, attributesOf: Asin -> AttributesResponse, offersOf: Asin -> seq<RawOffer>,
                          today: Date)
      requires Valid() && x < |items|
      modifies this
      ensures parents == old(parents) && images == old(images) && lastRefreshed == old(lastRefreshed)
      ensures Tables(items, offers) == RefreshOne(Tables(old(items), old(offers)), x, attributesOf, offersOf, today)
      ensures Asins(items) == Asins(old(items))
      ensures Valid()
    {
      var _ := RefreshItemData(x, attributesOf(items[x].asin), today);
      if items[x].name.Some? {
        ReplaceItemOffers(x, offersOf);
      }
    }

    method RefreshItems(xs: seq<nat>, attributesOf: Asin -> AttributesResponse, offersOf: Asin -> seq<RawOffer>,
                        today: Date)
      requires Valid() && forall t :: 0 <= t < |xs| ==> xs[t] < |items|
      modifies this
      ensures parents == old(parents) && images == old(images) && lastRefreshed == old(lastRefreshed)
      ensures Tables(items, offers) == RefreshAll(Tables(old(items), old(offers)), xs, attributesOf, offersOf, today, |xs|)
      ensures Asins(items) == Asins(old(items))
      ensures Valid()
    {
      for n := 0 to |xs|
        invariant Valid() && |items| == |old(items)|
        invariant parents == old(parents) && images == old(images) && lastRefreshed == old(lastRefreshed)
        invariant Tables(items, offers) == RefreshAll(Tables(old(items), old(offers)), xs, attributesOf, offersOf, today, n)
        invariant Asins(items) == Asins(old(items))
      {
        RefreshOneItem(xs[n], attributesOf, offersOf, today);
      }
    }

    /** The whole run (`main`): add the wishlist, attach parents to the
        stale items, add the variations of every parent, refresh the stale
        items and their offers, select the best offers, backfill images,
        set the two global flags, and record the time unless the flags step
        raised. Every wishlist ASIN has an item afterwards. */
    /** The first three steps of the run: the wishlist is added, the items
        not checked today get parents, and the parents query's variations get
        items. */
    method PrepareItems(wishlist: seq<Asin>, parentOf: Asin -> Asin, variationsOf: Asin -> seq<Asin>, today: Date)
      requires Valid()
      modifies this
      ensures Valid()
      ensures Linked(items, parents) == Prepared(old(items), old(parents), wishlist, parentOf, variationsOf, today)
      ensures offers == old(offers) && images == old(images) && lastRefreshed == old(lastRefreshed)
      ensures forall a :: a in wishlist ==> a in Asins(items)
    {
      AddWishlistItems(wishlist);
      AddMissingContainsAll(old(items), wishlist, true, None);
      var stale := StaleItems(items, today);
      GetAllParents(stale, parentOf);
      AddVariationsUnderParents(AllParents(parents, |stale| > 0), variationsOf);
    }

    method Refresh(wishlist: seq<Asin>, parentOf: Asin -> Asin, variationsOf: Asin -> seq<Asin>,
                   attributesOf: Asin -> AttributesResponse, offersOf: Asin -> seq<RawOffer>,
                   imagesOf: Asin -> ImageResponse, today: Date, now: Timestamp)
      returns (outcome: Outcome)
      requires Valid()
      modifies this
      ensures Valid()
      ensures forall a :: a in wishlist ==> a in Asins(items)
      ensures outcome == NoBestOffers <==> forall k :: 0 <= k < |offers| ==> !offers[k].bestOffer
      ensures lastRefreshed == if outcome == Completed then [now] else old(lastRefreshed)
      ensures RunResult(items, parents, offers, images, outcome) ==
                Run(old(items), old(parents), old(offers), old(images), wishlist, parentOf, variationsOf,
                    attributesOf, offersOf, imagesOf, today)
    {
      PrepareItems(wishlist, parentOf, variationsOf, today);
      ghost var prepared := items;
      RefreshItems(StaleItems(items, today), attributesOf, offersOf, today);
      assert Tables(items, offers) ==
             RefreshAll(Tables(prepared, old(offers)), StaleItems(prepared, today), attributesOf, offersOf, today,
                        |StaleItems(prepared, today)|);
      FindBestOfferPerWishlistItem();
      GetImagesForBestOfferItems(imagesOf);
      outcome := FindCheapestOverallAndVsList();
      if outcome == Completed {
        var _ := UpdateLastRefreshed(now);
      }
    }
  }
}
