/** Best-offer selection for one wishlist item (`find_best_offer_per_wishlist_item`):
    flatten the offers of every variant under the item's parent, clear their
    best-offer flags, and mark the first offer with the strictly smallest price
    below the sentinel, recording its savings against the comparison price. */
module BestOffer {
  import opened CatalogTypes
  import opened Queries

  /** Item x is a variant of parent p. */
  predicate InGroup(items: seq<Item>, x: nat, p: nat)
  {
    x < |items| && items[x].parent == Some(p)
  }

  /** A wishlist item the selection works on: on the wishlist, enriched
      (name not null) and attached to a parent. */
  predicate Selects(it: Item)
  {
    it.isOnWishlist && it.name.Some? && it.parent.Some?
  }

  /** An offer of the ranking pool: its row in the offers table and its price. */
  datatype Entry = Entry(row: nat, price: int)

  /** The offers among offers[..n] that belong to item x, in table order
      (`item.offers`). */
  function OffersOfItem(offers: seq<Offer>, x: nat, n: nat): seq<Entry>
    requires n <= |offers|
    decreases n
  {
    if n == 0 then []
    else
      OffersOfItem(offers, x, n - 1)
      + (if offers[n - 1].item == x then [Entry(n - 1, offers[n - 1].priceAmount)] else [])
  }

  /** Entry e stands for a row of the table and carries that row's price. */
  predicate Names(offers: seq<Offer>, e: Entry)
  {
    e.row < |offers| && e.price == offers[e.row].priceAmount
  }

  /** Row k is listed in the pool. */
  predicate Pooled(pool: seq<Entry>, k: nat)
  {
    exists t :: 0 <= t < |pool| && pool[t].row == k
  }

  /** Each listed entry names an offer of x among offers[..n]. */
  lemma {:induction false} OffersOfItemRows(offers: seq<Offer>, x: nat, n: nat, t: nat)
    requires n <= |offers| && t < |OffersOfItem(offers, x, n)|
    ensures OffersOfItem(offers, x, n)[t].row < n && Names(offers, OffersOfItem(offers, x, n)[t])
    ensures offers[OffersOfItem(offers, x, n)[t].row].item == x
    decreases n
  {
    if t < |OffersOfItem(offers, x, n - 1)| {
      OffersOfItemRows(offers, x, n - 1, t);
    }
  }

  /** Every offer of item x among offers[..n] is listed. */
  lemma {:induction false} OffersOfItemComplete(offers: seq<Offer>, x: nat, n: nat, k: nat)
    requires n <= |offers| && k < n && offers[k].item == x
    ensures Pooled(OffersOfItem(offers, x, n), k)
    decreases n
  {
    var before := OffersOfItem(offers, x, n - 1);
    if k < n - 1 {
      OffersOfItemComplete(offers, x, n - 1, k);
      var t :| 0 <= t < |before| && before[t].row == k;
      assert OffersOfItem(offers, x, n)[t] == before[t];
    } else {
      assert OffersOfItem(offers, x, n)[|before|].row == k;
    }
  }

  /** The ranking pool: the offers of the variants of p among items[..x],
      items in id order and each item's offers in table order. */
  function Pool(items: seq<Item>, offers: seq<Offer>, p: nat, x: nat): seq<Entry>
    requires x <= |items|
    decreases x
  {
    if x == 0 then []
    else
      Pool(items, offers, p, x - 1)
      + (if InGroup(items, x - 1, p) then OffersOfItem(offers, x - 1, |offers|) else [])
  }

  /** Each pooled entry names an offer of a variant of p among items[..x]. */
  lemma {:induction false} PoolRows(items: seq<Item>, offers: seq<Offer>, p: nat, x: nat, t: nat)
    requires x <= |items| && t < |Pool(items, offers, p, x)|
    ensures Names(offers, Pool(items, offers, p, x)[t])
    ensures offers[Pool(items, offers, p, x)[t].row].item < x
    ensures InGroup(items, offers[Pool(items, offers, p, x)[t].row].item, p)
    decreases x
  {
    var before := Pool(items, offers, p, x - 1);
    if t < |before| {
      PoolRows(items, offers, p, x - 1, t);
    } else {
      OffersOfItemRows(offers, x - 1, |offers|, t - |before|);
    }
  }

  /** Every offer of a variant of p among items[..x] is in the pool. */
  lemma {:induction false} PoolComplete(items: seq<Item>, offers: seq<Offer>, p: nat, x: nat, k: nat)
    requires x <= |items| && k < |offers| && offers[k].item < x && InGroup(items, offers[k].item, p)
    ensures Pooled(Pool(items, offers, p, x), k)
    decreases x
  {
    var before := Pool(items, offers, p, x - 1);
    if offers[k].item < x - 1 {
      PoolComplete(items, offers, p, x - 1, k);
      var t :| 0 <= t < |before| && before[t].row == k;
      assert Pool(items, offers, p, x)[t] == before[t];
    } else {
      OffersOfItemComplete(offers, x - 1, |offers|, k);
      var own := OffersOfItem(offers, x - 1, |offers|);
      var t :| 0 <= t < |own| && own[t].row == k;
      assert Pool(items, offers, p, x)[|before| + t] == own[t];
    }
  }

  /** A row of the table is in the whole pool of p exactly when its item is
      a variant of p. */
  lemma PooledIff(items: seq<Item>, offers: seq<Offer>, p: nat, k: nat)
    requires k < |offers|
    ensures Pooled(Pool(items, offers, p, |items|), k) <==> InGroup(items, offers[k].item, p)
  {
    var pool := Pool(items, offers, p, |items|);
    if Pooled(pool, k) {
      var t :| 0 <= t < |pool| && pool[t].row == k;
      PoolRows(items, offers, p, |items|, t);
    }
    if InGroup(items, offers[k].item, p) {
      PoolComplete(items, offers, p, |items|, k);
    }
  }

  /** The running minimum after a prefix of the pool: the position of the
      entry it holds, and its price (the sentinel while none is held). */
  datatype Pick = Pick(pos: Option<nat>, price: int)

  /** The scan of the pool: an offer replaces the one held when its price is
      strictly lower. */
  function PickBest(pool: seq<Entry>): (r: Pick)
    ensures r.pos.Some? ==> r.pos.value < |pool| && r.price == pool[r.pos.value].price
    ensures r.pos.None? ==> r.price == BEST_PRICE_SENTINEL
    decreases |pool|
  {
    if pool == [] then Pick(None, BEST_PRICE_SENTINEL)
    else
      var n := |pool| - 1;
      var before := PickBest(pool[..n]);
      if pool[n].price < before.price then Pick(Some(n), pool[n].price)
      else before
  }

  /** The scan finds nothing exactly when no pooled price is below the
      sentinel; otherwise it holds a cheapest pooled offer, and every offer
      before it in the pool is strictly dearer (ties keep the earlier one). */
  lemma {:induction false} PickBestIsFirstCheapest(pool: seq<Entry>)
    ensures PickBest(pool).pos.None? <==> forall t :: 0 <= t < |pool| ==> pool[t].price >= BEST_PRICE_SENTINEL
    ensures forall t :: 0 <= t < |pool| ==> PickBest(pool).price <= pool[t].price
    ensures PickBest(pool).pos.Some? ==>
              PickBest(pool).price < BEST_PRICE_SENTINEL
              && forall t :: 0 <= t < PickBest(pool).pos.value ==> PickBest(pool).price < pool[t].price
    decreases |pool|
  {
    if pool != [] {
      var n := |pool| - 1;
      PickBestIsFirstCheapest(pool[..n]);
      assert forall t :: 0 <= t < n ==> pool[..n][t] == pool[t];
    }
  }

  /** The row of the offer the scan of the pool holds at its end. */
  function PickedRow(pool: seq<Entry>): Option<nat>
  {
    var pick := PickBest(pool);
    if pick.pos.None? then None else Some(pool[pick.pos.value].row)
  }

  /** One more pooled offer: it is taken when strictly cheaper than the one
      held. */
  lemma PickedRowSnoc(pool: seq<Entry>, e: Entry)
    ensures PickBest(pool + [e]).price ==
              if e.price < PickBest(pool).price then e.price else PickBest(pool).price
    ensures PickedRow(pool + [e]) ==
              if e.price < PickBest(pool).price then Some(e.row) else PickedRow(pool)
  {
    assert (pool + [e])[..|pool|] == pool;
  }

  /** The offer chosen for the variants of p, as a row of the table. */
  function Chosen(items: seq<Item>, offers: seq<Offer>, p: nat): Option<nat>
  {
    PickedRow(Pool(items, offers, p, |items|))
  }

  /** Marks an offer as the best one found for wishlist item w. */
  function MarkBest(o: Offer, savings: int, w: nat): Offer
  {
    o.(bestOffer := true, savingsVsList := Some(savings), wishlistItemId := Some(w))
  }

  /** What one iteration of the selection loop, for wishlist item w, makes
      of row k (offer o) when the group is that of parent p: an offer of the
      group loses its best-offer flag, except the chosen one, which is marked
      for w with its savings against the comparison price. */
  function RowAfter(items: seq<Item>, o: Offer, k: nat, p: nat, chosen: Option<nat>, comparison: int, w: nat): Offer
  {
    if !InGroup(items, o.item, p) then o
    else if chosen == Some(k) then MarkBest(o, comparison - o.priceAmount, w)
    else o.(bestOffer := false)
  }

  /** One iteration of the selection loop, for wishlist item w: every offer
      of a variant of w's parent loses its best-offer flag, except the chosen
      one, which is marked for w. */
  function SelectFor(items: seq<Item>, offers: seq<Offer>, w: nat): (r: seq<Offer>)
    requires w < |items|
    ensures |r| == |offers|
  {
    var it := items[w];
    if !Selects(it) then offers
    else
      var p := it.parent.value;
      var chosen := Chosen(items, offers, p);
      var comparison := ComparisonPrice(it.listPriceAmount, BuyboxPrice(offers, w));
      seq(|offers|, k requires 0 <= k < |offers| => RowAfter(items, offers[k], k, p, chosen, comparison, w))
  }

  /** Row k after the iteration for w. */
  lemma SelectForAt(items: seq<Item>, offers: seq<Offer>, w: nat, k: nat)
    requires w < |items| && k < |offers|
    ensures SelectFor(items, offers, w)[k] ==
              if !Selects(items[w]) then offers[k]
              else RowAfter(items, offers[k], k, items[w].parent.value, Chosen(items, offers, items[w].parent.value),
                            ComparisonPrice(items[w].listPriceAmount, BuyboxPrice(offers, w)), w)
  {
  }

  /** Chosen exists exactly when some offer of the group is priced below the
      sentinel, and it is then an offer of the group, priced below the
      sentinel and no dearer than any offer of the group. */
  lemma ChosenIsCheapest(items: seq<Item>, offers: seq<Offer>, p: nat)
    ensures Chosen(items, offers, p).None? <==>
              forall k :: 0 <= k < |offers| && InGroup(items, offers[k].item, p) ==>
                offers[k].priceAmount >= BEST_PRICE_SENTINEL
    ensures Chosen(items, offers, p).Some? ==>
              Chosen(items, offers, p).value < |offers|
              && InGroup(items, offers[Chosen(items, offers, p).value].item, p)
              && offers[Chosen(items, offers, p).value].priceAmount < BEST_PRICE_SENTINEL
              && forall k :: 0 <= k < |offers| && InGroup(items, offers[k].item, p) ==>
                   offers[Chosen(items, offers, p).value].priceAmount <= offers[k].priceAmount
  {
    var pool := Pool(items, offers, p, |items|);
    PickBestIsFirstCheapest(pool);
    forall k | 0 <= k < |offers| && InGroup(items, offers[k].item, p)
      ensures exists t :: 0 <= t < |pool| && pool[t].row == k && pool[t].price == offers[k].priceAmount
    {
      PoolComplete(items, offers, p, |items|, k);
      var t :| 0 <= t < |pool| && pool[t].row == k;
      PoolRows(items, offers, p, |items|, t);
    }
    if PickBest(pool).pos.Some? {
      PoolRows(items, offers, p, |items|, PickBest(pool).pos.value);
    }
  }

  /** The price the scan ends with is that of the chosen offer. */
  lemma ChosenPrice(items: seq<Item>, offers: seq<Offer>, p: nat)
    requires Chosen(items, offers, p).Some?
    ensures Chosen(items, offers, p).value < |offers|
    ensures offers[Chosen(items, offers, p).value].priceAmount == PickBest(Pool(items, offers, p, |items|)).price
  {
    PoolRows(items, offers, p, |items|, PickBest(Pool(items, offers, p, |items|)).pos.value);
  }

  /** Position t of the pool holds an offer strictly cheaper than every
      offer before it. */
  predicate IsFirstCheapestAt(pool: seq<Entry>, t: int)
  {
    0 <= t < |pool| && forall u :: 0 <= u < t ==> pool[t].price < pool[u].price
  }

  /** Among equally cheap offers, Chosen is the first in items-then-offers
      order: every offer before it in the pool is strictly dearer. */
  lemma ChosenIsFirst(items: seq<Item>, offers: seq<Offer>, p: nat)
    requires Chosen(items, offers, p).Some?
    ensures exists t :: IsFirstCheapestAt(Pool(items, offers, p, |items|), t)
                        && Pool(items, offers, p, |items|)[t].row == Chosen(items, offers, p).value
  {
    var pool := Pool(items, offers, p, |items|);
    PickBestIsFirstCheapest(pool);
    var t := PickBest(pool).pos.value;
    assert IsFirstCheapestAt(pool, t);
  }

  /** After the iteration for a selected wishlist item w, the group of its
      parent holds exactly one best offer when some offer of the group is
      priced below the sentinel, and none otherwise; every offer outside the
      group is untouched. */
  lemma SelectForFlagsOneOffer(items: seq<Item>, offers: seq<Offer>, w: nat)
    requires w < |items| && Selects(items[w])
    ensures forall k :: 0 <= k < |offers| && !InGroup(items, offers[k].item, items[w].parent.value) ==>
              SelectFor(items, offers, w)[k] == offers[k]
    ensures forall k :: 0 <= k < |offers| && InGroup(items, offers[k].item, items[w].parent.value) ==>
              (SelectFor(items, offers, w)[k].bestOffer <==> Chosen(items, offers, items[w].parent.value) == Some(k))
    ensures (exists k :: 0 <= k < |offers| && InGroup(items, offers[k].item, items[w].parent.value)
                         && SelectFor(items, offers, w)[k].bestOffer)
            <==> (exists k :: 0 <= k < |offers| && InGroup(items, offers[k].item, items[w].parent.value)
                              && offers[k].priceAmount < BEST_PRICE_SENTINEL)
  {
    var p := items[w].parent.value;
    var r := SelectFor(items, offers, w);
    var chosen := Chosen(items, offers, p);
    forall k | 0 <= k < |offers|
      ensures !InGroup(items, offers[k].item, p) ==> r[k] == offers[k]
      ensures InGroup(items, offers[k].item, p) ==> (r[k].bestOffer <==> chosen == Some(k))
    {
      SelectForAt(items, offers, w, k);
    }
    ChosenIsCheapest(items, offers, p);
    if chosen.Some? {
      var b := chosen.value;
      assert InGroup(items, offers[b].item, p) && r[b].bestOffer;
    }
  }

  /** The offer that the iteration for w marks is the chosen one; its
      savings are the comparison price minus its price (negative when the
      offer costs more), and it names w as its wishlist item. */
  lemma SelectForRecordsSavings(items: seq<Item>, offers: seq<Offer>, w: nat, b: nat)
    requires w < |items| && Selects(items[w])
    requires Chosen(items, offers, items[w].parent.value) == Some(b)
    ensures b < |SelectFor(items, offers, w)|
    ensures SelectFor(items, offers, w)[b].bestOffer
    ensures SelectFor(items, offers, w)[b].savingsVsList ==
              Some(ComparisonPrice(items[w].listPriceAmount, BuyboxPrice(offers, w)) - offers[b].priceAmount)
    ensures SelectFor(items, offers, w)[b].wishlistItemId == Some(w)
  {
    ChosenIsCheapest(items, offers, items[w].parent.value);
    SelectForAt(items, offers, w, b);
  }
}
