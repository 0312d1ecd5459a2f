/** The refresh loop of the main routine over the stale items: each item is
    refreshed (`refresh_item_data`) and, when it then has a name, its offers
    are replaced by the ones the lookup returns. */
module RefreshPass {
  import opened CatalogTypes
  import opened Queries
  import opened ItemRefresh

  /** The items and offers tables together. */
  datatype Tables = Tables(items: seq<Item>, offers: seq<Offer>)

  /** Item it after `refresh_item_data` with the attribute lookup's answer. */
  function Refreshed(it: Item, attributesOf: Asin -> AttributesResponse, today: Date): Item
  {
    RefreshItem(it, attributesOf(it.asin), today).item
  }

  /** One iteration of the loop, for item x. */
  function RefreshOne(t: Tables, x: nat, attributesOf: Asin -> AttributesResponse,
                      offersOf: Asin -> seq<RawOffer>, today: Date): (r: Tables)
    requires x < |t.items|
    ensures |r.items| == |t.items|
  {
    var it := Refreshed(t.items[x], attributesOf, today);
    var items := t.items[x := it];
    if it.name.Some? then Tables(items, ReplaceOffers(t.offers, it, x, offersOf(it.asin)))
    else Tables(items, t.offers)
  }

  /** The tables after the loop has visited xs[..n]. */
  function RefreshAll(t: Tables, xs: seq<nat>, attributesOf: Asin -> AttributesResponse,
                      offersOf: Asin -> seq<RawOffer>, today: Date, n: nat): (r: Tables)
    requires n <= |xs| && forall i :: 0 <= i < |xs| ==> xs[i] < |t.items|
    ensures |r.items| == |t.items|
    decreases n
  {
    if n == 0 then t
    else RefreshOne(RefreshAll(t, xs, attributesOf, offersOf, today, n - 1), xs[n - 1], attributesOf, offersOf, today)
  }

  /** The offers item y holds after its turn: the fetched ones (none for an
      eBook) when the item now has a name, its old ones otherwise. */
  function OffersAfterTurn(it: Item, y: nat, offersOf: Asin -> seq<RawOffer>, before: seq<Offer>): seq<Offer>
  {
    if it.name.Some? then OffersToInsert(it, offersOf(it.asin), y) else before
  }

  /** One iteration touches only item x and item x's offers. */
  lemma RefreshOneAt(t: Tables, x: nat, attributesOf: Asin -> AttributesResponse,
                     offersOf: Asin -> seq<RawOffer>, today: Date, y: nat)
    requires x < |t.items| && y < |t.items|
    ensures RefreshOne(t, x, attributesOf, offersOf, today).items[y] ==
              if y == x then Refreshed(t.items[x], attributesOf, today) else t.items[y]
    ensures ItemOffers(RefreshOne(t, x, attributesOf, offersOf, today).offers, y) ==
              if y == x then OffersAfterTurn(Refreshed(t.items[x], attributesOf, today), y, offersOf, ItemOffers(t.offers, y))
              else ItemOffers(t.offers, y)
  {
    var it := Refreshed(t.items[x], attributesOf, today);
    if it.name.Some? {
      ReplaceOffersSpec(t.offers, it, x, offersOf(it.asin), y);
    }
  }

  /** Item y is among xs[..n]. */
  predicate Visited(xs: seq<nat>, n: nat, y: nat)
  {
    exists i :: 0 <= i < n && i < |xs| && xs[i] == y
  }

  /** With the items visited in increasing order (each once), after the loop
      a visited item is its refreshed self and holds the offers of its turn;
      an item not visited, and its offers, are as they were. */
  lemma {:induction false} RefreshAllAt(t: Tables, xs: seq<nat>, attributesOf: Asin -> AttributesResponse,
                                        offersOf: Asin -> seq<RawOffer>, today: Date, n: nat, y: nat)
    requires n <= |xs| && forall i :: 0 <= i < |xs| ==> xs[i] < |t.items|
    requires forall i, j :: 0 <= i < j < |xs| ==> xs[i] < xs[j]
    requires y < |t.items|
    ensures Visited(xs, n, y) ==>
              RefreshAll(t, xs, attributesOf, offersOf, today, n).items[y] == Refreshed(t.items[y], attributesOf, today)
              && ItemOffers(RefreshAll(t, xs, attributesOf, offersOf, today, n).offers, y) ==
                   OffersAfterTurn(Refreshed(t.items[y], attributesOf, today), y, offersOf, ItemOffers(t.offers, y))
    ensures !Visited(xs, n, y) ==>
              RefreshAll(t, xs, attributesOf, offersOf, today, n).items[y] == t.items[y]
              && ItemOffers(RefreshAll(t, xs, attributesOf, offersOf, today, n).offers, y) == ItemOffers(t.offers, y)
    decreases n
  {
    if n > 0 {
      var x := xs[n - 1];
      RefreshAllAt(t, xs, attributesOf, offersOf, today, n - 1, y);
      var before := RefreshAll(t, xs, attributesOf, offersOf, today, n - 1);
      RefreshOneAt(before, x, attributesOf, offersOf, today, y);
      VisitedStep(xs, n, y);
    }
  }

  /** Item xs[n - 1] is not among xs[..n - 1], and every other item is
      among xs[..n] exactly when it is among xs[..n - 1]. */
  lemma VisitedStep(xs: seq<nat>, n: nat, y: nat)
    requires 0 < n <= |xs|
    requires forall i, j :: 0 <= i < j < |xs| ==> xs[i] < xs[j]
    ensures y == xs[n - 1] ==> Visited(xs, n, y) && !Visited(xs, n - 1, y)
    ensures y != xs[n - 1] ==> (Visited(xs, n, y) <==> Visited(xs, n - 1, y))
  {
    if y == xs[n - 1] {
      assert xs[n - 1] == y;
    }
  }
}
