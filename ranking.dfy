/** The global flags of `find_cheapest_overall_and_vs_list`, as the definition
    that takes effect (the later of the two in the module) computes them: the
    best offers in table order are sorted stably in DESCENDING order, once by
    savings and once by price, and element 0 of each sort gets its flag. */
module Ranking {
  import opened CatalogTypes
  import opened BestOfferPass

  /** Table indices, in table order, of the offers flagged best
      (`Offer.query.filter(best_offer == True).all()`). */
  function BestOfferIds(offers: seq<Offer>, n: nat): (r: seq<nat>)
    requires n <= |offers|
    ensures forall t :: 0 <= t < |r| ==> r[t] < n && offers[r[t]].bestOffer
    ensures forall t, u :: 0 <= t < u < |r| ==> r[t] < r[u]
    decreases n
  {
    if n == 0 then []
    else BestOfferIds(offers, n - 1) + (if offers[n - 1].bestOffer then [n - 1] else [])
  }

  /** Every best offer among offers[..n] is listed. */
  lemma {:induction false} BestOfferIdsComplete(offers: seq<Offer>, n: nat, k: nat)
    requires n <= |offers| && k < n && offers[k].bestOffer
    ensures k in BestOfferIds(offers, n)
    decreases n
  {
    if k < n - 1 {
      BestOfferIdsComplete(offers, n - 1, k);
    }
  }

  /** The position a stable descending sort puts first: the first position
      holding the largest key. */
  function FirstMax(keys: seq<int>): (t: nat)
    requires |keys| > 0
    ensures t < |keys|
    ensures forall i :: 0 <= i < |keys| ==> keys[i] <= keys[t]
    ensures forall i :: 0 <= i < t ==> keys[i] < keys[t]
    decreases |keys|
  {
    if |keys| == 1 then 0
    else
      var n := |keys| - 1;
      var t := FirstMax(keys[..n]);
      assert forall i :: 0 <= i < n ==> keys[..n][i] == keys[i];
      if keys[n] > keys[t] then n else t
  }

  /** The sort key of an offer's savings; the savings of a best offer are
      never null in a valid store, so the 0 is never used there. */
  function SavingsKey(o: Offer): int
  {
    if o.savingsVsList.Some? then o.savingsVsList.value else 0
  }

  function SavingsKeys(offers: seq<Offer>, ids: seq<nat>): (r: seq<int>)
    requires forall t :: 0 <= t < |ids| ==> ids[t] < |offers|
    ensures |r| == |ids| && forall t :: 0 <= t < |ids| ==> r[t] == SavingsKey(offers[ids[t]])
  {
    seq(|ids|, t requires 0 <= t < |ids| => SavingsKey(offers[ids[t]]))
  }

  function PriceKeys(offers: seq<Offer>, ids: seq<nat>): (r: seq<int>)
    requires forall t :: 0 <= t < |ids| ==> ids[t] < |offers|
    ensures |r| == |ids| && forall t :: 0 <= t < |ids| ==> r[t] == offers[ids[t]].priceAmount
  {
    seq(|ids|, t requires 0 <= t < |ids| => offers[ids[t]].priceAmount)
  }

  /** Offer k is the first best offer, in table order, with the largest key
      among the best offers. */
  predicate FirstLargestBest(offers: seq<Offer>, key: Offer -> int, k: nat)
  {
    k < |offers| && offers[k].bestOffer
    && (forall j :: 0 <= j < |offers| && offers[j].bestOffer ==> key(offers[j]) <= key(offers[k]))
    && (forall j :: 0 <= j < k && offers[j].bestOffer ==> key(offers[j]) < key(offers[k]))
  }

  function Price(o: Offer): int
  {
    o.priceAmount
  }

  /** The two offers that receive the flags: (cheapest vs list, cheapest
      overall), or None when no offer is flagged best, where element [0] of
      an empty sort raises an IndexError. */
  function CheapestPicks(offers: seq<Offer>): (r: Option<(nat, nat)>)
    ensures r.Some? ==> r.value.0 < |offers| && r.value.1 < |offers|
  {
    var ids := BestOfferIds(offers, |offers|);
    if ids == [] then None
    else Some((ids[FirstMax(SavingsKeys(offers, ids))], ids[FirstMax(PriceKeys(offers, ids))]))
  }

  /** What the later `find_cheapest_overall_and_vs_list` leaves in the
      offers table, or None when it raises. */
  function CheapestFlags(offers: seq<Offer>): (r: Option<seq<Offer>>)
    ensures r.Some? ==> |r.value| == |offers|
  {
    match CheapestPicks(offers)
    case None => None
    case Some((v, c)) =>
      Some(offers[v := offers[v].(cheapestVsList := true)][c := offers[v := offers[v].(cheapestVsList := true)][c].(cheapestOverall := true)])
  }

  /** The picks are the first best offers with the largest savings and with
      the largest price; there are none exactly when no offer is best. */
  lemma CheapestPicksAreFirstLargest(offers: seq<Offer>)
    ensures CheapestPicks(offers).None? <==> forall k :: 0 <= k < |offers| ==> !offers[k].bestOffer
    ensures CheapestPicks(offers).Some? ==>
              FirstLargestBest(offers, SavingsKey, CheapestPicks(offers).value.0)
              && FirstLargestBest(offers, Price, CheapestPicks(offers).value.1)
  {
    var ids := BestOfferIds(offers, |offers|);
    forall k | 0 <= k < |offers| && offers[k].bestOffer
      ensures k in ids
    {
      BestOfferIdsComplete(offers, |offers|, k);
    }
    if ids != [] {
      FirstLargestOfIds(offers, ids, SavingsKey, SavingsKeys(offers, ids));
      FirstLargestOfIds(offers, ids, Price, PriceKeys(offers, ids));
    }
  }

  /** ids lists best offers of the table in increasing row order. */
  predicate ListsBest(offers: seq<Offer>, ids: seq<nat>)
  {
    (forall t :: 0 <= t < |ids| ==> ids[t] < |offers| && offers[ids[t]].bestOffer)
    && forall t, u :: 0 <= t < u < |ids| ==> ids[t] < ids[u]
  }

  /** FirstMax over the keys of the listed best offers finds the first
      best offer with the largest key. */
  lemma FirstLargestOfIds(offers: seq<Offer>, ids: seq<nat>, key: Offer -> int, keys: seq<int>)
    requires ids != [] && ListsBest(offers, ids)
    requires forall k :: 0 <= k < |offers| && offers[k].bestOffer ==> k in ids
    requires |keys| == |ids| && forall t :: 0 <= t < |ids| ==> keys[t] == key(offers[ids[t]])
    ensures FirstLargestBest(offers, key, ids[FirstMax(keys)])
  {
    var m := FirstMax(keys);
    forall j | 0 <= j < |offers| && offers[j].bestOffer
      ensures key(offers[j]) <= key(offers[ids[m]])
      ensures j < ids[m] ==> key(offers[j]) < key(offers[ids[m]])
    {
      var t :| 0 <= t < |ids| && ids[t] == j;
      KeyAtListed(offers, ids, key, keys, m, t);
    }
  }

  /** The key of listed offer t against that of the FirstMax position m. */
  lemma KeyAtListed(offers: seq<Offer>, ids: seq<nat>, key: Offer -> int, keys: seq<int>, m: nat, t: nat)
    requires ids != [] && ListsBest(offers, ids)
    requires |keys| == |ids| && forall i :: 0 <= i < |ids| ==> keys[i] == key(offers[ids[i]])
    requires m == FirstMax(keys) && t < |ids|
    ensures key(offers[ids[t]]) <= key(offers[ids[m]])
    ensures ids[t] < ids[m] ==> key(offers[ids[t]]) < key(offers[ids[m]])
  {
    assert keys[t] <= keys[m];
    if ids[t] < ids[m] {
      assert t < m;
      assert keys[t] < keys[m];
    }
  }

  /** The flags set are exactly those of the two picks, added to the ones
      already set: no flag is cleared and nothing else changes. */
  lemma CheapestFlagsSetsPicks(offers: seq<Offer>, k: nat)
    requires k < |offers| && CheapestFlags(offers).Some?
    ensures var r := CheapestFlags(offers).value;
            var v := CheapestPicks(offers).value.0;
            var c := CheapestPicks(offers).value.1;
            && r[k] == offers[k].(cheapestVsList := r[k].cheapestVsList, cheapestOverall := r[k].cheapestOverall)
            && (r[k].cheapestVsList <==> offers[k].cheapestVsList || k == v)
            && (r[k].cheapestOverall <==> offers[k].cheapestOverall || k == c)
  {
  }

  /** The flags go to the first best offer with the largest savings and to
      the first best offer with the largest PRICE (the descending sort makes
      "cheapest overall" the dearest best offer); the call fails exactly
      when no offer is flagged best. */
  lemma CheapestFlagsSpec(offers: seq<Offer>, k: nat)
    requires k < |offers|
    ensures CheapestFlags(offers).None? <==> forall j :: 0 <= j < |offers| ==> !offers[j].bestOffer
    ensures CheapestFlags(offers).Some? ==>
              (CheapestFlags(offers).value[k].cheapestVsList <==>
                 offers[k].cheapestVsList || FirstLargestBest(offers, SavingsKey, k))
              && (CheapestFlags(offers).value[k].cheapestOverall <==>
                 offers[k].cheapestOverall || FirstLargestBest(offers, Price, k))
  {
    CheapestPicksAreFirstLargest(offers);
    if CheapestFlags(offers).Some? {
      var v := CheapestPicks(offers).value.0;
      var c := CheapestPicks(offers).value.1;
      CheapestFlagsSetsPicks(offers, k);
      if FirstLargestBest(offers, SavingsKey, k) {
        FirstLargestBestUnique(offers, SavingsKey, k, v);
      }
      if FirstLargestBest(offers, Price, k) {
        FirstLargestBestUnique(offers, Price, k, c);
      }
    }
  }

  lemma FirstLargestBestUnique(offers: seq<Offer>, key: Offer -> int, k: nat, m: nat)
    requires FirstLargestBest(offers, key, k) && FirstLargestBest(offers, key, m)
    ensures k == m
  {
  }

  /** Two best offers, the first priced 500 with savings 50 and the second
      priced 300 with savings 20: both flags go to the first, dearer offer. */
  lemma CheapestOverallIsDearest()
    ensures var x := Offer(0, "New", "Amazon", 500, "$5.00", true, "now", true, Some(50), Some(0), false, false);
            var y := Offer(1, "New", "Amazon", 300, "$3.00", true, "now", true, Some(20), Some(1), false, false);
            CheapestPicks([x, y]) == Some((0, 0))
  {
    var x := Offer(0, "New", "Amazon", 500, "$5.00", true, "now", true, Some(50), Some(0), false, false);
    var y := Offer(1, "New", "Amazon", 300, "$3.00", true, "now", true, Some(20), Some(1), false, false);
    var offers := [x, y];
    CheapestPicksAreFirstLargest(offers);
    assert CheapestPicks(offers).Some? by {
      assert offers[0].bestOffer;
    }
  }
}
