/** The find-or-create updates of the refresh: wishlist items
    (`add_wishlist_items_to_db`), parents (`get_all_parents`) and the
    variations under each parent (`get_variations`,
    `get_all_variations_under_parents`). */
module FindOrCreate {
  import opened CatalogTypes
  import opened Queries

  /** An item created from an ASIN alone: every attribute null. */
  function FreshItem(asin: Asin, onWishlist: bool, parent: Option<nat>): Item
  {
    Item(asin, None, None, None, None, None, None, None, onWishlist, parent)
  }

  /** Table r keeps the rows of table items, in place, and may add more. */
  predicate Extends(items: seq<Item>, r: seq<Item>)
  {
    |items| <= |r| && forall j :: 0 <= j < |items| ==> r[j] == items[j]
  }

  /** The items table after find-or-create has visited asins[..n]: an ASIN
      already in the table is left alone, an unseen one gets a new item. */
  function AddMissing(items: seq<Item>, asins: seq<Asin>, onWishlist: bool, parent: Option<nat>, n: nat): (r: seq<Item>)
    requires n <= |asins|
    ensures |items| <= |r|
    decreases n
  {
    if n == 0 then items
    else
      var before := AddMissing(items, asins, onWishlist, parent, n - 1);
      if asins[n - 1] in Asins(before) then before
      else before + [FreshItem(asins[n - 1], onWishlist, parent)]
  }

  /** Find-or-create only appends. */
  lemma {:induction false} AddMissingExtends(items: seq<Item>, asins: seq<Asin>, onWishlist: bool, parent: Option<nat>,
                                             n: nat)
    requires n <= |asins|
    ensures Extends(items, AddMissing(items, asins, onWishlist, parent, n))
    decreases n
  {
    if n > 0 {
      AddMissingExtends(items, asins, onWishlist, parent, n - 1);
    }
  }

  /** Every ASIN visited is in the table afterwards. */
  lemma {:induction false} AddMissingContains(items: seq<Item>, asins: seq<Asin>, onWishlist: bool, parent: Option<nat>,
                                              n: nat, t: nat)
    requires t < n <= |asins|
    ensures asins[t] in Asins(AddMissing(items, asins, onWishlist, parent, n))
    decreases n
  {
    var before := AddMissing(items, asins, onWishlist, parent, n - 1);
    var r := AddMissing(items, asins, onWishlist, parent, n);
    if t < n - 1 {
      AddMissingContains(items, asins, onWishlist, parent, n - 1, t);
      var j :| 0 <= j < |before| && Asins(before)[j] == asins[t];
      assert Asins(r)[j] == asins[t];
    } else if asins[t] !in Asins(before) {
      assert Asins(r)[|before|] == asins[t];
    }
  }

  /** Each item past the old table is a fresh item for a visited ASIN that
      was not in the old table. */
  predicate AddsFreshItems(items: seq<Item>, r: seq<Item>, asins: seq<Asin>, onWishlist: bool, parent: Option<nat>)
  {
    forall j :: |items| <= j < |r| ==>
      r[j] == FreshItem(r[j].asin, onWishlist, parent) && r[j].asin in asins && r[j].asin !in Asins(items)
  }

  lemma {:induction false} AddMissingAddsFresh(items: seq<Item>, asins: seq<Asin>, onWishlist: bool, parent: Option<nat>,
                                               n: nat)
    requires n <= |asins|
    ensures AddsFreshItems(items, AddMissing(items, asins, onWishlist, parent, n), asins, onWishlist, parent)
    decreases n
  {
    if n > 0 {
      AddMissingAddsFresh(items, asins, onWishlist, parent, n - 1);
      var before := AddMissing(items, asins, onWishlist, parent, n - 1);
      var a := asins[n - 1];
      if a !in Asins(before) {
        var r := before + [FreshItem(a, onWishlist, parent)];
        assert AddMissing(items, asins, onWishlist, parent, n) == r;
        assert forall j :: 0 <= j < |before| ==> r[j] == before[j];
        AddMissingExtends(items, asins, onWishlist, parent, n - 1);
        AsinsPrefix(items, before);
      }
    }
  }

  /** ASINs stay unique: no ASIN gets a second item. */
  lemma {:induction false} AddMissingDistinct(items: seq<Item>, asins: seq<Asin>, onWishlist: bool, parent: Option<nat>,
                                              n: nat)
    requires n <= |asins| && Distinct(Asins(items))
    ensures Distinct(Asins(AddMissing(items, asins, onWishlist, parent, n)))
    decreases n
  {
    if n > 0 {
      AddMissingDistinct(items, asins, onWishlist, parent, n - 1);
      var before := AddMissing(items, asins, onWishlist, parent, n - 1);
      var a := asins[n - 1];
      if a !in Asins(before) {
        var r := before + [FreshItem(a, onWishlist, parent)];
        assert AddMissing(items, asins, onWishlist, parent, n) == r;
        forall i, j | 0 <= i < j < |r|
          ensures Asins(r)[i] != Asins(r)[j]
        {
          if j == |before| {
            assert Asins(before)[i] == Asins(r)[i];
          } else {
            assert Asins(before)[i] == Asins(r)[i] && Asins(before)[j] == Asins(r)[j];
          }
        }
      }
    }
  }

  /** When every visited ASIN is already in the table, nothing changes. */
  lemma {:induction false} AddMissingNoop(items: seq<Item>, asins: seq<Asin>, onWishlist: bool, parent: Option<nat>,
                                          n: nat)
    requires n <= |asins|
    requires forall t :: 0 <= t < n ==> asins[t] in Asins(items)
    ensures AddMissing(items, asins, onWishlist, parent, n) == items
    decreases n
  {
    if n > 0 {
      AddMissingNoop(items, asins, onWishlist, parent, n - 1);
    }
  }

  /** Every ASIN of the list has an item after the whole find-or-create. */
  lemma AddMissingContainsAll(items: seq<Item>, asins: seq<Asin>, onWishlist: bool, parent: Option<nat>)
    ensures forall a :: a in asins ==> a in Asins(AddMissing(items, asins, onWishlist, parent, |asins|))
  {
    forall a | a in asins
      ensures a in Asins(AddMissing(items, asins, onWishlist, parent, |asins|))
    {
      var t :| 0 <= t < |asins| && asins[t] == a;
      AddMissingContains(items, asins, onWishlist, parent, |asins|, t);
    }
  }

  /** `add_wishlist_items_to_db` run a second time on the same wishlist adds
      nothing. */
  lemma AddWishlistIdempotent(items: seq<Item>, asins: seq<Asin>)
    ensures AddMissing(AddMissing(items, asins, true, None, |asins|), asins, true, None, |asins|)
            == AddMissing(items, asins, true, None, |asins|)
  {
    var once := AddMissing(items, asins, true, None, |asins|);
    forall t | 0 <= t < |asins|
      ensures asins[t] in Asins(once)
    {
      AddMissingContains(items, asins, true, None, |asins|, t);
    }
    AddMissingNoop(once, asins, true, None, |asins|);
  }

  /** Every item's parent, when set, is a row of the parents table. */
  predicate ParentsValid(items: seq<Item>, parents: seq<Asin>)
  {
    forall x :: 0 <= x < |items| && items[x].parent.Some? ==> items[x].parent.value < |parents|
  }

  /** Items and parents tables together. */
  datatype Linked = Linked(items: seq<Item>, parents: seq<Asin>)

  /** One step of `get_all_parents`: an item with a parent is left alone;
      otherwise the parent with the looked-up ASIN is found, or created at
      the end of the parents table, and attached. */
  function AttachParent(items: seq<Item>, parents: seq<Asin>, x: nat, parentAsin: Asin): (r: Linked)
    requires x < |items|
  {
    if items[x].parent.Some? then Linked(items, parents)
    else
      match FirstIndex(parents, parentAsin)
      case Some(p) => Linked(items[x := items[x].(parent := Some(p))], parents)
      case None => Linked(items[x := items[x].(parent := Some(|parents|))], parents + [parentAsin])
  }

  /** One step keeps the tables valid and the parent ASINs unique, only
      appends to the parents table, and only sets the parent of item x,
      which then names the looked-up ASIN when it had no parent before. */
  lemma AttachParentSpec(items: seq<Item>, parents: seq<Asin>, x: nat, parentAsin: Asin)
    requires x < |items| && ParentsValid(items, parents) && Distinct(parents)
    ensures ParentsValid(AttachParent(items, parents, x, parentAsin).items, AttachParent(items, parents, x, parentAsin).parents)
    ensures Distinct(AttachParent(items, parents, x, parentAsin).parents)
    ensures |AttachParent(items, parents, x, parentAsin).parents| >= |parents|
    ensures AttachParent(items, parents, x, parentAsin).parents[..|parents|] == parents
    ensures |AttachParent(items, parents, x, parentAsin).items| == |items|
    ensures forall y :: 0 <= y < |items| && y != x ==> AttachParent(items, parents, x, parentAsin).items[y] == items[y]
    ensures AttachParent(items, parents, x, parentAsin).items[x]
            == items[x].(parent := AttachParent(items, parents, x, parentAsin).items[x].parent)
    ensures items[x].parent.Some? ==> AttachParent(items, parents, x, parentAsin).items[x] == items[x]
    ensures items[x].parent.None? ==>
              AttachParent(items, parents, x, parentAsin).items[x].parent.Some?
              && AttachParent(items, parents, x, parentAsin).parents[AttachParent(items, parents, x, parentAsin).items[x].parent.value]
                 == parentAsin
  {
    var r := AttachParent(items, parents, x, parentAsin);
    if items[x].parent.None? && FirstIndex(parents, parentAsin).None? {
      forall i, j | 0 <= i < j < |r.parents|
        ensures r.parents[i] != r.parents[j]
      {
        if j == |parents| {
          assert r.parents[i] == parents[i];
        }
      }
    }
  }

  /** `get_all_parents` over the items xs[..n], asking `parentOf` for the
      parent ASIN of each item that has none. */
  function AttachParents(items: seq<Item>, parents: seq<Asin>, xs: seq<nat>, parentOf: Asin -> Asin, n: nat): (r: Linked)
    requires n <= |xs| && forall t :: 0 <= t < |xs| ==> xs[t] < |items|
    ensures |r.items| == |items|
    decreases n
  {
    if n == 0 then Linked(items, parents)
    else
      var before := AttachParents(items, parents, xs, parentOf, n - 1);
      AttachParent(before.items, before.parents, xs[n - 1], parentOf(before.items[xs[n - 1]].asin))
  }

  /** What `get_all_parents` leaves in the tables' shape: they stay valid and
      the parent ASINs unique; existing parents stay where they were; no item
      changes anything but its parent, and an item that had a parent keeps
      it. */
  predicate ParentsKept(old_: Linked, r: Linked)
  {
    ParentsValid(r.items, r.parents) && Distinct(r.parents)
    && |r.items| == |old_.items| && |old_.parents| <= |r.parents| && r.parents[..|old_.parents|] == old_.parents
    && (forall y :: 0 <= y < |r.items| ==> r.items[y] == old_.items[y].(parent := r.items[y].parent))
    && (forall y :: 0 <= y < |r.items| && old_.items[y].parent.Some? ==> r.items[y].parent == old_.items[y].parent)
  }

  lemma {:induction false} AttachParentsKeeps(items: seq<Item>, parents: seq<Asin>, xs: seq<nat>, parentOf: Asin -> Asin,
                                              n: nat)
    requires n <= |xs| && forall t :: 0 <= t < |xs| ==> xs[t] < |items|
    requires ParentsValid(items, parents) && Distinct(parents)
    ensures ParentsKept(Linked(items, parents), AttachParents(items, parents, xs, parentOf, n))
    decreases n
  {
    if n > 0 {
      AttachParentsKeeps(items, parents, xs, parentOf, n - 1);
      var before := AttachParents(items, parents, xs, parentOf, n - 1);
      var x := xs[n - 1];
      AttachParentSpec(before.items, before.parents, x, parentOf(before.items[x].asin));
      var r := AttachParents(items, parents, xs, parentOf, n);
      assert r.parents[..|parents|] == parents by {
        assert r.parents[..|before.parents|][..|parents|] == r.parents[..|parents|];
      }
    }
  }

  /** Every visited item ends with a parent. */
  lemma {:induction false} AttachParentsCovers(items: seq<Item>, parents: seq<Asin>, xs: seq<nat>, parentOf: Asin -> Asin,
                                               n: nat, t: nat)
    requires n <= |xs| && forall t :: 0 <= t < |xs| ==> xs[t] < |items|
    requires t < n
    ensures AttachParents(items, parents, xs, parentOf, n).items[xs[t]].parent.Some?
    decreases n
  {
    var before := AttachParents(items, parents, xs, parentOf, n - 1);
    var x := xs[n - 1];
    if t < n - 1 {
      AttachParentsCovers(items, parents, xs, parentOf, n - 1, t);
      if xs[t] != x {
        assert AttachParents(items, parents, xs, parentOf, n).items[xs[t]] == before.items[xs[t]];
      }
    }
  }

  /** An item that had no parent and has one now has the parent its ASIN
      was looked up to. */
  lemma {:induction false} AttachParentsLooksUp(items: seq<Item>, parents: seq<Asin>, xs: seq<nat>, parentOf: Asin -> Asin,
                                                n: nat, y: nat)
    requires n <= |xs| && forall t :: 0 <= t < |xs| ==> xs[t] < |items|
    requires ParentsValid(items, parents) && Distinct(parents)
    requires y < |items| && items[y].parent.None?
    requires AttachParents(items, parents, xs, parentOf, n).items[y].parent.Some?
    ensures AttachParents(items, parents, xs, parentOf, n).items[y].parent.value
            < |AttachParents(items, parents, xs, parentOf, n).parents|
    ensures AttachParents(items, parents, xs, parentOf, n).parents[AttachParents(items, parents, xs, parentOf, n).items[y].parent.value]
            == parentOf(items[y].asin)
    decreases n
  {
    AttachParentsKeeps(items, parents, xs, parentOf, n - 1);
    AttachParentsKeeps(items, parents, xs, parentOf, n);
    var before := AttachParents(items, parents, xs, parentOf, n - 1);
    var x := xs[n - 1];
    var r := AttachParents(items, parents, xs, parentOf, n);
    AttachParentSpec(before.items, before.parents, x, parentOf(before.items[x].asin));
    if before.items[y].parent.Some? {
      AttachParentsLooksUp(items, parents, xs, parentOf, n - 1, y);
      assert r.items[y].parent == before.items[y].parent;
      assert r.parents[..|before.parents|][before.items[y].parent.value] == r.parents[before.items[y].parent.value];
    } else {
      assert y == x;
      assert before.items[y].asin == items[y].asin;
    }
  }

  /** `get_variations`: the variations the lookup lists under a parent ASIN,
      or the ASIN itself, alone, when it is empty (a null parent ASIN). */
  function GetVariations(parentAsin: Asin, variationsOf: Asin -> seq<Asin>): seq<Asin>
  {
    if parentAsin != "" then variationsOf(parentAsin) else [parentAsin]
  }

  /** `get_all_variations_under_parents` over the parents ps[..n]: each
      variation not yet in the table becomes an item of that parent, not on
      the wishlist. */
  function AddVariations(items: seq<Item>, parents: seq<Asin>, ps: seq<nat>, variationsOf: Asin -> seq<Asin>, n: nat)
    : (r: seq<Item>)
    requires n <= |ps| && forall t :: 0 <= t < |ps| ==> ps[t] < |parents|
    ensures |items| <= |r|
    decreases n
  {
    if n == 0 then items
    else
      var before := AddVariations(items, parents, ps, variationsOf, n - 1);
      var vs := GetVariations(parents[ps[n - 1]], variationsOf);
      AddMissing(before, vs, false, Some(ps[n - 1]), |vs|)
  }

  /** The variations pass only appends. */
  lemma {:induction false} AddVariationsExtends(items: seq<Item>, parents: seq<Asin>, ps: seq<nat>,
                                                variationsOf: Asin -> seq<Asin>, n: nat)
    requires n <= |ps| && forall t :: 0 <= t < |ps| ==> ps[t] < |parents|
    ensures Extends(items, AddVariations(items, parents, ps, variationsOf, n))
    decreases n
  {
    if n > 0 {
      AddVariationsExtends(items, parents, ps, variationsOf, n - 1);
      var before := AddVariations(items, parents, ps, variationsOf, n - 1);
      var vs := GetVariations(parents[ps[n - 1]], variationsOf);
      AddMissingExtends(before, vs, false, Some(ps[n - 1]), |vs|);
    }
  }

  /** Item it is a fresh item, not on the wishlist, under one of the
      parents ps[..n] that lists its ASIN, and its ASIN is not in items. */
  predicate VariationItemOf(items: seq<Item>, it: Item, parents: seq<Asin>, ps: seq<nat>,
                            variationsOf: Asin -> seq<Asin>, n: nat)
    requires n <= |ps| && forall t :: 0 <= t < |ps| ==> ps[t] < |parents|
  {
    it.asin !in Asins(items)
    && exists t :: 0 <= t < n && it == FreshItem(it.asin, false, Some(ps[t]))
                   && it.asin in GetVariations(parents[ps[t]], variationsOf)
  }

  /** Each row of r past the rows of items is a variation item of one of
      the parents ps[..n]. */
  predicate AddsVariationItems(items: seq<Item>, r: seq<Item>, parents: seq<Asin>, ps: seq<nat>,
                               variationsOf: Asin -> seq<Asin>, n: nat)
    requires n <= |ps| && forall t :: 0 <= t < |ps| ==> ps[t] < |parents|
  {
    forall j :: |items| <= j < |r| ==> VariationItemOf(items, r[j], parents, ps, variationsOf, n)
  }

  /** Each item the variations pass adds is a fresh item, not on the
      wishlist, under one of the visited parents that lists its ASIN, and
      its ASIN was not in the old table. */
  lemma {:induction false} AddVariationsAdds(items: seq<Item>, parents: seq<Asin>, ps: seq<nat>,
                                             variationsOf: Asin -> seq<Asin>, n: nat)
    requires n <= |ps| && forall t :: 0 <= t < |ps| ==> ps[t] < |parents|
    ensures AddsVariationItems(items, AddVariations(items, parents, ps, variationsOf, n), parents, ps, variationsOf, n)
    decreases n
  {
    if n > 0 {
      AddVariationsAdds(items, parents, ps, variationsOf, n - 1);
      AddVariationsExtends(items, parents, ps, variationsOf, n - 1);
      AddsVariationItemsStep(items, AddVariations(items, parents, ps, variationsOf, n - 1), parents, ps, variationsOf, n);
    }
  }

  /** One parent's find-or-create keeps the property for the parents one
      further. */
  lemma AddsVariationItemsStep(items: seq<Item>, before: seq<Item>, parents: seq<Asin>, ps: seq<nat>,
                               variationsOf: Asin -> seq<Asin>, n: nat)
    requires 0 < n <= |ps| && forall t :: 0 <= t < |ps| ==> ps[t] < |parents|
    requires Extends(items, before)
    requires AddsVariationItems(items, before, parents, ps, variationsOf, n - 1)
    ensures var vs := GetVariations(parents[ps[n - 1]], variationsOf);
            AddsVariationItems(items, AddMissing(before, vs, false, Some(ps[n - 1]), |vs|), parents, ps, variationsOf, n)
  {
    var vs := GetVariations(parents[ps[n - 1]], variationsOf);
    var r := AddMissing(before, vs, false, Some(ps[n - 1]), |vs|);
    AddMissingExtends(before, vs, false, Some(ps[n - 1]), |vs|);
    forall j | |items| <= j < |r|
      ensures VariationItemOf(items, r[j], parents, ps, variationsOf, n)
    {
      if j < |before| {
        VariationItemOfMore(items, before[j], parents, ps, variationsOf, n - 1);
      } else {
        AddedByLastParent(items, before, vs, ps[n - 1], j);
      }
    }
  }

  /** An item under one of the parents ps[..n] is under one of ps[..n + 1]. */
  lemma VariationItemOfMore(items: seq<Item>, it: Item, parents: seq<Asin>, ps: seq<nat>,
                            variationsOf: Asin -> seq<Asin>, n: nat)
    requires n < |ps| && forall t :: 0 <= t < |ps| ==> ps[t] < |parents|
    requires VariationItemOf(items, it, parents, ps, variationsOf, n)
    ensures VariationItemOf(items, it, parents, ps, variationsOf, n + 1)
  {
    var t :| 0 <= t < n && it == FreshItem(it.asin, false, Some(ps[t]))
              && it.asin in GetVariations(parents[ps[t]], variationsOf);
    assert 0 <= t < n + 1;
  }

  /** A row that one parent's find-or-create appends to a table extending
      items is a fresh item of that parent, for one of its variations, whose
      ASIN is not in items. */
  lemma AddedByLastParent(items: seq<Item>, before: seq<Item>, vs: seq<Asin>, p: nat, j: nat)
    requires Extends(items, before)
    requires |before| <= j < |AddMissing(before, vs, false, Some(p), |vs|)|
    ensures var r := AddMissing(before, vs, false, Some(p), |vs|);
            r[j] == FreshItem(r[j].asin, false, Some(p)) && r[j].asin in vs && r[j].asin !in Asins(items)
  {
    AddMissingAddsFresh(before, vs, false, Some(p), |vs|);
    AsinsPrefix(items, before);
  }

  /** The variations pass keeps ASINs unique and parents valid. */
  lemma {:induction false} AddVariationsValid(items: seq<Item>, parents: seq<Asin>, ps: seq<nat>,
                                              variationsOf: Asin -> seq<Asin>, n: nat)
    requires n <= |ps| && forall t :: 0 <= t < |ps| ==> ps[t] < |parents|
    requires Distinct(Asins(items)) && ParentsValid(items, parents)
    ensures Distinct(Asins(AddVariations(items, parents, ps, variationsOf, n)))
    ensures ParentsValid(AddVariations(items, parents, ps, variationsOf, n), parents)
    decreases n
  {
    if n > 0 {
      AddVariationsValid(items, parents, ps, variationsOf, n - 1);
      var before := AddVariations(items, parents, ps, variationsOf, n - 1);
      var vs := GetVariations(parents[ps[n - 1]], variationsOf);
      var r := AddVariations(items, parents, ps, variationsOf, n);
      AddMissingAddsFresh(before, vs, false, Some(ps[n - 1]), |vs|);
      AddMissingDistinct(before, vs, false, Some(ps[n - 1]), |vs|);
      AddMissingExtends(before, vs, false, Some(ps[n - 1]), |vs|);
      forall y | 0 <= y < |r| && r[y].parent.Some?
        ensures r[y].parent.value < |parents|
      {
        if y < |before| {
          assert r[y] == before[y];
        }
      }
    }
  }

  /** An ASIN of a prefix of a table is an ASIN of the table. */
  lemma AsinsPrefix(items: seq<Item>, r: seq<Item>)
    requires Extends(items, r)
    ensures forall a :: a in Asins(items) ==> a in Asins(r)
  {
    forall a | a in Asins(items)
      ensures a in Asins(r)
    {
      var j :| 0 <= j < |items| && Asins(items)[j] == a;
      assert Asins(r)[j] == a;
    }
  }

  /** One parent's step keeps every ASIN and adds each of its variations. */
  lemma AddVariationsStep(items: seq<Item>, parents: seq<Asin>, ps: seq<nat>, variationsOf: Asin -> seq<Asin>, n: nat)
    requires 0 < n <= |ps| && forall t :: 0 <= t < |ps| ==> ps[t] < |parents|
    ensures forall a :: a in Asins(AddVariations(items, parents, ps, variationsOf, n - 1)) ==>
              a in Asins(AddVariations(items, parents, ps, variationsOf, n))
    ensures forall v :: v in GetVariations(parents[ps[n - 1]], variationsOf) ==>
              v in Asins(AddVariations(items, parents, ps, variationsOf, n))
  {
    var before := AddVariations(items, parents, ps, variationsOf, n - 1);
    var vs := GetVariations(parents[ps[n - 1]], variationsOf);
    AddMissingExtends(before, vs, false, Some(ps[n - 1]), |vs|);
    AsinsPrefix(before, AddVariations(items, parents, ps, variationsOf, n));
    forall v | v in vs
      ensures v in Asins(AddVariations(items, parents, ps, variationsOf, n))
    {
      var i :| 0 <= i < |vs| && vs[i] == v;
      AddMissingContains(before, vs, false, Some(ps[n - 1]), |vs|, i);
    }
  }

  /** After the variations pass every variation listed under a visited
      parent has an item. */
  lemma {:induction false} AddVariationsContains(items: seq<Item>, parents: seq<Asin>, ps: seq<nat>,
                                                 variationsOf: Asin -> seq<Asin>, n: nat, t: nat, v: Asin)
    requires n <= |ps| && forall t :: 0 <= t < |ps| ==> ps[t] < |parents|
    requires t < n && v in GetVariations(parents[ps[t]], variationsOf)
    ensures v in Asins(AddVariations(items, parents, ps, variationsOf, n))
    decreases n
  {
    AddVariationsStep(items, parents, ps, variationsOf, n);
    if t < n - 1 {
      AddVariationsContains(items, parents, ps, variationsOf, n - 1, t, v);
    }
  }
}
