# wishlist_tracker refresh run, modelled in Dafny

This project models `cw_flaskapp/refresh_data.py`, the periodic refresh run of a wishlist price
tracker. The run does the following, in order:

1. It makes sure every wishlist ASIN has an `Item`.
2. It gives every item not yet checked today a `ParentItem`, creating the parent when its ASIN is new.
3. It adds an item for every variation listed under a parent.
4. For every item not checked today, it fills in missing attributes and, when the item then has a
   name, replaces its offers with the ones the product API returns. eBooks get no offers.
5. For every enriched wishlist item that has a parent, it clears the best flag of every offer of
   the parent's variants and flags the cheapest of them. Only offers priced below 999999999
   count, so no offer is flagged when none is below that bound. The flagged offer records its
   savings against the list price (or the Buybox price, or 0) and the wishlist item's id. Wishlist
   items without a parent are skipped.
6. It stores an image for the item of each best offer that has none yet.
7. It sets the global `cheapest_vs_list` and `cheapest_overall` flags.
8. It replaces the last-refreshed timestamp.

The database is the class `Catalog.CatalogStore`. Its tables are `seq` fields:

- `items` is indexed by item id;
- `parents` holds the parent ASINs, indexed by parent id;
- `offers` is the offer table in offer-id order, and each offer carries its item id;
- `images` is the image table;
- `lastRefreshed` holds the last-refreshed rows.

Every step of the run is a method that updates those fields. Each is proved against a pure
function of the old tables, and the properties of the run are lemmas about those functions. The
store keeps the invariant `Catalog.Consistent` through every step:

- ASINs are unique, and so are parent ASINs;
- an item's parent, an offer's item and wishlist item, and an image's item each name an existing row;
- every offer flagged best carries its savings.

Modules:

- `CatalogTypes` (types.dfy): rows, API answers, constants.
- `Queries` (queries.dfy): the ORM queries the run uses.
- `BestOffer` and `BestOfferPass` (best_offer.dfy, best_offer_pass.dfy): the best-offer selection.
- `Ranking` (ranking.dfy): the global flags.
- `Images` (images.dfy): image sizes and the image backfill.
- `FindOrCreate` (find_or_create.dfy): wishlist items, parents and variations.
- `ItemRefresh` and `RefreshPass` (item_refresh.dfy, refresh_pass.dfy): the item refresh loop.
- `Catalog` (catalog.dfy): the store and the run.

Four behaviours of the code differ from what its names suggest, and the model follows the code:

- `refresh_data.py` defines `find_cheapest_overall_and_vs_list` twice. The later definition
  (lines 334-345) is the one that takes effect. It sorts the best offers by price in DESCENDING
  order and flags element 0. So `cheapest_overall` goes to the first best offer with the HIGHEST
  price, not the lowest. `Ranking.CheapestOverallIsDearest` shows this for two best offers priced 500
  (savings 50) and 300 (savings 20).
- That definition never clears the flags set by earlier runs. The model keeps old flags too.
- With no offer flagged best, element `[0]` of the empty sort raises an IndexError and the run
  stops before the timestamp is updated. The model returns `Outcome.NoBestOffers`, and
  `Catalog.CatalogStore.Refresh` leaves `lastRefreshed` as it was in that case.
- The parents query at line 371 filters `ParentItem` rows on `Item` columns with no join, so the
  database joins every parent with every item. It yields every parent row when some item is stale
  and no row when none is; then the variations step does nothing. `Catalog.AllParents` follows
  this, taking the rows in id order.

## Model

| member | source | states |
|---|---|---|
| Queries.FirstIndex | cw_flaskapp/refresh_data.py:151 | `filter_by(ASIN=...).first()` gives the lowest row holding the value, and None exactly when no row holds it |
| Queries.StaleItems | cw_flaskapp/refresh_data.py:366 | the items whose check date is null or not today, each listed in id order |
| Queries.StaleItemsComplete | cw_flaskapp/refresh_data.py:366 | every item not checked today is in the query's result |
| Queries.BuyboxPriceIsLastMatch | cw_flaskapp/refresh_data.py:22-33 | the Buybox price is null exactly when the item has no Buybox offer; otherwise it is the price of its LAST Buybox offer in table order |
| Queries.GetBuyboxPrice | cw_flaskapp/refresh_data.py:22-33 | the overwriting loop computes that Buybox price |
| Queries.ComparisonPrice | cw_flaskapp/refresh_data.py:68-72 | the comparison price is the list price when truthy, else the Buybox price when truthy; it is 0 exactly when neither is truthy |
| Queries.ItemOffersAppend | cw_flaskapp/refresh_data.py:57 | an item's offers in a table made of two parts are its offers in the first part followed by those in the second |
| BestOffer.OffersOfItemRows | cw_flaskapp/refresh_data.py:57 | every entry of `x.offers.all()` is an offer row of item x |
| BestOffer.OffersOfItemComplete | cw_flaskapp/refresh_data.py:57 | every offer of item x is among them |
| BestOffer.PoolRows | cw_flaskapp/refresh_data.py:54-57 | every offer scanned belongs to a variant of the wishlist item's parent |
| BestOffer.PoolComplete | cw_flaskapp/refresh_data.py:54-57 | every offer of every variant of the parent is scanned |
| BestOffer.PooledIff | cw_flaskapp/refresh_data.py:54-57 | an offer is scanned exactly when its item is a variant of the parent |
| BestOffer.PickBest | cw_flaskapp/refresh_data.py:47-62 | the scan ends holding a scanned offer and its price, or nothing and the 999999999 sentinel |
| BestOffer.PickBestIsFirstCheapest | cw_flaskapp/refresh_data.py:47-62 | the scan finds nothing exactly when no price is below the sentinel; otherwise it holds a cheapest offer, and every offer scanned before it is strictly dearer (ties keep the first) |
| BestOffer.ChosenIsCheapest | cw_flaskapp/refresh_data.py:56-64 | an offer is chosen exactly when some offer of the group is below the sentinel; the chosen offer is in the group and no offer of the group is cheaper |
| BestOffer.ChosenPrice | cw_flaskapp/refresh_data.py:62 | `best_offer_price` at the end of the scan is the price of the chosen offer |
| BestOffer.ChosenIsFirst | cw_flaskapp/refresh_data.py:60 | among equally cheap offers the first scanned (items in id order, then offers in table order) is chosen |
| BestOffer.SelectForFlagsOneOffer | cw_flaskapp/refresh_data.py:56-80 | after the iteration for w, offers outside its group are unchanged; inside the group exactly the chosen offer is flagged best, or none when nothing is below the sentinel |
| BestOffer.SelectForRecordsSavings | cw_flaskapp/refresh_data.py:76-78 | the chosen offer is flagged best, its savings are the comparison price minus its price, and its wishlist item id is w |
| BestOfferPass.LastSelector | cw_flaskapp/refresh_data.py:40-44 | the last enriched wishlist item, in id order, whose parent is p, if any |
| BestOfferPass.SelectForKeepsData | cw_flaskapp/refresh_data.py:59-78 | an iteration writes only `best_offer`, `savings_vs_list` and `wishlist_item_id` |
| BestOfferPass.ChosenSameData | cw_flaskapp/refresh_data.py:56-63 | the choice depends only on data the selection does not write, so earlier iterations cannot change it |
| BestOfferPass.SelectUpToSettles | cw_flaskapp/refresh_data.py:36-82 | after the iterations for items[..n], each offer is as the last iteration touching its group left it, and only the three selection fields differ |
| BestOfferPass.BestOffersAt | cw_flaskapp/refresh_data.py:36-82 | each row after the whole pass is the settled row |
| BestOfferPass.BestOffersInGroup | cw_flaskapp/refresh_data.py:36-82 | after the pass, in a group with a selecting wishlist item, exactly the chosen offer is flagged best; its savings are those computed for the LAST such wishlist item, and it names that item |
| BestOfferPass.BestOffersFrame | cw_flaskapp/refresh_data.py:40-54 | offers of a group whose parent no enriched wishlist item has are untouched by the pass |
| BestOfferPass.BestOffersIdempotent | cw_flaskapp/refresh_data.py:36-82 | running the selection twice on unchanged data gives what running it once gives |
| BestOfferPass.BestOffersKeepSavings | cw_flaskapp/refresh_data.py:76-77 | every offer flagged best after the pass carries savings if every one did before |
| BestOfferPass.BestOffersKeepWishlistIds | cw_flaskapp/refresh_data.py:78 | after the pass every wishlist item id recorded on an offer names an item, if every one did before |
| Ranking.BestOfferIds | cw_flaskapp/refresh_data.py:336 | `filter(best_offer == True).all()` lists only best offers, in table order |
| Ranking.BestOfferIdsComplete | cw_flaskapp/refresh_data.py:336 | every best offer is listed |
| Ranking.FirstMax | cw_flaskapp/refresh_data.py:338-339 | element 0 of a stable descending sort is the first position holding the largest key |
| Ranking.CheapestPicksAreFirstLargest | cw_flaskapp/refresh_data.py:334-342 | there are no picks exactly when no offer is best; otherwise the picks are the first best offer with the largest savings and the first with the largest price |
| Ranking.CheapestFlagsSetsPicks | cw_flaskapp/refresh_data.py:341-342 | only the two flags change; each is set on its pick and no flag is cleared |
| Ranking.CheapestFlagsSpec | cw_flaskapp/refresh_data.py:334-345 | the call fails exactly when no offer is best; otherwise an offer ends with `cheapest_vs_list` exactly when it had it or is the first best offer with the largest savings, and with `cheapest_overall` exactly when it had it or is the first best offer with the largest price |
| Ranking.FirstLargestBestUnique | cw_flaskapp/refresh_data.py:338-339 | only one offer is the first best offer with the largest key |
| Ranking.CheapestOverallIsDearest | cw_flaskapp/refresh_data.py:339 | with best offers priced 500 (savings 50) and 300 (savings 20), both flags go to the 500 offer |
| Images.GetImageSizesRoundTrip | cw_flaskapp/refresh_data.py:213-259 | each size entry can be read back from its three keys; the `''` defaults appear exactly for the missing entries |
| Images.ImageRow | cw_flaskapp/refresh_data.py:105-114 | the image row names the item it was fetched for; for each size, a missing entry is stored as an empty URL with height and width 0, and a present one as its URL (the text "None" when the URL is null) and its height and width (0 when null) |
| Images.SizeColumnsDefaults | cw_flaskapp/refresh_data.py:105-113 | a missing size is stored as `("", 0, 0)`; a present one keeps its URL ("None" when missing) and its dimensions (0 when missing) |
| Images.ImageRowDefaults | cw_flaskapp/refresh_data.py:105-114 | each size of the stored image is the stored form of that size of the answer; an answer without sizes gives an all-empty row |
| Images.BackfillKeeps | cw_flaskapp/refresh_data.py:92-116 | the backfill only appends image rows |
| Images.HasImagePrefix | cw_flaskapp/refresh_data.py:98 | an item that has an image keeps it |
| Images.BackfillCovers | cw_flaskapp/refresh_data.py:92-116 | after the backfill the item of every best offer visited has an image |
| Images.BackfillAdds | cw_flaskapp/refresh_data.py:98-116 | every added image is the stored form of the lookup's answer for an item that had none, and no item gets two |
| FindOrCreate.AddMissingExtends | cw_flaskapp/refresh_data.py:147-160 | find-or-create only appends items |
| FindOrCreate.AddMissingContains | cw_flaskapp/refresh_data.py:147-160 | every ASIN visited has an item afterwards |
| FindOrCreate.AddMissingAddsFresh | cw_flaskapp/refresh_data.py:151-156 | every added item is new, has an ASIN from the list that was not in the table, has all attributes null, and has the given wishlist flag and parent |
| FindOrCreate.AddMissingContainsAll | cw_flaskapp/refresh_data.py:147-160 | every ASIN of the list has an item after the whole pass |
| FindOrCreate.AddMissingDistinct | cw_flaskapp/refresh_data.py:151-153 | ASINs stay unique |
| FindOrCreate.AddMissingNoop | cw_flaskapp/refresh_data.py:151-153 | when every ASIN is already present, nothing changes |
| FindOrCreate.AddWishlistIdempotent | cw_flaskapp/refresh_data.py:147-160 | adding the same wishlist a second time adds nothing |
| FindOrCreate.AttachParentSpec | cw_flaskapp/refresh_data.py:168-181 | one step keeps parent links valid and parent ASINs unique, and only appends parents; it changes only item x, and x ends with a parent whose ASIN is the looked-up one when x had none, unchanged otherwise |
| FindOrCreate.AttachParentsKeeps | cw_flaskapp/refresh_data.py:163-183 | the whole pass keeps the tables valid, only appends parents, and only sets parents on items that had none |
| FindOrCreate.AttachParentsCovers | cw_flaskapp/refresh_data.py:163-183 | every item visited ends with a parent |
| FindOrCreate.AttachParentsLooksUp | cw_flaskapp/refresh_data.py:171-181 | an item that gained a parent has the parent whose ASIN was looked up for it |
| FindOrCreate.AddVariationsExtends | cw_flaskapp/refresh_data.py:186-210 | the variations pass only appends items |
| FindOrCreate.AddVariationsAdds | cw_flaskapp/refresh_data.py:198-207 | every added item is fresh, not on the wishlist, and under a visited parent that lists its ASIN; that ASIN was not in the old table |
| FindOrCreate.AddVariationsValid | cw_flaskapp/refresh_data.py:186-210 | the pass keeps ASINs unique and parent links valid |
| FindOrCreate.AddVariationsStep | cw_flaskapp/refresh_data.py:196-207 | one parent's step keeps every ASIN and adds each of its variations |
| FindOrCreate.AddVariationsContains | cw_flaskapp/refresh_data.py:186-210 | every variation listed under a visited parent has an item afterwards |
| ItemRefresh.RefreshItemSpec | cw_flaskapp/refresh_data.py:276-313 | the call fails exactly for an unnamed item with an empty answer, and then changes nothing; a named item is untouched; the check date moves only when attributes are filled in, and then to today; ASIN, wishlist flag and parent never change |
| ItemRefresh.OffersOfOthersItemOffers | cw_flaskapp/refresh_data.py:392-396 | deleting item x's offers leaves x with none and every other item's offers as they were |
| ItemRefresh.NewOffers | cw_flaskapp/refresh_data.py:403-412 | one new offer row per fetched offer, in order; each names the item, carries the fetched condition, source, price, formatted price, Prime flag and availability, and has no best or cheapest flag, no savings and no wishlist item |
| ItemRefresh.ReplaceOffersSpec | cw_flaskapp/refresh_data.py:389-414 | after the replacement item x has exactly the fetched offers in the lookup's order (none for an eBook), and every other item's offers are as they were |
| ItemRefresh.ReplaceOffersKeeps | cw_flaskapp/refresh_data.py:392-414 | the replacement keeps offer item references valid and adds no best offer without savings |
| RefreshPass.RefreshOneAt | cw_flaskapp/refresh_data.py:384-415 | one iteration touches only item x and x's offers |
| RefreshPass.RefreshAllAt | cw_flaskapp/refresh_data.py:379-415 | after the loop a visited item is its refreshed self and holds the offers of its turn; an unvisited item and its offers are as they were |
| RefreshPass.VisitedStep | cw_flaskapp/refresh_data.py:384 | the loop visits each stale item once |
| Catalog.AddMissingConsistent | cw_flaskapp/refresh_data.py:147-160 | find-or-create keeps the store consistent |
| Catalog.AttachParentsConsistent | cw_flaskapp/refresh_data.py:163-183 | attaching parents keeps the store consistent and the ASINs unchanged |
| Catalog.AddVariationsConsistent | cw_flaskapp/refresh_data.py:186-210 | adding variations keeps the store consistent |
| Catalog.RefreshItemConsistent | cw_flaskapp/refresh_data.py:301-307 | refreshing an item keeps the store consistent and the ASINs unchanged |
| Catalog.RefreshAllConsistent | cw_flaskapp/refresh_data.py:384-415 | the refresh loop keeps the store consistent |
| Catalog.PreparedConsistent | cw_flaskapp/refresh_data.py:362-373 | adding the wishlist, attaching parents and adding variations, in that order, keep the store consistent |
| Catalog.FindOrCreateItems | cw_flaskapp/refresh_data.py:148-158 | the lookup-and-create loop computes the find-or-create table |
| Catalog.AddVariationsLoop | cw_flaskapp/refresh_data.py:191-210 | the nested loop computes the variations table |
| Catalog.ScanOffers | cw_flaskapp/refresh_data.py:57-62 | the scan of one item's offers unflags each of them and continues the cheapest-offer scan over them |
| Catalog.SelectGroup | cw_flaskapp/refresh_data.py:54-63 | the scan of the whole group unflags every offer of the group and ends with the chosen offer and its price |
| Catalog.MarkChosenIsSelectFor | cw_flaskapp/refresh_data.py:64-80 | marking the chosen offer in the unflagged group gives the table one iteration specifies |
| Catalog.BestOffersConsistent | cw_flaskapp/refresh_data.py:36-82 | the selection pass keeps the store consistent |
| Catalog.BackfillLoop | cw_flaskapp/refresh_data.py:92-116 | the backfill loop computes the backfilled image table |
| Catalog.BackfillConsistent | cw_flaskapp/refresh_data.py:86-118 | the backfill keeps the store consistent |
| Catalog.CheapestFlagsConsistent | cw_flaskapp/refresh_data.py:334-345 | setting the flags keeps the store consistent and changes no best-offer flag |
| Catalog.CatalogStore.AddWishlistItems | cw_flaskapp/refresh_data.py:147-160 | the items table becomes the find-or-create table for the wishlist (on the wishlist, no parent); nothing else changes; the store stays consistent |
| Catalog.CatalogStore.AttachParentTo | cw_flaskapp/refresh_data.py:168-183 | items and parents become one parent-attaching step; nothing else changes |
| Catalog.CatalogStore.GetAllParents | cw_flaskapp/refresh_data.py:163-183 | items and parents become the parent-attaching pass; ASINs and the other tables are unchanged; the store stays consistent |
| Catalog.CatalogStore.AddVariationsUnderParents | cw_flaskapp/refresh_data.py:186-210 | items become the variations table; every old ASIN is kept; the store stays consistent |
| Catalog.CatalogStore.RefreshItemData | cw_flaskapp/refresh_data.py:276-313 | returns the call's result; only item x changes, to its refreshed form; the store stays consistent |
| Catalog.CatalogStore.DeleteItemOffers | cw_flaskapp/refresh_data.py:392-396 | the offers table loses exactly item x's offers, the others keeping their order |
| Catalog.CatalogStore.InsertOffers | cw_flaskapp/refresh_data.py:403-414 | one new row per fetched offer is appended, in order |
| Catalog.CatalogStore.ReplaceItemOffers | cw_flaskapp/refresh_data.py:389-414 | the offers table becomes the replacement of item x's offers (none for an eBook); the store stays consistent |
| Catalog.CatalogStore.SelectBestFor | cw_flaskapp/refresh_data.py:44-80 | one iteration of the selection loop changes the offers table as one iteration specifies and nothing else |
| Catalog.CatalogStore.FindBestOfferPerWishlistItem | cw_flaskapp/refresh_data.py:36-82 | the offers table becomes the selection pass over all items; the store stays consistent |
| Catalog.CatalogStore.GetImagesForBestOfferItems | cw_flaskapp/refresh_data.py:86-118 | the image table becomes the backfill over the best offers in table order; the store stays consistent |
| Catalog.CatalogStore.FindCheapestOverallAndVsList | cw_flaskapp/refresh_data.py:334-345 | fails, changing nothing, exactly when no offer is best; otherwise sets the two flags as specified; best-offer flags are unchanged; the store stays consistent |
| Catalog.CatalogStore.UpdateLastRefreshed | cw_flaskapp/refresh_data.py:316-324 | returns the number of rows deleted and leaves only the given time |
| Catalog.CatalogStore.RefreshOneItem | cw_flaskapp/refresh_data.py:386-414 | items and offers become one turn of the refresh loop for item x; ASINs are unchanged; the store stays consistent |
| Catalog.CatalogStore.RefreshItems | cw_flaskapp/refresh_data.py:384-415 | items and offers become the refresh loop over the stale items; ASINs are unchanged; the store stays consistent |
| Catalog.CatalogStore.PrepareItems | cw_flaskapp/refresh_data.py:362-373 | items and parents become `Catalog.Prepared` of the old ones; offers, images and the timestamp are unchanged; every wishlist ASIN has an item; the store stays consistent |
| Catalog.CatalogStore.Refresh | cw_flaskapp/refresh_data.py:348-428 | the items, parents, offers and images after the run, and its outcome, are those `Catalog.Run` gives: the wishlist added, parents attached to the items not checked today, the variations of every parent added when some item is stale, the refresh loop over the items then not checked today, the best-offer pass, the image backfill and the two global flags; the store stays consistent, every wishlist ASIN has an item, the run fails exactly when no offer is best at the end, and the timestamp is replaced exactly when it completes |

## Left out

- Logging, the progress percentages, the completion e-mail (`send_completion_message`, lines 327-330) and database session commits are not modelled. They do not change the tables the run reads.
- The product API (`get_parent_ASIN`, `get_item_variations_from_parent`, `get_item_attributes`, `get_offers`, `get_images`) is not part of this model. Its answers are function parameters of the run: `parentOf`, `variationsOf`, `attributesOf`, `offersOf` and `imagesOf`. Errors it may raise are not modelled.
- The wishlist source is not modelled: `get_items_from_local_file` under `DEBUG`, or `get_items_from_wishlist`. The list of wishlist ASINs is a parameter of `Catalog.CatalogStore.Refresh`.
- `get_all_parents` (line 171) uses a global `amazon_api` that the module never defines. The model uses the supplied `parentOf` answer instead of the NameError that name would raise.
- Query result order: every `.all()` is taken to return rows in id order. This covers `item.offers`, `parent_item.items`, the parents query at line 371 and the best-offer query.
- A null parent ASIN is modelled as the empty string. `get_variations` then returns it alone, as the code does for a falsy ASIN.
- The model classes (`app.models`) are not part of this model. New items and offers take null attributes and false flags, and a variation item is not on the wishlist.
- The first definition of `find_cheapest_overall_and_vs_list` (lines 121-144) is dead code, shadowed by the one at lines 334-345, and is not modelled.
- Ranking.SavingsKey: a null `savings_vs_list` would make Python's sort raise a TypeError. The model sorts it as 0 instead. In a consistent store no best offer has null savings, so the case does not arise.
- Dates and times (`date.today()`, `datetime.now()`) are parameters of the run.
- Integers are unbounded. The code's prices are Python integers, so no width is modelled.
