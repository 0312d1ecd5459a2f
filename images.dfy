/** Image-size normalisation (`get_image_sizes`), the conversions applied
    where its result is stored, and the image backfill for the items of the
    best offers (`get_images_for_best_offer_items`). */
module Images {
  import opened CatalogTypes

  /** A value of the normalised dictionary: null (the key was missing from
      a present entry), the empty-string default of a missing entry, or a
      value from the lookup. */
  datatype Field<T> = Null | Blank | Value(v: T)

  datatype SizeFields = SizeFields(url: Field<string>, height: Field<int>, width: Field<int>)

  /** The nine keys smallURL ... largeWidth, grouped by size. */
  datatype ImageSizes = ImageSizes(small: SizeFields, medium: SizeFields, large: SizeFields)

  function FromOption<T>(v: Option<T>): Field<T>
  {
    match v
    case None => Null
    case Some(x) => Value(x)
  }

  /** One size: a missing or empty entry gives '' for all three keys, a
      present one gives each key's value, null where the key is missing. */
  function SizeOf(entry: Option<RawImageSize>): SizeFields
  {
    match entry
    case None => SizeFields(Blank, Blank, Blank)
    case Some(e) => SizeFields(FromOption(e.url), FromOption(e.height), FromOption(e.width))
  }

  function GetImageSizes(resp: ImageResponse): ImageSizes
  {
    ImageSizes(SizeOf(resp.small), SizeOf(resp.medium), SizeOf(resp.large))
  }

  /** Reads an entry back from its three keys. */
  function EntryOf(f: SizeFields): Option<RawImageSize>
  {
    if f.url.Blank? then None
    else Some(RawImageSize(OptionOf(f.url), OptionOf(f.height), OptionOf(f.width)))
  }

  function OptionOf<T>(f: Field<T>): Option<T>
  {
    match f
    case Value(x) => Some(x)
    case _ => None
  }

  /** The normalisation loses nothing: each entry, missing or present, and
      each key of a present entry, can be read back from the result, and the
      '' default appears exactly for the missing entries. */
  lemma GetImageSizesRoundTrip(resp: ImageResponse)
    ensures EntryOf(GetImageSizes(resp).small) == resp.small
    ensures EntryOf(GetImageSizes(resp).medium) == resp.medium
    ensures EntryOf(GetImageSizes(resp).large) == resp.large
    ensures GetImageSizes(resp).small.height.Blank? <==> resp.small.None?
    ensures GetImageSizes(resp).medium.height.Blank? <==> resp.medium.None?
    ensures GetImageSizes(resp).large.height.Blank? <==> resp.large.None?
  {
  }

  /** `str(...)` of a URL value: a null URL is stored as the text "None". */
  function UrlColumn(f: Field<string>): string
  {
    match f
    case Null => "None"
    case Blank => ""
    case Value(s) => s
  }

  /** `int(... or 0)` of a height or width: null and '' become 0. */
  function DimColumn(f: Field<int>): int
  {
    match f
    case Value(n) => if n != 0 then n else 0
    case _ => 0
  }

  function SizeColumns(f: SizeFields): ImageSize
  {
    ImageSize(UrlColumn(f.url), DimColumn(f.height), DimColumn(f.width))
  }

  /** Size s is what is stored for the lookup's entry: a missing entry gives
      an empty URL and zero height and width; a present entry gives its URL
      ("None" when the key is missing) and its height and width (0 when
      missing). */
  predicate StoredAs(entry: Option<RawImageSize>, s: ImageSize)
  {
    match entry
    case None => s == ImageSize("", 0, 0)
    case Some(e) =>
      s == ImageSize(if e.url.Some? then e.url.value else "None",
                     if e.height.Some? then e.height.value else 0,
                     if e.width.Some? then e.width.value else 0)
  }

  /** The Image row stored for item x from the lookup's answer: it names x,
      and each of its three sizes is the stored form of that entry of the
      answer. */
  function ImageRow(resp: ImageResponse, x: nat): (img: Image)
    ensures img.item == x
    ensures StoredAs(resp.small, img.small) && StoredAs(resp.medium, img.medium) && StoredAs(resp.large, img.large)
  {
    SizeColumnsDefaults(resp.small);
    SizeColumnsDefaults(resp.medium);
    SizeColumnsDefaults(resp.large);
    var sizes := GetImageSizes(resp);
    Image(x, SizeColumns(sizes.small), SizeColumns(sizes.medium), SizeColumns(sizes.large))
  }

  /** The stored columns of one size: a missing entry gives an empty URL and
      zero height and width; a present entry gives its URL ("None" when the
      key is missing) and its height and width (0 when missing). */
  lemma SizeColumnsDefaults(entry: Option<RawImageSize>)
    ensures entry.None? ==> SizeColumns(SizeOf(entry)) == ImageSize("", 0, 0)
    ensures entry.Some? ==>
              var e := entry.value;
              SizeColumns(SizeOf(entry)) ==
                ImageSize(if e.url.Some? then e.url.value else "None",
                          if e.height.Some? then e.height.value else 0,
                          if e.width.Some? then e.width.value else 0)
  {
  }

  /** The same for the three sizes of a stored image. */
  lemma ImageRowDefaults(resp: ImageResponse, x: nat)
    ensures ImageRow(resp, x).small == SizeColumns(SizeOf(resp.small))
    ensures ImageRow(resp, x).medium == SizeColumns(SizeOf(resp.medium))
    ensures ImageRow(resp, x).large == SizeColumns(SizeOf(resp.large))
    ensures resp.small.None? && resp.medium.None? && resp.large.None? ==>
              ImageRow(resp, x) == Image(x, ImageSize("", 0, 0), ImageSize("", 0, 0), ImageSize("", 0, 0))
  {
    SizeColumnsDefaults(resp.small);
    SizeColumnsDefaults(resp.medium);
    SizeColumnsDefaults(resp.large);
  }

  /** Item x has at least one image. */
  predicate HasImage(images: seq<Image>, x: nat)
  {
    exists j :: 0 <= j < |images| && images[j].item == x
  }

  /** The images table after the backfill has visited the best offers
      ids[..n]: the item of each gets an image unless it has one already. */
  function Backfill(images: seq<Image>, items: seq<Item>, offers: seq<Offer>, ids: seq<nat>,
                    imagesOf: Asin -> ImageResponse, n: nat): (r: seq<Image>)
    requires n <= |ids|
    requires forall t :: 0 <= t < |ids| ==> ids[t] < |offers| && offers[ids[t]].item < |items|
    ensures |images| <= |r|
    decreases n
  {
    if n == 0 then images
    else
      var before := Backfill(images, items, offers, ids, imagesOf, n - 1);
      var x := offers[ids[n - 1]].item;
      if HasImage(before, x) then before
      else before + [ImageRow(imagesOf(items[x].asin), x)]
  }

  /** Table r keeps the rows of table images, in place, and may add more. */
  predicate KeepsImages(images: seq<Image>, r: seq<Image>)
  {
    |images| <= |r| && forall j :: 0 <= j < |images| ==> r[j] == images[j]
  }

  /** The backfill only appends. */
  lemma {:induction false} BackfillKeeps(images: seq<Image>, items: seq<Item>, offers: seq<Offer>, ids: seq<nat>,
                                         imagesOf: Asin -> ImageResponse, n: nat)
    requires n <= |ids|
    requires forall t :: 0 <= t < |ids| ==> ids[t] < |offers| && offers[ids[t]].item < |items|
    ensures KeepsImages(images, Backfill(images, items, offers, ids, imagesOf, n))
    decreases n
  {
    if n > 0 {
      BackfillKeeps(images, items, offers, ids, imagesOf, n - 1);
    }
  }

  /** Once an item has an image, it keeps it. */
  lemma HasImagePrefix(images: seq<Image>, r: seq<Image>, x: nat)
    requires KeepsImages(images, r) && HasImage(images, x)
    ensures HasImage(r, x)
  {
    var j :| 0 <= j < |images| && images[j].item == x;
    assert r[j] == images[j];
  }

  /** After the backfill the item of every visited offer has an image. */
  lemma {:induction false} BackfillCovers(images: seq<Image>, items: seq<Item>, offers: seq<Offer>, ids: seq<nat>,
                                          imagesOf: Asin -> ImageResponse, n: nat, t: nat)
    requires n <= |ids| && t < n
    requires forall t :: 0 <= t < |ids| ==> ids[t] < |offers| && offers[ids[t]].item < |items|
    ensures HasImage(Backfill(images, items, offers, ids, imagesOf, n), offers[ids[t]].item)
    decreases n
  {
    var before := Backfill(images, items, offers, ids, imagesOf, n - 1);
    var r := Backfill(images, items, offers, ids, imagesOf, n);
    var x := offers[ids[n - 1]].item;
    if t < n - 1 {
      BackfillCovers(images, items, offers, ids, imagesOf, n - 1, t);
    }
    if !HasImage(before, x) {
      assert r[|before|].item == x;
    }
    if t < n - 1 && !HasImage(before, x) {
      assert KeepsImages(before, r);
      HasImagePrefix(before, r, offers[ids[t]].item);
    }
  }

  /** Each image of r past the images of the old table is the stored form
      of the lookup's answer for an item that had no image. */
  predicate AddsFreshImages(images: seq<Image>, r: seq<Image>, items: seq<Item>, imagesOf: Asin -> ImageResponse)
  {
    |images| <= |r|
    && forall j :: |images| <= j < |r| ==>
         r[j].item < |items| && !HasImage(images, r[j].item)
         && r[j] == ImageRow(imagesOf(items[r[j].item].asin), r[j].item)
  }

  /** No item has two of the images of r past the old table. */
  predicate AddsOncePerItem(images: seq<Image>, r: seq<Image>)
  {
    forall i, j :: |images| <= i < j < |r| ==> r[i].item != r[j].item
  }

  /** Each image the backfill adds is the stored form of the lookup's
      answer for an item that had no image, and no item gets two. */
  lemma {:induction false} BackfillAdds(images: seq<Image>, items: seq<Item>, offers: seq<Offer>, ids: seq<nat>,
                                        imagesOf: Asin -> ImageResponse, n: nat)
    requires n <= |ids|
    requires forall t :: 0 <= t < |ids| ==> ids[t] < |offers| && offers[ids[t]].item < |items|
    ensures AddsFreshImages(images, Backfill(images, items, offers, ids, imagesOf, n), items, imagesOf)
    ensures AddsOncePerItem(images, Backfill(images, items, offers, ids, imagesOf, n))
    decreases n
  {
    if n > 0 {
      BackfillAdds(images, items, offers, ids, imagesOf, n - 1);
      BackfillKeeps(images, items, offers, ids, imagesOf, n - 1);
      var before := Backfill(images, items, offers, ids, imagesOf, n - 1);
      var x := offers[ids[n - 1]].item;
      if !HasImage(before, x) {
        AddImageStep(images, before, items, imagesOf, x);
      }
    }
  }

  /** Appending the image of an item that has none keeps both properties. */
  lemma AddImageStep(images: seq<Image>, before: seq<Image>, items: seq<Item>, imagesOf: Asin -> ImageResponse, x: nat)
    requires KeepsImages(images, before)
    requires AddsFreshImages(images, before, items, imagesOf) && AddsOncePerItem(images, before)
    requires x < |items| && !HasImage(before, x)
    ensures AddsFreshImages(images, before + [ImageRow(imagesOf(items[x].asin), x)], items, imagesOf)
    ensures AddsOncePerItem(images, before + [ImageRow(imagesOf(items[x].asin), x)])
  {
    var r := before + [ImageRow(imagesOf(items[x].asin), x)];
    assert forall i :: |images| <= i < |before| ==> before[i].item != x;
    if HasImage(images, x) {
      HasImagePrefix(images, before, x);
    }
    assert forall j :: 0 <= j < |before| ==> r[j] == before[j];
  }
}
