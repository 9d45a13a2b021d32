/**
 * The pure side of the prices spider: flattening the category tree,
 * normalising category names, building product and photo URLs, and mapping
 * the colours of a commercial component to the records the pipeline stores.
 */
module Catalog {
  import opened Wrappers
  import opened Strings
  import opened Items
  import opened Payload
  import opened Sequences

  // ---------------------------------------------------------------------------
  // The category tree.

  /** A node of the `categories` payload. */
  datatype Category = Category(
    id: int,
    redirectCategoryId: Option<int>,
    name: string,
    layout: string,
    subcategories: seq<Category>)

  /** A category to crawl: the id to request and the formatted name. */
  datatype CategoryRef = CategoryRef(id: int, name: string)

  /** The walk descends into a subcategory whose layout mentions products or marketing. */
  predicate Descends(sub: Category) {
    Contains(sub.layout, "products") || Contains(sub.layout, "marketing")
  }

  /** The entry of a visited category: its redirect id when it has one, and its formatted name. */
  function RefOf(c: Category): CategoryRef {
    CategoryRef(c.redirectCategoryId.GetOr(c.id), FormatCategoryName(c.name))
  }

  /** The categories `process_category` visits from `c`, in the order it appends them: subtrees first, `c` last. */
  function Walk(c: Category): seq<Category>
    decreases c, 1
  {
    WalkAll(c.subcategories) + [c]
  }

  /** The categories visited from the subcategories `subs`, in order. */
  function WalkAll(subs: seq<Category>): seq<Category>
    decreases subs, 0
  {
    if subs == [] then []
    else
      var last := subs[|subs| - 1];
      WalkAll(subs[..|subs| - 1]) + (if Descends(last) then Walk(last) else [])
  }

  /** One more subcategory extends the walk by that subcategory's walk, if it is descended into. */
  lemma WalkAllStep(subs: seq<Category>, i: nat)
    requires i < |subs|
    ensures WalkAll(subs[..i + 1]) == WalkAll(subs[..i]) + (if Descends(subs[i]) then Walk(subs[i]) else [])
  {
    assert subs[..i + 1][..i] == subs[..i];
  }

  /** `n` is reached from `c` through subcategories the walk descends into. */
  ghost predicate InTree(n: Category, c: Category)
    decreases c
  {
    n == c || exists k :: 0 <= k < |c.subcategories| && Descends(c.subcategories[k]) && InTree(n, c.subcategories[k])
  }

  /** `n` is reached from one of `subs` that the walk descends into. */
  ghost predicate InForest(n: Category, subs: seq<Category>) {
    exists k :: 0 <= k < |subs| && Descends(subs[k]) && InTree(n, subs[k])
  }

  /**
   * `process_category(c, categories)`: every category reached is appended
   * to the accumulator, with its entry, after its subtrees (the loop's
   * `else` always runs, as the loop has no `break`).
   */
  method ProcessCategory(c: Category, categories: seq<CategoryRef>) returns (r: seq<CategoryRef>)
    ensures r == categories + MapSeq(RefOf, Walk(c))
    decreases c
  {
    r := categories;
    var subs := c.subcategories;
    var i := 0;
    while i < |subs|
      invariant 0 <= i <= |subs|
      invariant r == categories + MapSeq(RefOf, WalkAll(subs[..i]))
    {
      var sub := subs[i];
      ghost var done := WalkAll(subs[..i]);
      WalkAllStep(subs, i);
      if Descends(sub) {
        r := ProcessCategory(sub, r);
        MapSeqAppend(RefOf, done, Walk(sub));
        AppendAssoc(categories, MapSeq(RefOf, done), MapSeq(RefOf, Walk(sub)));
        assert WalkAll(subs[..i + 1]) == done + Walk(sub);
      } else {
        assert WalkAll(subs[..i + 1]) == done + [];
        assert done + [] == done;
      }
      i := i + 1;
    }
    assert subs[..i] == subs;
    MapSeqSnoc(RefOf, WalkAll(subs), c);
    AppendAssoc(categories, MapSeq(RefOf, WalkAll(subs)), [RefOf(c)]);
    r := r + [RefOf(c)];
  }

  /**
   * The walk visits exactly the categories reachable through descended
   * subcategories, and visits the starting category last.
   */
  lemma {:induction false} WalkContents(c: Category)
    ensures forall n :: n in Walk(c) <==> InTree(n, c)
    ensures Walk(c)[|Walk(c)| - 1] == c
    decreases c, 1
  {
    WalkAllContents(c.subcategories);
  }

  /** The subcategory walk visits exactly the categories reachable from a descended subcategory. */
  lemma {:induction false} WalkAllContents(subs: seq<Category>)
    ensures forall n :: n in WalkAll(subs) <==> InForest(n, subs)
    decreases subs, 0
  {
    if subs != [] {
      var m := |subs| - 1;
      var front, last := subs[..m], subs[m];
      WalkAllContents(front);
      WalkContents(last);
      ForestSplit(subs);
    }
  }

  /** Being reached from `subs` is being reached from all but its last, or from its last. */
  lemma ForestSplit(subs: seq<Category>)
    requires |subs| > 0
    ensures var m := |subs| - 1;
      forall n :: InForest(n, subs) <==> InForest(n, subs[..m]) || (Descends(subs[m]) && InTree(n, subs[m]))
  {
    var m := |subs| - 1;
    forall n | InForest(n, subs[..m]) ensures InForest(n, subs) {
      var k :| 0 <= k < m && Descends(subs[..m][k]) && InTree(n, subs[..m][k]);
      assert subs[k] == subs[..m][k];
    }
    forall n | InForest(n, subs) && !(Descends(subs[m]) && InTree(n, subs[m])) ensures InForest(n, subs[..m]) {
      var k :| 0 <= k < |subs| && Descends(subs[k]) && InTree(n, subs[k]);
      assert subs[..m][k] == subs[k];
    }
  }

  /**
   * What `process_category(c, [])` collects: an entry for each category
   * reached from `c`, and no other, with the entry of `c` itself last.
   */
  lemma ProcessedEntries(c: Category)
    ensures forall e :: e in MapSeq(RefOf, Walk(c)) <==> exists n :: InTree(n, c) && e == RefOf(n)
    ensures MapSeq(RefOf, Walk(c))[|Walk(c)| - 1] == RefOf(c)
  {
    WalkContents(c);
    MapSeqMembers(RefOf, Walk(c));
    MapSeqAt(RefOf, Walk(c), |Walk(c)| - 1);
  }

  /** A category is visited alone exactly when the walk descends into none of its subcategories. */
  lemma {:induction false} WalkLeaf(c: Category)
    ensures Walk(c) == [c] <==> forall k :: 0 <= k < |c.subcategories| ==> !Descends(c.subcategories[k])
  {
    WalkAllEmpty(c.subcategories);
  }

  /** No subcategory is walked exactly when none is descended into. */
  lemma {:induction false} WalkAllEmpty(subs: seq<Category>)
    ensures WalkAll(subs) == [] <==> forall k :: 0 <= k < |subs| ==> !Descends(subs[k])
  {
    if subs != [] {
      var m := |subs| - 1;
      WalkAllEmpty(subs[..m]);
      assert forall k :: 0 <= k < m ==> subs[..m][k] == subs[k];
    }
  }

  // ---------------------------------------------------------------------------
  // Category names.

  /** The no-break space U+00A0. */
  const NoBreakSpace: char := 0xa0 as char

  /** A lower-cased name with its no-break spaces turned into spaces. */
  function UnbreakSpaces(n: string): string {
    if Contains(n, [NoBreakSpace]) then Replace(n, [NoBreakSpace], " ") else n
  }

  /**
   * `formatting_category_name`: lower-case the name; a name mentioning
   * "zara" loses every "zara" and its surrounding whitespace; otherwise
   * " | " becomes a space, else spaces become underscores, else hyphens do.
   */
  function FormatCategoryName(name: string): string {
    var n := Lower(name);
    if Contains(n, "zara") then Strip(Replace(n, "zara", "")) else Reformat(UnbreakSpaces(n))
  }

  /** The rewriting of a name without "zara": the first of " | ", " " and "-" it contains decides. */
  function Reformat(n: string): string {
    if Contains(n, " | ") then Join(Split(n, " | "), " ")
    else if Contains(n, " ") then Replace(n, " ", "_")
    else if Contains(n, "-") then Replace(n, "-", "_")
    else n
  }

  /**
   * A formatted name has no ASCII upper-case letter; one that mentioned
   * "zara" has no surrounding whitespace. Any other name first has its
   * no-break spaces turned into spaces, giving `n`; then " | " becomes a
   * space, or else every space becomes an underscore, or else every hyphen
   * does, or else `n` is returned as it is.
   */
  lemma FormatCategoryNameMeaning(name: string, c: char)
    requires 'A' <= c <= 'Z'
    ensures Lacks(FormatCategoryName(name), c)
    ensures var r := FormatCategoryName(name);
      Contains(Lower(name), "zara") ==> r == [] || (!IsSpace(r[0]) && !IsSpace(r[|r| - 1]))
    ensures var n := UnbreakSpaces(Lower(name));
      !Contains(Lower(name), "zara") ==> CharRewritten(Lower(name), NoBreakSpace, ' ', n) && Lacks(n, NoBreakSpace)
    ensures var r, n := FormatCategoryName(name), UnbreakSpaces(Lower(name));
      && (!Contains(Lower(name), "zara") ==> Lacks(r, NoBreakSpace))
      && (!Contains(Lower(name), "zara") && Contains(n, " | ") ==> r == Replace(n, " | ", " "))
      && (!Contains(Lower(name), "zara") && !Contains(n, " | ") ==> Lacks(r, ' '))
      && (!Contains(Lower(name), "zara") && !Contains(n, " | ") && Contains(n, " ") ==> CharRewritten(n, ' ', '_', r))
      && (!Contains(Lower(name), "zara") && !Contains(n, " | ") && !Contains(n, " ") ==>
            Lacks(r, '-') && (if Contains(n, "-") then CharRewritten(n, '-', '_', r) else r == n))
  {
    var l := Lower(name);
    LowerLacksUpper(name, c);
    if Contains(l, "zara") {
      StrippedLacks(Replace(l, "zara", ""), c) by {
        ReplaceKeepsLack(l, "zara", "", c);
      }
    } else {
      UnbreakSpacesMeaning(l, c);
      ReformatMeaning(UnbreakSpaces(l), c);
    }
  }

  /** Stripping keeps a character out. */
  lemma StrippedLacks(t: string, c: char)
    requires Lacks(t, c)
    ensures Lacks(Strip(t), c)
  {
    var i, j :| 0 <= i <= j <= |t| && Strip(t) == t[i..j];
    SliceLacks(t, i, j, c);
  }

  /**
   * Unbreaking spaces turns each no-break space into a space and keeps
   * every other character, so no no-break space is left and no character
   * other than a space is added.
   */
  lemma UnbreakSpacesMeaning(n: string, c: char)
    requires c != ' '
    ensures CharRewritten(n, NoBreakSpace, ' ', UnbreakSpaces(n))
    ensures Lacks(UnbreakSpaces(n), NoBreakSpace)
    ensures Lacks(n, c) ==> Lacks(UnbreakSpaces(n), c)
  {
    if Contains(n, [NoBreakSpace]) {
      ReplaceCharAt(n, NoBreakSpace, ' ');
      assert " " == [' '];
    } else {
      NotContainsLacks(n, NoBreakSpace);
    }
  }

  /**
   * The rewriting turns " | " into a space when there is one; otherwise it
   * turns every space into an underscore when there is one; otherwise every
   * hyphen; a name with none of the three is returned unchanged. It keeps
   * out every character other than a space or an underscore.
   */
  lemma ReformatMeaning(n: string, c: char)
    requires c != ' ' && c != '_' && Lacks(n, c) && Lacks(n, NoBreakSpace)
    ensures Lacks(Reformat(n), c) && Lacks(Reformat(n), NoBreakSpace)
    ensures Contains(n, " | ") ==> Reformat(n) == Replace(n, " | ", " ")
    ensures !Contains(n, " | ") ==> Lacks(Reformat(n), ' ')
    ensures !Contains(n, " | ") && Contains(n, " ") ==> CharRewritten(n, ' ', '_', Reformat(n))
    ensures !Contains(n, " | ") && !Contains(n, " ") ==>
      Lacks(Reformat(n), '-') && (if Contains(n, "-") then CharRewritten(n, '-', '_', Reformat(n)) else Reformat(n) == n)
  {
    if Contains(n, " | ") {
      JoinSplitIsReplace(n, " | ", " ");
      ReplaceKeepsLack(n, " | ", " ", c);
      ReplaceKeepsLack(n, " | ", " ", NoBreakSpace);
    } else if Contains(n, " ") {
      ReplaceCharAt(n, ' ', '_');
      assert " " == [' '] && "_" == ['_'];
    } else {
      NotContainsLacks(n, ' ');
      if Contains(n, "-") {
        ReplaceCharAt(n, '-', '_');
        assert "-" == ['-'] && "_" == ['_'];
      } else {
        NotContainsLacks(n, '-');
      }
    }
  }

  // ---------------------------------------------------------------------------
  // Product page URLs.

  /** The shop's country and language codes (`COUNTRY_CODE`, `LANGUAGE_CODE`). */
  datatype Site = Site(country: string, language: string)

  /** The codes used when the environment sets none. */
  const DefaultSite := Site("pl", "pl")

  /** The `seo` block of a commercial component. */
  datatype Seo = Seo(keyword: Option<string>, seoProductId: Option<string>, discernProductId: Option<string>)

  /** Every product page URL starts with this. */
  function PagePrefix(site: Site): string {
    "https://www.zara.com/" + site.country + "/" + site.language + "/"
  }

  /**
   * `make_url`: no URL without a non-empty keyword; otherwise the product
   * page of the keyword, the two product ids and the category id, or the
   * `KeyError` of a missing id.
   */
  function MakeUrl(site: Site, seo: Seo, categoryId: int): Result<Option<string>, KeyError> {
    if seo.keyword.None? || seo.keyword.value == "" then Ok(None)
    else if seo.seoProductId.None? then Err(KeyError("seoProductId"))
    else if seo.discernProductId.None? then Err(KeyError("discernProductId"))
    else
      var ids := "-p" + seo.seoProductId.value + ".html?v1=" + seo.discernProductId.value + "&v2=";
      Ok(Some(PagePrefix(site) + seo.keyword.value + ids + IntText(categoryId)))
  }

  /**
   * A URL is made exactly for a non-empty keyword with both ids present, and
   * a missing `seoProductId` is reported before a missing `discernProductId`.
   * The URL is, in this order, the site's prefix, the keyword, "-p" with the
   * SEO product id, ".html?v1=" with the discern product id, "&v2=", and the
   * decimal category id.
   */
  lemma MakeUrlMeaning(site: Site, seo: Seo, categoryId: int)
    ensures MakeUrl(site, seo, categoryId) == Ok(None) <==> seo.keyword.None? || seo.keyword.value == ""
    ensures MakeUrl(site, seo, categoryId).Err? <==>
      seo.keyword.Some? && seo.keyword.value != "" && (seo.seoProductId.None? || seo.discernProductId.None?)
    ensures MakeUrl(site, seo, categoryId).Err? ==>
      MakeUrl(site, seo, categoryId).error == KeyError(if seo.seoProductId.None? then "seoProductId" else "discernProductId")
    ensures MakeUrl(site, seo, categoryId) != Ok(None) && MakeUrl(site, seo, categoryId).Ok? ==>
      var u, p, k := MakeUrl(site, seo, categoryId).value.value, PagePrefix(site), seo.keyword.value;
      var mid := "-p" + seo.seoProductId.value + ".html?v1=" + seo.discernProductId.value + "&v2=";
      var c := IntText(categoryId);
      && |u| == |p| + |k| + |mid| + |c|
      && u[..|p|] == p
      && u[|p|..|p| + |k|] == k
      && u[|p| + |k|..|p| + |k| + |mid|] == mid
      && u[|u| - |c|..] == c
  {
    if seo.keyword.Some? && seo.keyword.value != "" && seo.seoProductId.Some? && seo.discernProductId.Some? {
      var mid := "-p" + seo.seoProductId.value + ".html?v1=" + seo.discernProductId.value + "&v2=";
      PartsOfFour(PagePrefix(site), seo.keyword.value, mid, IntText(categoryId));
    }
  }

  // ---------------------------------------------------------------------------
  // Photo URLs.

  /** The URL of one photo, or the `KeyError` of its first missing field. */
  function PhotoUrl(p: RawPhoto): (r: Result<string, KeyError>)
    ensures r.Ok? ==> r.value != ""
  {
    if p.path.None? then Err(KeyError("path"))
    else if p.name.None? then Err(KeyError("name"))
    else if p.timestamp.None? then Err(KeyError("timestamp"))
    else Ok("https://static.zara.net/photos//" + p.path.value + "/w/750/" + p.name.value + ".jpg?ts=" + p.timestamp.value)
  }

  /** The URLs of `photos`, in order; the first photo that fails raises. */
  function PhotoUrls(photos: seq<RawPhoto>): (r: Result<seq<string>, KeyError>)
    ensures r.Ok? ==> |r.value| == |photos|
  {
    if photos == [] then Ok([])
    else match PhotoUrls(photos[..|photos| - 1])
      case Err(e) => Err(e)
      case Ok(urls) =>
        match PhotoUrl(photos[|photos| - 1])
        case Err(e) => Err(e)
        case Ok(u) => Ok(urls + [u])
  }

  /** The value of `make_photo_urls(photos)`: the URLs joined with ", ". */
  function JoinedPhotoUrls(photos: seq<RawPhoto>): Result<string, KeyError> {
    match PhotoUrls(photos)
    case Err(e) => Err(e)
    case Ok(urls) => Ok(Join(urls, ListSeparator))
  }

  /** Once a prefix of the photos fails, the whole list fails the same way. */
  lemma {:induction false} PhotoUrlsFailureSticks(photos: seq<RawPhoto>, i: nat)
    requires i <= |photos| && PhotoUrls(photos[..i]).Err?
    ensures PhotoUrls(photos) == PhotoUrls(photos[..i])
    decreases |photos| - i
  {
    if i < |photos| {
      assert photos[..i + 1][..i] == photos[..i];
      PhotoUrlsFailureSticks(photos, i + 1);
    } else {
      assert photos[..i] == photos;
    }
  }

  /**
   * The URLs are made exactly when every photo has its three fields, and
   * then the `k`-th URL is the `k`-th photo's.
   */
  lemma {:induction false} PhotoUrlsMeaning(photos: seq<RawPhoto>)
    ensures PhotoUrls(photos).Ok? <==> forall k :: 0 <= k < |photos| ==> PhotoUrl(photos[k]).Ok?
    ensures PhotoUrls(photos).Ok? ==> forall k :: 0 <= k < |photos| ==> PhotoUrls(photos).value[k] == PhotoUrl(photos[k]).value
  {
    if photos != [] {
      var m := |photos| - 1;
      var front := photos[..m];
      PhotoUrlsMeaning(front);
      assert forall k :: 0 <= k < m ==> front[k] == photos[k];
    }
  }

  /** A photo whose fields have no comma gives a URL without ", ". */
  lemma PhotoUrlHasNoSeparator(p: RawPhoto)
    requires PhotoUrl(p).Ok?
    requires Lacks(p.path.value, ',') && Lacks(p.name.value, ',') && Lacks(p.timestamp.value, ',')
    ensures !Contains(PhotoUrl(p).value, ListSeparator)
  {
    LacksNotContains(PhotoUrl(p).value, ListSeparator);
  }

  /**
   * Splitting the stored photo list on ", " (as the report does) gives the
   * URLs back when there is at least one photo and no field has a comma;
   * with no photo at all it gives a single empty URL.
   */
  lemma PhotoUrlsSplitBack(photos: seq<RawPhoto>)
    requires PhotoUrls(photos).Ok?
    requires forall k :: 0 <= k < |photos| ==>
      Lacks(photos[k].path.GetOr(""), ',') && Lacks(photos[k].name.GetOr(""), ',') && Lacks(photos[k].timestamp.GetOr(""), ',')
    ensures photos != [] ==> Split(JoinedPhotoUrls(photos).value, ListSeparator) == PhotoUrls(photos).value
    ensures photos == [] ==> Split(JoinedPhotoUrls(photos).value, ListSeparator) == [""]
  {
    var urls := PhotoUrls(photos).value;
    PhotoUrlsMeaning(photos);
    if photos != [] {
      forall k | 0 <= k < |urls| ensures !Contains(urls[k], ListSeparator) {
        PhotoUrlHasNoSeparator(photos[k]);
      }
      SplitJoin(urls);
    } else {
      SplitEmpty(ListSeparator);
    }
  }

  /** `make_photo_urls`: builds the URL list photo by photo, then joins it with ", ". */
  method MakePhotoUrls(photos: seq<RawPhoto>) returns (r: Result<string, KeyError>)
    ensures r == JoinedPhotoUrls(photos)
  {
    var photosList: seq<string> := [];
    var i := 0;
    while i < |photos|
      invariant 0 <= i <= |photos|
      invariant PhotoUrls(photos[..i]) == Ok(photosList)
    {
      var photo := photos[i];
      assert photos[..i + 1][..i] == photos[..i];
      if photo.path.None? || photo.name.None? || photo.timestamp.None? {
        var e := PhotoUrl(photo).error;
        PhotoUrlsFailureSticks(photos, i + 1);
        return Err(e);
      }
      var photoStr := "https://static.zara.net/photos//" + photo.path.value + "/w/750/" + photo.name.value
        + ".jpg?ts=" + photo.timestamp.value;
      photosList := photosList + [photoStr];
      i := i + 1;
    }
    assert photos[..i] == photos;
    r := Ok(Join(photosList, ListSeparator));
  }

  // ---------------------------------------------------------------------------
  // Colours.

  /** The colour passes the filter of `map_colors`: name, price, photos and product id all truthy. */
  predicate Listed(c: RawColor) {
    && c.name.Some? && c.name.value != ""
    && c.price.Some? && c.price.value != 0
    && c.xmedia.Some? && c.xmedia.value != []
    && c.productId.Some? && c.productId.value != 0
  }

  /**
   * `map_color`: the colour record, with the joined photo URLs as its image
   * and its sizes (none when the key is missing), or the `KeyError` raised
   * first.
   */
  function MapColor(c: RawColor): Result<ColorItem, KeyError> {
    if c.id.None? then Err(KeyError("id"))
    else if c.name.None? then Err(KeyError("name"))
    else if c.price.None? then Err(KeyError("price"))
    else if c.xmedia.None? then Err(KeyError("xmedia"))
    else match JoinedPhotoUrls(c.xmedia.value)
      case Err(e) => Err(e)
      case Ok(image) =>
        match MapSizes(c.sizes.GetOr([]))
        case Err(e) => Err(e)
        case Ok(sizes) => Ok(ColorItem(c.id.value, c.name.value, c.price.value, c.oldPrice, c.originalPrice, image, sizes))
  }

  /**
   * A listed colour maps exactly when it has an id, every photo has its
   * fields and every size maps; the record copies the colour's fields, its
   * image is the joined photo URLs and its sizes are the mapped sizes, so a
   * colour without sizes gets none.
   */
  lemma MapColorMeaning(c: RawColor)
    requires Listed(c)
    ensures MapColor(c).Ok? <==> c.id.Some? && PhotoUrls(c.xmedia.value).Ok? && MapSizes(c.sizes.GetOr([])).Ok?
    ensures MapColor(c).Ok? ==>
      var x := MapColor(c).value;
      && x.id == c.id.value && x.name == c.name.value && x.price == c.price.value
      && x.oldPrice == c.oldPrice && x.originalPrice == c.originalPrice
      && x.name != "" && x.price > 0 && x.image != ""
      && x.image == JoinedPhotoUrls(c.xmedia.value).value
      && MapSizes(c.sizes.GetOr([])) == Ok(x.sizes)
      && |x.sizes| == |c.sizes.GetOr([])|
  {
    var photos := c.xmedia.value;
    if PhotoUrls(photos).Ok? {
      var urls := PhotoUrls(photos).value;
      assert urls[0] != "" by {
        PhotoUrlsMeaning(photos);
      }
      JoinNonEmpty(urls);
    }
  }

  /** Joining a list whose first element is non-empty gives a non-empty string. */
  lemma JoinNonEmpty(xs: seq<string>)
    requires |xs| > 0 && xs[0] != ""
    ensures Join(xs, ListSeparator) != ""
  {
  }

  /** The colours `map_colors` keeps, in order. */
  function ListedColors(colors: seq<RawColor>): (r: seq<RawColor>)
    ensures |r| <= |colors|
    ensures forall k :: 0 <= k < |r| ==> Listed(r[k])
  {
    if colors == [] then []
    else
      var last := colors[|colors| - 1];
      ListedColors(colors[..|colors| - 1]) + (if Listed(last) then [last] else [])
  }

  /** The positions in `colors` of the colours the filter keeps, in order. */
  function ListedPositions(colors: seq<RawColor>): seq<nat> {
    if colors == [] then []
    else
      var n := |colors| - 1;
      ListedPositions(colors[..n]) + (if Listed(colors[n]) then [n] else [])
  }

  /**
   * The filter of `map_colors` keeps exactly the listed colours, in their
   * order: the colours at the positions of listed colours, and at no other.
   */
  lemma {:induction false} ListedColorsComplete(colors: seq<RawColor>)
    ensures SelectedAt(colors, ListedPositions(colors), ListedColors(colors))
    ensures forall i :: 0 <= i < |colors| ==> (i in ListedPositions(colors) <==> Listed(colors[i]))
  {
    if colors != [] {
      var n := |colors| - 1;
      var front := colors[..n];
      ListedColorsComplete(front);
      var p, l := ListedPositions(front), ListedColors(front);
      var p', l' := ListedPositions(colors), ListedColors(colors);
      var kept := Listed(colors[n]);
      assert p' == p + (if kept then [n] else []);
      assert l' == l + (if kept then [colors[n]] else []);
      forall k | 0 <= k < |p| ensures p[k] < n && l[k] == colors[p[k]] {
        assert front[p[k]] == colors[p[k]];
      }
      forall i | 0 <= i < |colors| ensures i in p' <==> Listed(colors[i]) {
        if i < n {
          assert front[i] == colors[i];
          assert i in p' <==> i in p;
        } else {
          assert n !in p;
        }
      }
    }
  }

  /** The value of `map_colors(colors)`: the listed colours mapped; the first failure raises. */
  function MappedColors(colors: seq<RawColor>): (r: Result<seq<ColorItem>, KeyError>)
  {
    if colors == [] then Ok([])
    else match MappedColors(colors[..|colors| - 1])
      case Err(e) => Err(e)
      case Ok(items) =>
        var last := colors[|colors| - 1];
        if !Listed(last) then Ok(items)
        else match MapColor(last)
          case Err(e) => Err(e)
          case Ok(x) => Ok(items + [x])
  }

  /**
   * `map_colors` drops the unlisted colours and maps the others in order:
   * it succeeds exactly when every listed colour maps, and then its `k`-th
   * record is that of the `k`-th listed colour.
   */
  lemma {:induction false} MappedColorsMeaning(colors: seq<RawColor>)
    ensures MappedColors(colors).Ok? <==> AllMap(ListedColors(colors))
    ensures MappedColors(colors).Ok? ==> MapsTo(ListedColors(colors), MappedColors(colors).value)
  {
    if colors != [] {
      var m := |colors| - 1;
      var front, last := colors[..m], colors[m];
      MappedColorsMeaning(front);
      var lf := ListedColors(front);
      if Listed(last) {
        assert ListedColors(colors) == lf + [last];
        AllMapAppend(lf, last);
        if MappedColors(front).Ok? && MapColor(last).Ok? {
          MapsToAppend(lf, last, MappedColors(front).value, MapColor(last).value);
        }
      } else {
        assert ListedColors(colors) == lf + [];
        assert lf + [] == lf;
      }
    }
  }

  /** Every colour of `l` maps. */
  predicate AllMap(l: seq<RawColor>) {
    forall k :: 0 <= k < |l| ==> MapColor(l[k]).Ok?
  }

  /** `items` are the records of the colours `l`, one by one. */
  predicate MapsTo(l: seq<RawColor>, items: seq<ColorItem>) {
    |items| == |l| && forall k :: 0 <= k < |l| ==> MapColor(l[k]) == Ok(items[k])
  }

  /** Every colour of `l + [c]` maps exactly when every colour of `l` and `c` do. */
  lemma AllMapAppend(l: seq<RawColor>, c: RawColor)
    ensures AllMap(l + [c]) <==> AllMap(l) && MapColor(c).Ok?
  {
    assert forall k :: 0 <= k < |l| ==> (l + [c])[k] == l[k];
    assert (l + [c])[|l|] == c;
  }

  /** Records of `l` followed by the record of `c` are the records of `l + [c]`. */
  lemma MapsToAppend(l: seq<RawColor>, c: RawColor, items: seq<ColorItem>, x: ColorItem)
    requires MapsTo(l, items) && MapColor(c) == Ok(x)
    ensures MapsTo(l + [c], items + [x])
  {
    assert forall k :: 0 <= k < |l| ==> (l + [c])[k] == l[k] && (items + [x])[k] == items[k];
  }

  /** Once a prefix of the colours fails, the whole list fails the same way. */
  lemma {:induction false} MappedColorsFailureSticks(colors: seq<RawColor>, i: nat)
    requires i <= |colors| && MappedColors(colors[..i]).Err?
    ensures MappedColors(colors) == MappedColors(colors[..i])
    decreases |colors| - i
  {
    if i < |colors| {
      assert colors[..i + 1][..i] == colors[..i];
      MappedColorsFailureSticks(colors, i + 1);
    } else {
      assert colors[..i] == colors;
    }
  }

  /** `map_colors`: skips the colours the filter rejects and appends the mapping of the others. */
  method MapColors(colors: seq<RawColor>) returns (r: Result<seq<ColorItem>, KeyError>)
    ensures r == MappedColors(colors)
  {
    var items: seq<ColorItem> := [];
    var i := 0;
    while i < |colors|
      invariant 0 <= i <= |colors|
      invariant MappedColors(colors[..i]) == Ok(items)
    {
      var color := colors[i];
      assert colors[..i + 1][..i] == colors[..i];
      if Listed(color) {
        var item := MapColor(color);
        if item.Err? {
          MappedColorsFailureSticks(colors, i + 1);
          return Err(item.error);
        }
        items := items + [item.value];
      }
      i := i + 1;
    }
    assert colors[..i] == colors;
    r := Ok(items);
  }
}
