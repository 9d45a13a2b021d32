/**
 * The pure side of the stock spider: mapping the colours of a product page
 * payload, with their sizes, to records. Unlike the prices spider it keeps
 * every colour, builds no photo URLs and requires the `sizes` key.
 */
module Stock {
  import opened Wrappers
  import opened Items
  import opened Payload
  import opened Sequences
  import Catalog

  /** A colour record of the stock spider: no image, and the sizes with their availability. */
  datatype StockColor = StockColor(
    id: int,
    name: string,
    price: nat,
    oldPrice: Option<nat>,
    originalPrice: Option<nat>,
    sizes: seq<SizeItem>)

  /**
   * `map_color`: the record, or the `KeyError` raised first; the keys are
   * read in the order of the dictionary literal, `sizes` last.
   */
  function MapColor(c: RawColor): Result<StockColor, KeyError> {
    if c.id.None? then Err(KeyError("id"))
    else if c.name.None? then Err(KeyError("name"))
    else if c.price.None? then Err(KeyError("price"))
    else if c.sizes.None? then Err(KeyError("sizes"))
    else match MapSizes(c.sizes.value)
      case Err(e) => Err(e)
      case Ok(sizes) => Ok(StockColor(c.id.value, c.name.value, c.price.value, c.oldPrice, c.originalPrice, sizes))
  }

  /** `map_colors`: the list comprehension over `map_color`; the first failure raises. */
  function MapColors(colors: seq<RawColor>): Result<seq<StockColor>, KeyError> {
    MapAll(MapColor, colors)
  }

  /** A payload the record is read from: the keys it reads, and no photos or product id. */
  function ColorPayload(x: StockColor): RawColor {
    RawColor(Some(x.id), Some(x.name), Some(x.price), x.oldPrice, x.originalPrice, None, None,
      Some(MapSeq(SizePayload, x.sizes)))
  }

  /** The sizes read back from their payloads. */
  lemma SizesRoundTrip(xs: seq<SizeItem>)
    ensures MapSizes(MapSeq(SizePayload, xs)) == Ok(xs)
  {
    forall x ensures MapSize(SizePayload(x)) == Ok(x) {
      MapSizeRoundTrip(SizePayload(x), x);
    }
    MapAllInverse(MapSize, SizePayload, xs);
  }

  /**
   * `map_color` copies what it reads: it maps a record's payload back to the
   * record; it succeeds exactly when the id, name, price and sizes are
   * present and every size maps, and names the first missing key otherwise.
   */
  lemma MapColorMeaning(c: RawColor, x: StockColor)
    ensures MapColor(ColorPayload(x)) == Ok(x)
    ensures MapColor(c).Ok? <==>
      c.id.Some? && c.name.Some? && c.price.Some? && c.sizes.Some? && MapSizes(c.sizes.value).Ok?
    ensures MapColor(c) == Ok(x) ==>
      && c.id == Some(x.id) && c.name == Some(x.name) && c.price == Some(x.price)
      && c.oldPrice == x.oldPrice && c.originalPrice == x.originalPrice
      && c.sizes.Some? && MapSizes(c.sizes.value) == Ok(x.sizes)
    ensures c.id.None? ==> MapColor(c) == Err(KeyError("id"))
    ensures c.id.Some? && c.name.Some? && c.price.Some? && c.sizes.None? ==> MapColor(c) == Err(KeyError("sizes"))
  {
    SizesRoundTrip(x.sizes);
  }

  /**
   * A colour payload without `sizes` is a `KeyError` for the stock spider,
   * while the prices spider maps it with no sizes.
   */
  lemma MissingSizesDiffer(c: RawColor)
    requires c.id.Some? && c.name.Some? && c.price.Some? && c.sizes.None?
    requires Catalog.MapColor(c).Ok?
    ensures MapColor(c) == Err(KeyError("sizes"))
    ensures Catalog.MapColor(c).value.sizes == []
  {
  }

  /**
   * `map_colors` keeps every colour, in order: it maps the payloads of
   * records back to those records, and fails exactly when some colour does.
   */
  lemma MapColorsRoundTrip(xs: seq<StockColor>, colors: seq<RawColor>)
    ensures MapColors(MapSeq(ColorPayload, xs)) == Ok(xs)
    ensures MapColors(colors).Ok? <==> forall k :: 0 <= k < |colors| ==> MapColor(colors[k]).Ok?
    ensures MapColors(colors).Ok? ==>
      && |MapColors(colors).value| == |colors|
      && forall k :: 0 <= k < |colors| ==> MapColor(colors[k]) == Ok(MapColors(colors).value[k])
  {
    forall x ensures MapColor(ColorPayload(x)) == Ok(x) {
      MapColorMeaning(ColorPayload(x), x);
    }
    MapAllInverse(MapColor, ColorPayload, xs);
    MapAllMeaning(MapColor, colors);
  }
}
