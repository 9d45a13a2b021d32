/**
 * The scraped JSON payload, as far as the spiders read it, and the size
 * mapping both spiders share. A key that may be missing is an `Option`; a
 * subscript `d['key']` on a missing key raises `KeyError`, modelled as an
 * `Err` naming the key.
 */
module Payload {
  import opened Wrappers
  import opened Items
  import opened Sequences

  /** The `KeyError` a subscript on a missing key raises. */
  datatype KeyError = KeyError(key: string)

  /** A photo of `xmedia`. */
  datatype RawPhoto = RawPhoto(path: Option<string>, name: Option<string>, timestamp: Option<string>)

  /** A size of a colour. */
  datatype RawSize = RawSize(
    id: Option<int>,
    name: Option<string>,
    availability: Option<string>,
    price: Option<nat>,
    oldPrice: Option<nat>,
    originalPrice: Option<nat>)

  /** A colour of a commercial component. */
  datatype RawColor = RawColor(
    id: Option<int>,
    name: Option<string>,
    price: Option<nat>,
    oldPrice: Option<nat>,
    originalPrice: Option<nat>,
    xmedia: Option<seq<RawPhoto>>,
    productId: Option<int>,
    sizes: Option<seq<RawSize>>)

  /** `map_size`: the size record, or the first of its mandatory keys that is missing. */
  function MapSize(s: RawSize): Result<SizeItem, KeyError> {
    if s.id.None? then Err(KeyError("id"))
    else if s.name.None? then Err(KeyError("name"))
    else if s.availability.None? then Err(KeyError("availability"))
    else if s.price.None? then Err(KeyError("price"))
    else Ok(SizeItem(s.id.value, s.name.value, s.availability.value, s.price.value, s.oldPrice, s.originalPrice))
  }

  /** The payload a size record is read from. */
  function SizePayload(x: SizeItem): RawSize {
    RawSize(Some(x.id), Some(x.name), Some(x.availability), Some(x.price), x.oldPrice, x.originalPrice)
  }

  /**
   * `map_size` copies every field: it maps a size's payload back to the
   * size, and whatever it maps was read from exactly that payload; it fails
   * exactly when a mandatory key is missing, naming the first one.
   */
  lemma MapSizeRoundTrip(s: RawSize, x: SizeItem)
    ensures MapSize(SizePayload(x)) == Ok(x)
    ensures MapSize(s) == Ok(x) <==> s == SizePayload(x)
    ensures MapSize(s).Err? <==> s.id.None? || s.name.None? || s.availability.None? || s.price.None?
    ensures MapSize(s).Err? && s.id.None? ==> MapSize(s).error == KeyError("id")
  {
  }

  /** `map_sizes`: the list comprehension over `map_size`; the first failure raises. */
  function MapSizes(sizes: seq<RawSize>): Result<seq<SizeItem>, KeyError> {
    MapAll(MapSize, sizes)
  }
}
