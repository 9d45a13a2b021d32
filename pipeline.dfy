/**
 * The item pipeline: an object holding the three tables, whose methods look
 * rows up, create them and append price traces in place. Each method is
 * proved to change the tables exactly as the functions of `Ingestion` say,
 * so the lemmas proved there (idempotence, append-only history, the append
 * condition) hold of the pipeline too.
 */
module Pipelines {
  import opened Wrappers
  import opened Items
  import opened Ingestion

  class ZaraTrackerPipeline {
    var products: seq<Product>
    var colors: seq<Color>
    var traces: seq<PriceTrace>
    var tick: nat

    /** The database the tables currently hold. */
    function State(): Db
      reads this
    {
      Db(products, colors, traces, tick)
    }

    ghost predicate Valid()
      reads this
    {
      Wf(State())
    }

    /** Connecting to the database: the tables hold what earlier runs stored. */
    constructor (stored: Db)
      requires Wf(stored)
      ensures Valid() && State() == stored
    {
      products := stored.products;
      colors := stored.colors;
      traces := stored.traces;
      tick := stored.tick;
    }

    /** `Product.select().where(zara_id == ...)`: the first product row with this id. */
    method FindProductRow(zaraId: int) returns (r: Option<nat>)
      ensures r == FindProduct(products, zaraId)
    {
      var i := 0;
      while i < |products| && products[i].zaraId != zaraId
        invariant 0 <= i <= |products|
        invariant forall j :: 0 <= j < i ==> products[j].zaraId != zaraId
      {
        i := i + 1;
      }
      r := if i < |products| then Some(i) else None;
    }

    /** `Color.select().where(zara_id == ..., product == ...)`: the first colour row with this key. */
    method FindColorRow(zaraId: int, pid: nat) returns (r: Option<nat>)
      ensures r == FindColor(colors, zaraId, pid)
    {
      var i := 0;
      while i < |colors| && !IsColorKey(colors[i], zaraId, pid)
        invariant 0 <= i <= |colors|
        invariant forall j :: 0 <= j < i ==> !IsColorKey(colors[j], zaraId, pid)
      {
        i := i + 1;
      }
      r := if i < |colors| then Some(i) else None;
    }

    /** The newest trace of colour `cid`: a scan from the most recent insertion backwards. */
    method LatestTrace(cid: nat) returns (r: Option<PriceTrace>)
      ensures r == Latest(traces, cid)
    {
      var i := |traces|;
      assert traces[..i] == traces;
      while i > 0 && traces[i - 1].color != cid
        invariant 0 <= i <= |traces|
        invariant History(traces[..i], cid) == History(traces, cid)
      {
        assert traces[..i][..i - 1] == traces[..i - 1];
        i := i - 1;
      }
      if i == 0 {
        r := None;
      } else {
        assert traces[..i][..i - 1] == traces[..i - 1];
        r := Some(traces[i - 1]);
      }
    }

    /** `Product.get_or_create(zara_id=item.id, defaults=...)`. */
    method GetOrCreateProduct(item: Item, today: Date) returns (pid: nat, created: bool)
      requires Valid()
      modifies this
      ensures Valid()
      ensures Resolved(State(), pid, created) == ResolveProduct(old(State()), item, today)
    {
      ResolveProductWf(State(), item, today);
      var found := FindProductRow(item.id);
      if found.Some? {
        pid, created := found.value, false;
      } else {
        products := products + [NewProduct(item, Stamp(tick, today))];
        tick := tick + 1;
        pid, created := |products| - 1, true;
      }
    }

    /** `Color.get_or_create(zara_id=c.id, product=pid, defaults=...)`. */
    method GetOrCreateColor(pid: nat, c: ColorItem) returns (cid: nat, created: bool)
      requires Valid() && pid < |products|
      modifies this
      ensures Valid()
      ensures Resolved(State(), cid, created) == ResolveColor(old(State()), pid, c)
    {
      ResolveColorWf(State(), pid, c);
      var found := FindColorRow(c.id, pid);
      if found.Some? {
        cid, created := found.value, false;
      } else {
        colors := colors + [NewColor(pid, c)];
        cid, created := |colors| - 1, true;
      }
    }

    /** `ColorPriceTrace.create(color=cid, ...)`: a trace appended with the next tick. */
    method CreateTrace(cid: nat, c: ColorItem, today: Date)
      requires Valid() && cid < |colors|
      modifies this
      ensures Valid()
      ensures State() == old(State()).(traces := old(traces) + [NewTrace(cid, c, Stamp(old(tick), today))], tick := old(tick) + 1)
    {
      AppendTraceWf(State(), NewTrace(cid, c, Stamp(tick, today)));
      traces := traces + [NewTrace(cid, c, Stamp(tick, today))];
      tick := tick + 1;
    }

    /** One iteration of the loop of `store_colors`. */
    method StoreColor(pid: nat, c: ColorItem, today: Date)
      requires Valid() && pid < |products|
      modifies this
      ensures Valid() && pid < |products|
      ensures State() == IngestColor(old(State()), pid, c, today)
    {
      ghost var r := ResolveColor(State(), pid, c);
      IngestColorWf(State(), pid, c, today);
      var cid, createdColor := GetOrCreateColor(pid, c);
      assert State() == r.db && cid == r.row && createdColor == r.created;
      var latest := LatestTrace(cid);
      if createdColor || (latest.Some? && latest.value.price != c.price) {
        CreateTrace(cid, c, today);
      }
    }

    /** `store_colors(product, colors)`. */
    method StoreColors(pid: nat, cs: seq<ColorItem>, today: Date)
      requires Valid() && pid < |products|
      modifies this
      ensures Valid()
      ensures State() == IngestColors(old(State()), pid, cs, today)
    {
      var i := 0;
      while i < |cs|
        invariant 0 <= i <= |cs|
        invariant Valid() && pid < |products|
        invariant State() == IngestColors(old(State()), pid, cs[..i], today)
      {
        IngestColorsStep(old(State()), pid, cs, i, today);
        StoreColor(pid, cs[i], today);
        i := i + 1;
      }
      assert cs[..|cs|] == cs;
    }

    /** `process_item(item)`: the whole ingestion of one scraped item. */
    method ProcessItem(item: Item, today: Date)
      requires Valid()
      modifies this
      ensures Valid()
      ensures State() == Ingest(old(State()), item, today)
    {
      var pid, created := GetOrCreateProduct(item, today);
      if |item.colors| > 0 {
        StoreColors(pid, item.colors, today);
      }
    }
  }
}
