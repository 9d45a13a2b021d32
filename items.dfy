/**
 * The tables of the tracker (Product, Color, ColorPriceTrace) as records, the
 * database holding them, and the scraped item the ingestion pipeline consumes.
 * A row's id is its index in its table; `created_at` is a store-wide tick
 * (strictly increasing with every insertion) paired with the calendar date.
 */
module Items {
  import opened Wrappers
  import opened Sequences

  /** A calendar date, as `date(created_at)` gives it. */
  datatype Date = Date(year: nat, month: nat, day: nat)

  /** A creation timestamp: the insertion counter and the calendar date. */
  datatype Stamp = Stamp(tick: nat, date: Date)

  /** A tracked product; `tracking` defaults to false. */
  datatype Product = Product(
    zaraId: int,
    market: string,
    name: string,
    category: string,
    description: string,
    url: string,
    tracking: bool,
    createdAt: Stamp)

  /** A colour of a product; `image` holds the ", "-joined photo URLs. */
  datatype Color = Color(product: nat, zaraId: int, name: string, image: string)

  /** One observed price of a colour: a mandatory price and two nullable ones. */
  datatype PriceTrace = PriceTrace(
    color: nat,
    price: nat,
    oldPrice: Option<nat>,
    originalPrice: Option<nat>,
    createdAt: Stamp)

  /** The database: the three tables and the next insertion tick. */
  datatype Db = Db(products: seq<Product>, colors: seq<Color>, traces: seq<PriceTrace>, tick: nat)

  /** A size of a scraped colour (carried along, never stored). */
  datatype SizeItem = SizeItem(
    id: int,
    name: string,
    availability: string,
    price: nat,
    oldPrice: Option<nat>,
    originalPrice: Option<nat>)

  /** A scraped colour. */
  datatype ColorItem = ColorItem(
    id: int,
    name: string,
    price: nat,
    oldPrice: Option<nat>,
    originalPrice: Option<nat>,
    image: string,
    sizes: seq<SizeItem>)

  /** A scraped product, as the prices spider yields it. */
  datatype Item = Item(
    id: int,
    name: string,
    market: string,
    url: string,
    category: string,
    description: string,
    colors: seq<ColorItem>)

  /**
   * The invariant of the database: every reference points at an existing
   * row, product ids and (id, product) colour keys are unique, and traces are
   * in strictly increasing creation order, all created before `tick`.
   */
  ghost predicate Wf(db: Db) {
    && (forall i :: 0 <= i < |db.products| ==> db.products[i].createdAt.tick < db.tick)
    && (forall i, j :: 0 <= i < j < |db.products| ==> db.products[i].zaraId != db.products[j].zaraId)
    && (forall i :: 0 <= i < |db.colors| ==> db.colors[i].product < |db.products|)
    && (forall i, j :: 0 <= i < j < |db.colors| ==>
          db.colors[i].zaraId != db.colors[j].zaraId || db.colors[i].product != db.colors[j].product)
    && (forall i :: 0 <= i < |db.traces| ==>
          db.traces[i].color < |db.colors| && db.traces[i].createdAt.tick < db.tick)
    && InCreationOrder(db.traces)
  }

  /** Traces listed in strictly increasing creation order. */
  ghost predicate InCreationOrder(ts: seq<PriceTrace>) {
    forall i, j :: 0 <= i < j < |ts| ==> ts[i].createdAt.tick < ts[j].createdAt.tick
  }

  /** The price traces of colour `cid`, oldest first (`color.price_traces`). */
  function History(traces: seq<PriceTrace>, cid: nat): (h: seq<PriceTrace>)
    ensures |h| <= |traces|
    ensures forall k :: 0 <= k < |h| ==> h[k].color == cid
  {
    if traces == [] then []
    else
      var last := traces[|traces| - 1];
      History(traces[..|traces| - 1], cid) + (if last.color == cid then [last] else [])
  }

  /** The positions in `traces` of the traces of colour `cid`, in table order. */
  function HistoryPositions(traces: seq<PriceTrace>, cid: nat): seq<nat> {
    if traces == [] then []
    else
      var n := |traces| - 1;
      HistoryPositions(traces[..n], cid) + (if traces[n].color == cid then [n] else [])
  }

  /**
   * A colour's history is exactly its traces, in table order: the traces at
   * the positions holding colour `cid`, and at no other.
   */
  lemma {:induction false} HistoryComplete(traces: seq<PriceTrace>, cid: nat)
    ensures SelectedAt(traces, HistoryPositions(traces, cid), History(traces, cid))
    ensures forall i :: 0 <= i < |traces| ==> (i in HistoryPositions(traces, cid) <==> traces[i].color == cid)
  {
    if traces != [] {
      var n := |traces| - 1;
      var front := traces[..n];
      HistoryComplete(front, cid);
      var p, h := HistoryPositions(front, cid), History(front, cid);
      var p', h' := HistoryPositions(traces, cid), History(traces, cid);
      var added := traces[n].color == cid;
      assert p' == p + (if added then [n] else []);
      assert h' == h + (if added then [traces[n]] else []);
      forall k | 0 <= k < |p| ensures p[k] < n && h[k] == traces[p[k]] {
        assert front[p[k]] == traces[p[k]];
      }
      forall i | 0 <= i < |traces| ensures i in p' <==> traces[i].color == cid {
        if i < n {
          assert front[i] == traces[i];
          assert i in p' <==> i in p;
        } else {
          assert n !in p;
        }
      }
    }
  }

  /** Every trace of a history is one of the traces. */
  lemma {:induction false} HistoryInTraces(traces: seq<PriceTrace>, cid: nat)
    ensures forall k :: 0 <= k < |History(traces, cid)| ==> History(traces, cid)[k] in traces
  {
    if traces != [] {
      var n := |traces| - 1;
      HistoryInTraces(traces[..n], cid);
      var hf := History(traces[..n], cid);
      forall k | 0 <= k < |hf| ensures hf[k] in traces {
        var i :| 0 <= i < n && traces[..n][i] == hf[k];
        assert traces[i] == hf[k];
      }
    }
  }

  /** Appending a trace extends exactly the history of its own colour. */
  lemma HistoryAppend(traces: seq<PriceTrace>, t: PriceTrace, cid: nat)
    ensures History(traces + [t], cid) == History(traces, cid) + (if t.color == cid then [t] else [])
  {
    assert (traces + [t])[..|traces|] == traces;
  }

  /** Traces created in increasing order give histories in increasing order. */
  lemma {:induction false} HistoryOrderedByCreation(traces: seq<PriceTrace>, cid: nat)
    requires InCreationOrder(traces)
    ensures InCreationOrder(History(traces, cid))
  {
    if traces != [] {
      var n := |traces| - 1;
      var front := traces[..n];
      HistoryOrderedByCreation(front, cid);
      HistoryInTraces(front, cid);
      var hf := History(front, cid);
      forall k | 0 <= k < |hf| ensures hf[k].createdAt.tick < traces[n].createdAt.tick {
        var i :| 0 <= i < |front| && front[i] == hf[k];
        assert front[i] == traces[i];
      }
      var h := History(traces, cid);
      assert h == hf + (if traces[n].color == cid then [traces[n]] else []);
      forall i, j | 0 <= i < j < |h| ensures h[i].createdAt.tick < h[j].createdAt.tick {
        if j >= |hf| {
          assert h[i] == hf[i] && h[j] == traces[n];
          assert hf[i].createdAt.tick < traces[n].createdAt.tick;
        } else {
          assert h[i] == hf[i] && h[j] == hf[j];
          assert hf[i].createdAt.tick < hf[j].createdAt.tick;
        }
      }
    }
  }

  /** The newest trace of colour `cid`, if any (`order_by(created_at.desc()).first()`). */
  function Latest(traces: seq<PriceTrace>, cid: nat): (r: Option<PriceTrace>)
    ensures r.Some? ==> r.value.color == cid
  {
    var h := History(traces, cid);
    if h == [] then None else Some(h[|h| - 1])
  }

  /**
   * In a table kept in creation order, the latest trace of a colour exists
   * exactly when some trace references the colour, is one of the stored
   * traces, and was created no earlier than any trace of the colour
   * (`order_by(created_at.desc()).first()`).
   */
  lemma LatestIsNewest(traces: seq<PriceTrace>, cid: nat)
    requires InCreationOrder(traces)
    ensures Latest(traces, cid).Some? <==> exists i :: 0 <= i < |traces| && traces[i].color == cid
    ensures Latest(traces, cid).Some? ==>
      && Latest(traces, cid).value in traces
      && forall i :: 0 <= i < |traces| && traces[i].color == cid ==>
           traces[i].createdAt.tick <= Latest(traces, cid).value.createdAt.tick
  {
    HistoryComplete(traces, cid);
    var p, h := HistoryPositions(traces, cid), History(traces, cid);
    forall i | 0 <= i < |traces| && traces[i].color == cid
      ensures h != [] && traces[i].createdAt.tick <= h[|h| - 1].createdAt.tick
    {
      assert i in p;
      var k :| 0 <= k < |p| && p[k] == i;
      LastPositionIsLargest(traces, p, h, k);
    }
    if h != [] {
      assert h[|h| - 1] == traces[p[|h| - 1]];
    }
  }

  /** Among increasing positions, the last one is created no earlier than the `k`-th. */
  lemma LastPositionIsLargest(traces: seq<PriceTrace>, p: seq<nat>, h: seq<PriceTrace>, k: nat)
    requires InCreationOrder(traces) && SelectedAt(traces, p, h) && k < |p|
    ensures traces[p[k]].createdAt.tick <= h[|h| - 1].createdAt.tick
  {
    var last := |p| - 1;
    if k < last {
      assert p[k] < p[last];
    }
  }

  /** A colour has an empty history exactly when no trace references it. */
  lemma {:induction false} NoHistoryMeansNoTrace(traces: seq<PriceTrace>, cid: nat)
    ensures History(traces, cid) == [] <==> forall i :: 0 <= i < |traces| ==> traces[i].color != cid
  {
    if traces != [] {
      var n := |traces| - 1;
      NoHistoryMeansNoTrace(traces[..n], cid);
      assert History(traces, cid) == History(traces[..n], cid) + (if traces[n].color == cid then [traces[n]] else []);
      if History(traces, cid) == [] {
        forall i | 0 <= i < |traces| ensures traces[i].color != cid {
          if i < n { assert traces[..n][i] == traces[i]; }
        }
      } else if traces[n].color != cid {
        var i :| 0 <= i < n && traces[..n][i].color == cid;
        assert traces[i].color == cid;
      }
    }
  }
}
