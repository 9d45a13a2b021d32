/**
 * What ingesting one scraped item does to the database, as functions on
 * `Db` values: the product is found or created by its Zara id, each colour
 * by the pair (Zara id, product), and a price trace is appended for a colour
 * only when it was just created or its latest trace has a different price.
 * The lemmas state the invariants of this append-only history.
 */
module Ingestion {
  import opened Wrappers
  import opened Items

  /** The first product row with this Zara id (`Product.get(zara_id=...)`). */
  function FindProduct(ps: seq<Product>, zaraId: int): (r: Option<nat>)
    ensures r.Some? ==> r.value < |ps| && ps[r.value].zaraId == zaraId
    ensures r.Some? ==> forall i :: 0 <= i < r.value ==> ps[i].zaraId != zaraId
    ensures r.None? <==> forall i :: 0 <= i < |ps| ==> ps[i].zaraId != zaraId
  {
    if ps == [] then None
    else
      var n := |ps| - 1;
      match FindProduct(ps[..n], zaraId)
      case Some(k) => Some(k)
      case None => if ps[n].zaraId == zaraId then Some(n) else None
  }

  /** The colour row `c` is the one for Zara colour id `zaraId` of product `pid`. */
  predicate IsColorKey(c: Color, zaraId: int, pid: nat) {
    c.zaraId == zaraId && c.product == pid
  }

  /** The first colour row with this (Zara id, product) pair (`Color.get(zara_id=..., product=...)`). */
  function FindColor(cs: seq<Color>, zaraId: int, pid: nat): (r: Option<nat>)
    ensures r.Some? ==> r.value < |cs| && IsColorKey(cs[r.value], zaraId, pid)
    ensures r.Some? ==> forall i :: 0 <= i < r.value ==> !IsColorKey(cs[i], zaraId, pid)
    ensures r.None? <==> forall i :: 0 <= i < |cs| ==> !IsColorKey(cs[i], zaraId, pid)
  {
    if cs == [] then None
    else
      var n := |cs| - 1;
      match FindColor(cs[..n], zaraId, pid)
      case Some(k) => Some(k)
      case None => if IsColorKey(cs[n], zaraId, pid) then Some(n) else None
  }

  /** The outcome of a get-or-create: the new database, the row found or made, and whether it was made. */
  datatype Resolved = Resolved(db: Db, row: nat, created: bool)

  /** The product row created for an item seen for the first time. */
  function NewProduct(item: Item, stamp: Stamp): Product {
    Product(item.id, item.market, item.name, item.category, item.description, item.url, false, stamp)
  }

  /** The colour row created for a colour seen for the first time under product `pid`. */
  function NewColor(pid: nat, c: ColorItem): Color {
    Color(pid, c.id, c.name, c.image)
  }

  /** The trace recording colour item `c` for colour row `cid`. */
  function NewTrace(cid: nat, c: ColorItem, stamp: Stamp): PriceTrace {
    PriceTrace(cid, c.price, c.oldPrice, c.originalPrice, stamp)
  }

  /**
   * `Product.get_or_create(zara_id=item.id, defaults=...)`: an existing product
   * is returned untouched; otherwise exactly one product is created from the item.
   */
  function ResolveProduct(db: Db, item: Item, today: Date): (r: Resolved)
    ensures r.row < |r.db.products| && r.db.products[r.row].zaraId == item.id
    ensures FindProduct(r.db.products, item.id) == Some(r.row)
    ensures r.created <==> forall i :: 0 <= i < |db.products| ==> db.products[i].zaraId != item.id
    ensures !r.created ==> r.db == db
    ensures r.created ==>
      && r.db.products == db.products + [NewProduct(item, Stamp(db.tick, today))]
      && r.db.colors == db.colors && r.db.traces == db.traces && r.db.tick == db.tick + 1
  {
    match FindProduct(db.products, item.id)
    case Some(pid) => Resolved(db, pid, false)
    case None =>
      var ps := db.products + [NewProduct(item, Stamp(db.tick, today))];
      assert ps[..|db.products|] == db.products;
      Resolved(db.(products := ps, tick := db.tick + 1), |db.products|, true)
  }

  /**
   * `Color.get_or_create(zara_id=c.id, product=pid, defaults=...)`: colours are
   * keyed by the pair, so the same Zara id under another product is another
   * colour; an existing colour's name and image are never updated.
   */
  function ResolveColor(db: Db, pid: nat, c: ColorItem): (r: Resolved)
    ensures r.row < |r.db.colors| && IsColorKey(r.db.colors[r.row], c.id, pid)
    ensures FindColor(r.db.colors, c.id, pid) == Some(r.row)
    ensures r.created <==> forall i :: 0 <= i < |db.colors| ==> !IsColorKey(db.colors[i], c.id, pid)
    ensures !r.created ==> r.db == db
    ensures r.created ==>
      && r.db.colors == db.colors + [NewColor(pid, c)] && r.row == |db.colors|
      && r.db.products == db.products && r.db.traces == db.traces && r.db.tick == db.tick
  {
    match FindColor(db.colors, c.id, pid)
    case Some(cid) => Resolved(db, cid, false)
    case None =>
      var cs := db.colors + [NewColor(pid, c)];
      assert cs[..|db.colors|] == db.colors;
      Resolved(db.(colors := cs), |db.colors|, true)
  }

  /** The append condition for an existing colour: a latest trace exists and only its price differs. */
  predicate PriceChanged(latest: Option<PriceTrace>, price: nat) {
    latest.Some? && latest.value.price != price
  }

  /** One iteration of `store_colors`: resolve the colour, then append a trace if it is new or its price changed. */
  function IngestColor(db: Db, pid: nat, c: ColorItem, today: Date): Db {
    var r := ResolveColor(db, pid, c);
    if r.created || PriceChanged(Latest(r.db.traces, r.row), c.price) then
      r.db.(traces := r.db.traces + [NewTrace(r.row, c, Stamp(r.db.tick, today))], tick := r.db.tick + 1)
    else r.db
  }

  /** `store_colors(product, colors)`: the colours ingested in order. */
  function IngestColors(db: Db, pid: nat, cs: seq<ColorItem>, today: Date): Db
    decreases |cs|
  {
    if cs == [] then db
    else IngestColor(IngestColors(db, pid, cs[..|cs| - 1], today), pid, cs[|cs| - 1], today)
  }

  /** The colours of a prefix one longer are ingested by one more step. */
  lemma IngestColorsStep(db: Db, pid: nat, cs: seq<ColorItem>, i: nat, today: Date)
    requires i < |cs|
    ensures IngestColors(db, pid, cs[..i + 1], today) == IngestColor(IngestColors(db, pid, cs[..i], today), pid, cs[i], today)
  {
    assert cs[..i + 1][..i] == cs[..i];
  }

  /** `process_item(item)`: resolve the product, then store its colours. */
  function Ingest(db: Db, item: Item, today: Date): Db {
    var r := ResolveProduct(db, item, today);
    IngestColors(r.db, r.row, item.colors, today)
  }

  /** `after` only adds rows to `before`: every table of `before` is a prefix of the same table of `after`. */
  ghost predicate AppendOnly(before: Db, after: Db) {
    && before.products <= after.products
    && before.colors <= after.colors
    && before.traces <= after.traces
    && before.tick <= after.tick
  }

  // ---------------------------------------------------------------------------
  // The database invariant is preserved.

  lemma ResolveProductWf(db: Db, item: Item, today: Date)
    requires Wf(db)
    ensures Wf(ResolveProduct(db, item, today).db)
  {
    var r := ResolveProduct(db, item, today);
    if r.created {
      assert forall i :: 0 <= i < |db.products| ==> r.db.products[i] == db.products[i];
    }
  }

  lemma ResolveColorWf(db: Db, pid: nat, c: ColorItem)
    requires Wf(db) && pid < |db.products|
    ensures Wf(ResolveColor(db, pid, c).db)
  {
  }

  /** Appending a trace of an existing colour, stamped with the next tick, keeps the invariant. */
  lemma AppendTraceWf(db: Db, t: PriceTrace)
    requires Wf(db)
    requires t.color < |db.colors| && t.createdAt.tick == db.tick
    ensures Wf(db.(traces := db.traces + [t], tick := db.tick + 1))
  {
    var ts := db.traces + [t];
    forall i, j | 0 <= i < j < |ts| ensures ts[i].createdAt.tick < ts[j].createdAt.tick {
      assert ts[i] == db.traces[i];
    }
  }

  lemma IngestColorWf(db: Db, pid: nat, c: ColorItem, today: Date)
    requires Wf(db) && pid < |db.products|
    ensures Wf(IngestColor(db, pid, c, today))
    ensures AppendOnly(db, IngestColor(db, pid, c, today))
    ensures IngestColor(db, pid, c, today).products == db.products
  {
    var r := ResolveColor(db, pid, c);
    ResolveColorWf(db, pid, c);
    var t := NewTrace(r.row, c, Stamp(r.db.tick, today));
    KeepOrAppendWf(r.db, t, IngestColor(db, pid, c, today));
  }

  /** Keeping a well-formed database, or appending a trace of an existing colour stamped with the next tick, stays well formed. */
  lemma KeepOrAppendWf(db: Db, t: PriceTrace, after: Db)
    requires Wf(db)
    requires after == db || (t.color < |db.colors| && t.createdAt.tick == db.tick &&
      after == db.(traces := db.traces + [t], tick := db.tick + 1))
    ensures Wf(after) && AppendOnly(db, after) && after.products == db.products
  {
    if after != db {
      AppendTraceWf(db, t);
    }
  }

  lemma {:induction false} IngestColorsWf(db: Db, pid: nat, cs: seq<ColorItem>, today: Date)
    requires Wf(db) && pid < |db.products|
    ensures Wf(IngestColors(db, pid, cs, today))
    ensures AppendOnly(db, IngestColors(db, pid, cs, today))
    ensures IngestColors(db, pid, cs, today).products == db.products
    decreases |cs|
  {
    if cs != [] {
      var front := IngestColors(db, pid, cs[..|cs| - 1], today);
      IngestColorsWf(db, pid, cs[..|cs| - 1], today);
      IngestColorWf(front, pid, cs[|cs| - 1], today);
    }
  }

  /** Ingestion keeps the database well formed, in particular the uniqueness of product and colour keys. */
  lemma IngestWf(db: Db, item: Item, today: Date)
    requires Wf(db)
    ensures Wf(Ingest(db, item, today))
  {
    var r := ResolveProduct(db, item, today);
    ResolveProductWf(db, item, today);
    IngestColorsWf(r.db, r.row, item.colors, today);
  }

  // ---------------------------------------------------------------------------
  // Identity resolution and the append condition.

  /**
   * The product of an item is created at most once: if a product with the
   * item's id exists, the product table is untouched (first-seen fields win),
   * otherwise exactly one product built from the item is appended.
   */
  lemma IngestProductIdentity(db: Db, item: Item, today: Date)
    requires Wf(db)
    ensures var after := Ingest(db, item, today);
      if exists i :: 0 <= i < |db.products| && db.products[i].zaraId == item.id
      then after.products == db.products
      else after.products == db.products + [NewProduct(item, Stamp(db.tick, today))]
  {
    var r := ResolveProduct(db, item, today);
    ResolveProductWf(db, item, today);
    IngestColorsWf(r.db, r.row, item.colors, today);
  }

  /** A colour seen for the first time under its product gets exactly one trace, carrying the item's three prices. */
  lemma NewColorGetsOneTrace(db: Db, pid: nat, c: ColorItem, today: Date)
    requires Wf(db) && pid < |db.products|
    requires forall i :: 0 <= i < |db.colors| ==> !IsColorKey(db.colors[i], c.id, pid)
    ensures var after := IngestColor(db, pid, c, today);
      && after.colors == db.colors + [NewColor(pid, c)]
      && after.traces == db.traces + [NewTrace(|db.colors|, c, Stamp(db.tick, today))]
      && History(after.traces, |db.colors|) == [PriceTrace(|db.colors|, c.price, c.oldPrice, c.originalPrice, Stamp(db.tick, today))]
  {
    var t := NewTrace(|db.colors|, c, Stamp(db.tick, today));
    HistoryAppend(db.traces, t, |db.colors|);
    NoHistoryMeansNoTrace(db.traces, |db.colors|);
  }

  /**
   * For a colour that already exists, a trace is appended exactly when its
   * latest trace exists and has a different price; differences in the old or
   * original price alone append nothing, and nothing else changes.
   */
  lemma ExistingColorAppendCondition(db: Db, pid: nat, c: ColorItem, today: Date, cid: nat)
    requires FindColor(db.colors, c.id, pid) == Some(cid)
    ensures var after := IngestColor(db, pid, c, today);
      && after.products == db.products && after.colors == db.colors
      && (if Latest(db.traces, cid).Some? && Latest(db.traces, cid).value.price != c.price
          then after.traces == db.traces + [NewTrace(cid, c, Stamp(db.tick, today))] && after.tick == db.tick + 1
          else after == db)
  {
  }

  /** A colour that exists without any trace never gains one through ingestion. */
  lemma TracelessColorStaysTraceless(db: Db, pid: nat, c: ColorItem, today: Date, cid: nat)
    requires FindColor(db.colors, c.id, pid) == Some(cid)
    requires forall i :: 0 <= i < |db.traces| ==> db.traces[i].color != cid
    ensures IngestColor(db, pid, c, today) == db
  {
    NoHistoryMeansNoTrace(db.traces, cid);
  }

  // ---------------------------------------------------------------------------
  // The latest price after ingestion, and idempotence.

  /** Colour item `c` of product `pid` has its row, and that row's latest trace, if any, has `c`'s price. */
  ghost predicate Settled(db: Db, pid: nat, c: ColorItem) {
    match FindColor(db.colors, c.id, pid)
    case None => false
    case Some(cid) => var l := Latest(db.traces, cid); l.None? || l.value.price == c.price
  }

  /** Position `k` is the last occurrence of its colour id in `cs`. */
  predicate LastOccurrence(cs: seq<ColorItem>, k: nat)
    requires k < |cs|
  {
    forall j :: k < j < |cs| ==> cs[j].id != cs[k].id
  }

  lemma IngestColorSettles(db: Db, pid: nat, c: ColorItem, today: Date)
    ensures Settled(IngestColor(db, pid, c, today), pid, c)
  {
    var r := ResolveColor(db, pid, c);
    var d := IngestColor(db, pid, c, today);
    if r.created || PriceChanged(Latest(r.db.traces, r.row), c.price) {
      var t := NewTrace(r.row, c, Stamp(r.db.tick, today));
      HistoryAppend(r.db.traces, t, r.row);
      assert d.colors == r.db.colors;
    }
  }

  lemma IngestColorKeepsSettled(db: Db, pid: nat, c: ColorItem, today: Date, k: ColorItem)
    requires k.id != c.id
    requires Settled(db, pid, k)
    ensures Settled(IngestColor(db, pid, c, today), pid, k)
  {
    var r := ResolveColor(db, pid, c);
    var cid := FindColor(db.colors, k.id, pid).value;
    assert FindColor(r.db.colors, k.id, pid) == Some(cid) by {
      if r.created {
        assert r.db.colors[..|db.colors|] == db.colors;
      }
    }
    assert cid != r.row;
    var d := IngestColor(db, pid, c, today);
    if r.created || PriceChanged(Latest(r.db.traces, r.row), c.price) {
      var t := NewTrace(r.row, c, Stamp(r.db.tick, today));
      HistoryAppend(r.db.traces, t, cid);
      assert d.colors == r.db.colors;
    }
  }

  lemma {:induction false} IngestColorsSettles(db: Db, pid: nat, cs: seq<ColorItem>, today: Date)
    ensures forall k :: 0 <= k < |cs| && LastOccurrence(cs, k) ==> Settled(IngestColors(db, pid, cs, today), pid, cs[k])
    decreases |cs|
  {
    if cs != [] {
      var n := |cs| - 1;
      var mid := IngestColors(db, pid, cs[..n], today);
      IngestColorsSettles(db, pid, cs[..n], today);
      assert IngestColors(db, pid, cs, today) == IngestColor(mid, pid, cs[n], today);
      IngestLastColorSettles(mid, pid, cs[..n], cs, today);
    }
  }

  /**
   * Ingesting the last colour of `cs` after the others settles it and keeps
   * every earlier colour settled whose id does not come again.
   */
  lemma IngestLastColorSettles(mid: Db, pid: nat, front: seq<ColorItem>, cs: seq<ColorItem>, today: Date)
    requires |cs| > 0 && front == cs[..|cs| - 1]
    requires forall j :: 0 <= j < |front| && LastOccurrence(front, j) ==> Settled(mid, pid, front[j])
    ensures forall k :: 0 <= k < |cs| && LastOccurrence(cs, k) ==> Settled(IngestColor(mid, pid, cs[|cs| - 1], today), pid, cs[k])
  {
    var n := |cs| - 1;
    IngestColorSettles(mid, pid, cs[n], today);
    forall k | 0 <= k < n && LastOccurrence(cs, k) ensures Settled(IngestColor(mid, pid, cs[n], today), pid, cs[k]) {
      assert front[k] == cs[k];
      assert LastOccurrence(front, k);
      IngestColorKeepsSettled(mid, pid, cs[n], today, cs[k]);
    }
  }

  /**
   * After an item is processed, the row of each of its colours exists and its
   * latest trace, if it has one, carries the item's price for that colour;
   * when a colour id repeats, its last occurrence wins.
   */
  lemma IngestLatestPrice(db: Db, item: Item, today: Date)
    ensures var r := ResolveProduct(db, item, today);
      forall k :: 0 <= k < |item.colors| && LastOccurrence(item.colors, k) ==>
        Settled(Ingest(db, item, today), r.row, item.colors[k])
  {
    var r := ResolveProduct(db, item, today);
    IngestColorsSettles(r.db, r.row, item.colors, today);
  }

  /** A colour already settled is left alone. */
  lemma IngestColorSettledNoop(db: Db, pid: nat, c: ColorItem, today: Date)
    requires Settled(db, pid, c)
    ensures IngestColor(db, pid, c, today) == db
  {
  }

  lemma {:induction false} IngestColorsSettledNoop(db: Db, pid: nat, cs: seq<ColorItem>, today: Date)
    requires forall k :: 0 <= k < |cs| ==> Settled(db, pid, cs[k])
    ensures IngestColors(db, pid, cs, today) == db
    decreases |cs|
  {
    if cs != [] {
      var n := |cs| - 1;
      var front := cs[..n];
      assert forall k :: 0 <= k < |front| ==> Settled(db, pid, front[k]) by {
        assert forall k :: 0 <= k < |front| ==> front[k] == cs[k];
      }
      IngestColorsSettledNoop(db, pid, front, today);
      IngestColorSettledNoop(db, pid, cs[n], today);
      assert IngestColors(db, pid, cs, today) == IngestColor(IngestColors(db, pid, front, today), pid, cs[n], today);
    }
  }

  /** The colour ids of an item are pairwise distinct. */
  predicate DistinctColorIds(cs: seq<ColorItem>) {
    forall i, j :: 0 <= i < j < |cs| ==> cs[i].id != cs[j].id
  }

  /**
   * Processing the same item twice in a row creates no product, colour or
   * trace on the second pass, whatever its date, provided the item does not
   * list one colour id twice.
   */
  lemma IngestIdempotent(db: Db, item: Item, day1: Date, day2: Date)
    requires Wf(db)
    requires DistinctColorIds(item.colors)
    ensures Ingest(Ingest(db, item, day1), item, day2) == Ingest(db, item, day1)
  {
    var r := ResolveProduct(db, item, day1);
    var once := Ingest(db, item, day1);
    ResolveProductWf(db, item, day1);
    IngestColorsWf(r.db, r.row, item.colors, day1);
    assert once.products == r.db.products;
    var r2 := ResolveProduct(once, item, day2);
    assert r2 == Resolved(once, r.row, false);
    IngestLatestPrice(db, item, day1);
    IngestColorsSettledNoop(once, r.row, item.colors, day2);
  }

  /**
   * Without distinct colour ids a second pass is not a no-op: for a new
   * product whose item lists one colour id twice at two prices, the first
   * pass leaves the colour at the second price, so the second pass appends
   * a trace for each listing again.
   */
  lemma RepeatedColorIdAppendsAgain(db: Db, item: Item, day1: Date, day2: Date)
    requires Wf(db)
    requires forall i :: 0 <= i < |db.products| ==> db.products[i].zaraId != item.id
    requires |item.colors| == 2 && item.colors[0].id == item.colors[1].id
    requires item.colors[0].price != item.colors[1].price
    ensures !DistinctColorIds(item.colors)
    ensures |Ingest(db, item, day1).traces| == |db.traces| + 2
    ensures |Ingest(Ingest(db, item, day1), item, day2).traces| == |Ingest(db, item, day1).traces| + 2
  {
    var once := Ingest(db, item, day1);
    var row, cid := RepeatFirstPass(db, item, day1);
    assert ResolveProduct(once, item, day2) == Resolved(once, row, false);
    RepeatedSightingsAppend(once, row, item.colors[0], item.colors[1], day2, cid);
    IngestColorsPair(once, row, item.colors, day2);
  }

  /**
   * The first pass of such an item creates the product and the colour, and
   * leaves two traces, the newest at the second listing's price.
   */
  lemma RepeatFirstPass(db: Db, item: Item, today: Date) returns (row: nat, cid: nat)
    requires Wf(db)
    requires forall i :: 0 <= i < |db.products| ==> db.products[i].zaraId != item.id
    requires |item.colors| == 2 && item.colors[0].id == item.colors[1].id
    requires item.colors[0].price != item.colors[1].price
    ensures var once := Ingest(db, item, today);
      && |once.traces| == |db.traces| + 2
      && FindProduct(once.products, item.id) == Some(row)
      && FindColor(once.colors, item.colors[0].id, row) == Some(cid)
      && Latest(once.traces, cid).Some? && Latest(once.traces, cid).value.price == item.colors[1].price
  {
    var a, b := item.colors[0], item.colors[1];
    var r := ResolveProduct(db, item, today);
    row, cid := r.row, |db.colors|;
    assert row == |db.products|;
    var s1 := IngestColor(r.db, row, a, today);
    FirstSightingCreates(db, r.db, row, a, today);
    var once := IngestColor(s1, row, b, today);
    ExistingColorAppendCondition(s1, row, b, today, cid);
    IngestColorsPair(r.db, row, item.colors, today);
    var t := once.traces[|once.traces| - 1];
    assert once.traces == s1.traces + [t];
    HistoryAppend(s1.traces, t, cid);
  }

  /** Two colours are ingested by two steps. */
  lemma IngestColorsPair(db: Db, pid: nat, cs: seq<ColorItem>, today: Date)
    requires |cs| == 2
    ensures IngestColors(db, pid, cs, today) == IngestColor(IngestColor(db, pid, cs[0], today), pid, cs[1], today)
  {
    assert cs[..1][..0] == [];
    assert IngestColors(db, pid, cs[..1], today) == IngestColor(db, pid, cs[0], today);
  }

  /**
   * For a product row created after every stored colour, the first colour
   * is created as row `|colors|` and gets one trace, which is its latest.
   */
  lemma FirstSightingCreates(old_: Db, db: Db, pid: nat, c: ColorItem, today: Date)
    requires Wf(old_) && pid == |old_.products|
    requires db.colors == old_.colors && db.traces == old_.traces
    ensures var after := IngestColor(db, pid, c, today);
      && after.products == db.products
      && |after.traces| == |db.traces| + 1
      && FindColor(after.colors, c.id, pid) == Some(|db.colors|)
      && Latest(after.traces, |db.colors|) == Some(after.traces[|after.traces| - 1])
      && after.traces[|after.traces| - 1].price == c.price
  {
    var r := ResolveColor(db, pid, c);
    assert r.created;
    var t := NewTrace(r.row, c, Stamp(r.db.tick, today));
    NoHistoryMeansNoTrace(db.traces, |db.colors|);
    HistoryAppend(db.traces, t, |db.colors|);
  }

  /**
   * An existing colour whose latest price differs from the first listing
   * gains a trace for each of two listings at different prices.
   */
  lemma RepeatedSightingsAppend(db: Db, pid: nat, a: ColorItem, b: ColorItem, today: Date, cid: nat)
    requires a.id == b.id && a.price != b.price
    requires FindColor(db.colors, a.id, pid) == Some(cid)
    requires Latest(db.traces, cid).Some? && Latest(db.traces, cid).value.price != a.price
    ensures |IngestColor(IngestColor(db, pid, a, today), pid, b, today).traces| == |db.traces| + 2
  {
    ExistingColorAppendCondition(db, pid, a, today, cid);
    var s1 := IngestColor(db, pid, a, today);
    var t := NewTrace(cid, a, Stamp(db.tick, today));
    HistoryAppend(db.traces, t, cid);
    ExistingColorAppendCondition(s1, pid, b, today, cid);
  }

  // ---------------------------------------------------------------------------
  // Append-only history.

  lemma {:induction false} HistoryPrefix(ts: seq<PriceTrace>, us: seq<PriceTrace>, cid: nat)
    requires ts <= us
    ensures History(ts, cid) <= History(us, cid)
    decreases |us|
  {
    if |us| > |ts| {
      var n := |us| - 1;
      assert ts <= us[..n];
      HistoryPrefix(ts, us[..n], cid);
      assert us == us[..n] + [us[n]];
      HistoryAppend(us[..n], us[n], cid);
    } else {
      assert ts == us;
    }
  }

  /**
   * Ingestion only creates rows: every table before is a prefix of the same
   * table after, and so every colour's trace history before is a prefix of
   * its history after.
   */
  lemma IngestAppendOnly(db: Db, item: Item, today: Date)
    requires Wf(db)
    ensures AppendOnly(db, Ingest(db, item, today))
    ensures forall cid: nat :: History(db.traces, cid) <= History(Ingest(db, item, today).traces, cid)
  {
    var r := ResolveProduct(db, item, today);
    ResolveProductWf(db, item, today);
    IngestColorsWf(r.db, r.row, item.colors, today);
    var after := Ingest(db, item, today);
    forall cid: nat ensures History(db.traces, cid) <= History(after.traces, cid) {
      HistoryPrefix(db.traces, after.traces, cid);
    }
  }
}
