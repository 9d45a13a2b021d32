/**
 * The price report posted for a product (`announce_product_price_change`):
 * a Markdown caption listing, colour by colour, every recorded price of the
 * colour newest first, each with the rounded percentage change from the
 * price recorded before it, followed by a link to the product page; the
 * photos sent with it are those of the product's last colour.
 */
module Announcements {
  import opened Wrappers
  import opened Strings
  import opened Items
  import opened Sequences

  /**
   * Why no report can be produced: a previous price of zero (the percentage
   * divides by it) or a product without colours (the photos are taken from
   * the last colour iterated, which then does not exist).
   */
  datatype ReportError = ZeroPrice | NoColor

  /** A Telegram media group: the market selects the thread, the first photo carries the caption. */
  datatype Notification = Notification(market: string, images: seq<string>, message: string)

  /** The colour rows of product `pid`, in row order (`product.colors`). */
  function ColorsOf(colors: seq<Color>, pid: nat): (r: seq<nat>)
    ensures forall k :: 0 <= k < |r| ==> r[k] < |colors| && colors[r[k]].product == pid
    ensures forall i :: 0 <= i < |colors| && colors[i].product == pid ==> i in r
    ensures forall j, k :: 0 <= j < k < |r| ==> r[j] < r[k]
  {
    if colors == [] then []
    else
      var n := |colors| - 1;
      var front := ColorsOf(colors[..n], pid);
      assert forall k :: 0 <= k < |front| ==> front[k] < n;
      front + (if colors[n].product == pid then [n] else [])
  }

  // ---------------------------------------------------------------------------
  // Rendering numbers and dates.

  /**
   * Python's `round` of the exact quotient `num / den` to an integer: the
   * nearest integer, ties going to the even neighbour.
   */
  function RoundHalfEven(num: int, den: nat): (q: int)
    requires den > 0
    ensures -(den as int) <= 2 * (num - q * den) <= den
    ensures 2 * (num - q * den) == den || 2 * (num - q * den) == -(den as int) ==> q % 2 == 0
  {
    var f := num / den;
    var rem := num % den;
    assert num == f * den + rem;
    if 2 * rem < den then f
    else if 2 * rem > den then
      assert num - (f + 1) * den == rem - den;
      f + 1
    else if f % 2 == 0 then f
    else
      assert num - (f + 1) * den == rem - den;
      f + 1
  }

  /** The rounding is the only integer with those two properties. */
  lemma RoundHalfEvenUnique(num: int, den: nat, q: int)
    requires den > 0
    requires -(den as int) <= 2 * (num - q * den) <= den
    requires 2 * (num - q * den) == den || 2 * (num - q * den) == -(den as int) ==> q % 2 == 0
    ensures q == RoundHalfEven(num, den)
  {
    var p := RoundHalfEven(num, den);
    var t := q - p;
    var a, b := num - p * den, num - q * den;
    assert a - b == t * den by {
      assert q * den - p * den == (q - p) * den;
    }
    MultipleWithinOne(t, den);
    TiesOnBothSides(a, b, t, den);
    NeighbourParity(p);
  }

  /**
   * Two remainders within half of `den` either side that differ by `den`
   * are both ties, one up and one down.
   */
  lemma TiesOnBothSides(a: int, b: int, t: int, den: int)
    requires den > 0 && -1 <= t <= 1
    requires -den <= 2 * a <= den && -den <= 2 * b <= den
    requires a - b == t * den
    ensures t == 1 ==> 2 * a == den && 2 * b == -den
    ensures t == -1 ==> 2 * a == -den && 2 * b == den
  {
  }

  /** Of two neighbouring integers at most one is even. */
  lemma NeighbourParity(p: int)
    ensures p % 2 == 0 ==> (p + 1) % 2 != 0 && (p - 1) % 2 != 0
  {
  }

  /** A multiple `t * d` of a positive `d` lying between `-d` and `d` has `t` between -1 and 1. */
  lemma MultipleWithinOne(t: int, d: int)
    requires d > 0 && -d <= t * d <= d
    ensures -1 <= t <= 1
  {
  }

  /** An integer with its sign always written, as the format `{:+}` gives it. */
  function SignedText(n: int): (r: string)
    ensures |r| >= 2 && (r[0] == '-' <==> n < 0) && (r[0] == '+' <==> n >= 0)
  {
    if n < 0 then "-" + NatText(-n) else "+" + NatText(n)
  }

  /** Reads a signed integer written by `SignedText`. */
  function ParseSigned(s: string): int
    requires |s| >= 1
  {
    if s[0] == '-' then -(ParseNat(s[1..]) as int) else ParseNat(s[1..])
  }

  lemma SignedTextRoundTrip(n: int)
    ensures ParseSigned(SignedText(n)) == n
  {
    if n < 0 {
      ParseNatText(-n);
      assert SignedText(n)[1..] == NatText(-n);
    } else {
      ParseNatText(n);
      assert SignedText(n)[1..] == NatText(n);
    }
  }

  /** A price in minor units shown with two decimals (`f"{round(p / 100, 2):.2f}"`). */
  function PriceText(p: nat): (r: string)
    ensures |r| >= 4 && r[|r| - 3] == '.'
  {
    var cents := PadNat(p % 100, 2);
    NatTextBelowHundred(p % 100);
    NatText(p / 100) + "." + cents
  }

  /** A number below 100 is at most two digits long. */
  lemma NatTextBelowHundred(n: nat)
    requires n < 100
    ensures |NatText(n)| <= 2 && |PadNat(n, 2)| == 2
  {
    if n >= 10 {
      assert NatText(n) == NatText(n / 10) + [DigitChar(n % 10)];
    }
  }

  /** Reads a price back from its two-decimal text. */
  function ParsePrice(s: string): nat
    requires |s| >= 3
  {
    ParseNat(s[..|s| - 3]) * 100 + ParseNat(s[|s| - 2..])
  }

  /** The rendered price denotes the price exactly: no cent is lost or added. */
  lemma PriceTextRoundTrip(p: nat)
    ensures ParsePrice(PriceText(p)) == p
  {
    var whole, cents := NatText(p / 100), PadNat(p % 100, 2);
    NatTextBelowHundred(p % 100);
    var s := whole + "." + cents;
    assert s == PriceText(p);
    assert s[..|s| - 3] == whole;
    assert s[|s| - 2..] == cents;
    ParseNatText(p / 100);
    ParsePadNat(p % 100, 2);
  }

  /** A date as `%Y-%m-%d`. */
  function DateText(d: Date): string {
    PadNat(d.year, 4) + "-" + PadNat(d.month, 2) + "-" + PadNat(d.day, 2)
  }

  /** Reads the fields back from a `%Y-%m-%d` text with a four-digit year. */
  function ParseDate(s: string): Date
    requires |s| == 10
  {
    Date(ParseNat(s[..4]), ParseNat(s[5..7]), ParseNat(s[8..]))
  }

  /** A date with a four-digit year and two-digit month and day is shown in exactly ten characters, and read back. */
  lemma DateTextRoundTrip(d: Date)
    requires d.year < 10000 && d.month < 100 && d.day < 100
    ensures |DateText(d)| == 10 && ParseDate(DateText(d)) == d
  {
    NatTextBelowHundred(d.month);
    NatTextBelowHundred(d.day);
    assert |NatText(d.year)| <= 4 by {
      if d.year >= 10 {
        NatTextBelowThousandOrMore(d.year);
      }
    }
    var y, m, dd := PadNat(d.year, 4), PadNat(d.month, 2), PadNat(d.day, 2);
    var s := y + "-" + m + "-" + dd;
    assert s[..4] == y && s[5..7] == m && s[8..] == dd;
    ParsePadNat(d.year, 4);
    ParsePadNat(d.month, 2);
    ParsePadNat(d.day, 2);
  }

  lemma NatTextBelowThousandOrMore(n: nat)
    requires 10 <= n < 10000
    ensures |NatText(n)| <= 4
  {
    assert NatText(n) == NatText(n / 10) + [DigitChar(n % 10)];
    NatTextBelowThousand(n / 10);
  }

  lemma NatTextBelowThousand(n: nat)
    requires n < 1000
    ensures |NatText(n)| <= 3
  {
    if n >= 10 {
      assert NatText(n) == NatText(n / 10) + [DigitChar(n % 10)];
      NatTextBelowHundred(n / 10);
    }
  }

  // ---------------------------------------------------------------------------
  // The lines of one colour.

  /**
   * The note after a price: nothing for the first trace or for an unchanged
   * price, otherwise the change relative to the previous price, in percent,
   * rounded and signed; a previous price of zero is a division by zero.
   */
  function Annotation(last: Option<nat>, price: nat): (r: Result<string, ReportError>)
    ensures r.Err? <==> last == Some(0)
    ensures r.Err? ==> r.error == ZeroPrice
  {
    match last
    case None => Ok("")
    case Some(l) =>
      if l == 0 then Err(ZeroPrice)
      else if price == l then Ok("")
      else Ok(" (" + SignedText(RoundHalfEven((price - l) * 100, l)) + "%)")
  }

  /**
   * The note is empty exactly for the first trace and for an unchanged price;
   * otherwise it shows the integer nearest to the percentage change from `l`
   * to `price`, with a plus sign for every rise (and for a fall of under half
   * a percent, which rounds to zero) and a minus sign only for a fall.
   */
  lemma AnnotationMeaning(last: Option<nat>, price: nat)
    requires last != Some(0)
    ensures Annotation(last, price) == Ok("") <==> last.None? || last.value == price
    ensures last.Some? && last.value != price ==>
      var l := last.value;
      var q := RoundHalfEven((price - l) * 100, l);
      && Annotation(last, price) == Ok(" (" + SignedText(q) + "%)")
      && -(l as int) <= 2 * ((price - l) * 100 - q * l) <= l
      && (price > l ==> q >= 0 && SignedText(q)[0] == '+')
      && (SignedText(q)[0] == '-' ==> price < l)
  {
    if last.Some? && last.value != price {
      var l := last.value;
      var q := RoundHalfEven((price - l) * 100, l);
      var a := " (" + SignedText(q) + "%)";
      assert a != "";
      if price > l {
        RoundedRiseIsPositive(price - l, l, q);
      }
    }
  }

  /** A rise of `x > 0` over `l` never rounds to a negative percentage. */
  lemma RoundedRiseIsPositive(x: int, l: int, q: int)
    requires x >= 1 && l > 0
    requires 2 * (x * 100 - q * l) <= l
    ensures q >= 0
  {
    assert q < 0 ==> q * l <= -l;
  }

  /** The price of the trace before position `k` of a history, if any. */
  function Prev(h: seq<PriceTrace>, k: nat): Option<nat>
    requires k < |h|
  {
    if k == 0 then None else Some(h[k - 1].price)
  }

  /** One line of the report, `<date>: <price>` and the note, for a trace whose previous price is not zero. */
  function Line(t: PriceTrace, last: Option<nat>): string
    requires last != Some(0)
  {
    DateText(t.createdAt.date) + ": " + PriceText(t.price) + Annotation(last, t.price).value
  }

  /** Line `k` of history `h`: trace `k`, priced against trace `k - 1`. */
  function LineAt(h: seq<PriceTrace>, k: nat): string
    requires k < |h| && (k == 0 || h[k - 1].price != 0)
  {
    Line(h[k], Prev(h, k))
  }

  /** Some price of the history other than the newest one is zero. */
  predicate ZeroBeforeNewest(h: seq<PriceTrace>) {
    exists k :: 0 <= k < |h| - 1 && h[k].price == 0
  }

  /** The first `j` lines of history `h`, oldest first, none of them after a zero price. */
  function LinesUpTo(h: seq<PriceTrace>, j: nat): (r: seq<string>)
    requires j <= |h| && forall k :: 0 <= k < j - 1 ==> h[k].price != 0
    ensures |r| == j
  {
    if j == 0 then [] else LinesUpTo(h, j - 1) + [LineAt(h, j - 1)]
  }

  /**
   * The lines of a colour's history, oldest first; rendering fails when a
   * price other than the newest is zero.
   */
  function Entries(h: seq<PriceTrace>): (r: Result<seq<string>, ReportError>)
    ensures r.Err? ==> r.error == ZeroPrice
    ensures r.Ok? ==> |r.value| == |h|
  {
    if ZeroBeforeNewest(h) then Err(ZeroPrice) else Ok(LinesUpTo(h, |h|))
  }

  /** Rendering trace `j` against the price before it extends the lines so far. */
  lemma LinesUpToStep(h: seq<PriceTrace>, j: nat, last: Option<nat>)
    requires j < |h| && forall k :: 0 <= k < j - 1 ==> h[k].price != 0
    requires last == (if j == 0 then None else Some(h[j - 1].price)) && last != Some(0)
    ensures forall k :: 0 <= k < j ==> h[k].price != 0
    ensures LinesUpTo(h, j + 1) == LinesUpTo(h, j) + [Line(h[j], last)]
  {
    forall k | 0 <= k < j ensures h[k].price != 0 {
      if k == j - 1 {
        assert last == Some(h[k].price);
      }
    }
    assert Prev(h, j) == last;
  }

  /** A zero price before the newest makes the rendering fail. */
  lemma EntriesFail(h: seq<PriceTrace>, i: nat)
    requires i < |h| - 1 && h[i].price == 0
    ensures Entries(h) == Err(ZeroPrice)
  {
  }

  /** Without a zero price before the newest, the rendering gives all the lines. */
  lemma EntriesSucceed(h: seq<PriceTrace>)
    requires forall k :: 0 <= k < |h| - 1 ==> h[k].price != 0
    ensures Entries(h) == Ok(LinesUpTo(h, |h|))
  {
  }

  /** Line `k` of a history shows trace `k` and its change from trace `k - 1`. */
  lemma {:induction false} LinesAt(h: seq<PriceTrace>, j: nat, k: nat)
    requires j <= |h| && forall i :: 0 <= i < j - 1 ==> h[i].price != 0
    requires k < j
    ensures LinesUpTo(h, j)[k] == LineAt(h, k)
  {
    var front := LinesUpTo(h, j - 1);
    assert LinesUpTo(h, j) == front + [LineAt(h, j - 1)];
    if k < j - 1 {
      LinesAt(h, j - 1, k);
      ElementOfPrefix(front, LineAt(h, j - 1), k);
    } else {
      ElementAppended(front, LineAt(h, j - 1));
    }
  }

  /** A sequence backwards (`list.reverse()`). */
  function Reverse<T>(xs: seq<T>): (r: seq<T>)
    ensures |r| == |xs| && forall k :: 0 <= k < |xs| ==> r[k] == xs[|xs| - 1 - k]
  {
    if xs == [] then [] else [xs[|xs| - 1]] + Reverse(xs[..|xs| - 1])
  }

  /**
   * The report lines of a colour come newest first: the history is in
   * creation order, the first line shows the latest price against the one
   * before it, and the last line, the oldest trace, carries no percentage.
   */
  lemma LinesNewestFirst(traces: seq<PriceTrace>, cid: nat)
    requires InCreationOrder(traces)
    requires !ZeroBeforeNewest(History(traces, cid))
    requires History(traces, cid) != []
    ensures var h := History(traces, cid);
      var lines := Reverse(Entries(h).value);
      && InCreationOrder(h)
      && lines[0] == Line(Latest(traces, cid).value, Prev(h, |h| - 1))
      && lines[|h| - 1] == DateText(h[0].createdAt.date) + ": " + PriceText(h[0].price)
  {
    HistoryOrderedByCreation(traces, cid);
    var h := History(traces, cid);
    var es := LinesUpTo(h, |h|);
    LinesAt(h, |h|, |h| - 1);
    LinesAt(h, |h|, 0);
    FirstLineHasNoNote(h[0]);
  }

  /** The line of the oldest trace carries no note. */
  lemma FirstLineHasNoNote(t: PriceTrace)
    ensures Line(t, None) == DateText(t.createdAt.date) + ": " + PriceText(t.price)
  {
    var s := DateText(t.createdAt.date) + ": " + PriceText(t.price);
    assert s + "" == s;
  }

  /** The bold product name opening a caption. */
  function Header(name: string): string {
    "*" + name + "*\n\n"
  }

  /** The italic colour name opening a colour's block. */
  function ColorHeader(name: string): string {
    "_" + name + "_\n"
  }

  /** The Markdown link closing a caption. */
  function Link(url: string): string {
    "[Product page](" + url + ")"
  }

  /** The block of one colour: its name in italics, then its lines newest first. */
  function ColorText(name: string, h: seq<PriceTrace>): (r: string)
    requires !ZeroBeforeNewest(h)
    ensures ColorHeader(name) <= r
  {
    var r := ColorHeader(name) + (Join(Reverse(Entries(h).value), "\n") + "\n\n");
    assert r[..|ColorHeader(name)|] == ColorHeader(name);
    r
  }

  /** No colour among `cids` has a zero price before its newest. */
  predicate Renderable(db: Db, cids: seq<nat>) {
    forall k :: 0 <= k < |cids| ==> !ZeroBeforeNewest(History(db.traces, cids[k]))
  }

  /** The caption of product `pid` up to the link: the header, then the blocks of the colour rows `cids` in order. */
  function Caption(db: Db, pid: nat, cids: seq<nat>): string
    requires pid < |db.products|
    requires forall k :: 0 <= k < |cids| ==> cids[k] < |db.colors|
    requires Renderable(db, cids)
  {
    if cids == [] then Header(db.products[pid].name)
    else
      var n := |cids| - 1;
      Caption(db, pid, cids[..n]) + ColorText(db.colors[cids[n]].name, History(db.traces, cids[n]))
  }

  /** The report of product `pid`, as `announce_product_price_change` sends it. */
  function Announcement(db: Db, pid: nat): Result<Notification, ReportError>
    requires pid < |db.products|
  {
    var cs := ColorsOf(db.colors, pid);
    var p := db.products[pid];
    if !Renderable(db, cs) then Err(ZeroPrice)
    else if cs == [] then Err(NoColor)
    else
      var images := Split(db.colors[cs[|cs| - 1]].image, ListSeparator);
      Ok(Notification(p.market, images, Caption(db, pid, cs) + Link(p.url)))
  }

  /**
   * A report fails exactly when one of the product's colours has a zero
   * price before its newest, or else the product has no colour.
   */
  lemma AnnouncementFailure(db: Db, pid: nat)
    requires pid < |db.products|
    ensures var cs := ColorsOf(db.colors, pid);
      && (Announcement(db, pid) == Err(ZeroPrice) <==> exists k :: 0 <= k < |cs| && ZeroBeforeNewest(History(db.traces, cs[k])))
      && (Announcement(db, pid) == Err(NoColor) <==> Renderable(db, cs) && cs == [])
  {
    var cs := ColorsOf(db.colors, pid);
    if !Renderable(db, cs) {
      assert Announcement(db, pid) == Err(ZeroPrice);
    } else if cs == [] {
      assert Announcement(db, pid) == Err(NoColor);
    } else {
      assert Announcement(db, pid).Ok?;
    }
  }

  /**
   * A report that can be produced is sent to the product's market with at
   * least one photo, and its caption starts with the product name in bold,
   * goes on with the name of its first colour in italics and ends with the
   * product page link.
   */
  lemma AnnouncementContent(db: Db, pid: nat)
    requires pid < |db.products|
    requires Announcement(db, pid).Ok?
    ensures var cs := ColorsOf(db.colors, pid);
      var n := Announcement(db, pid).value;
      && cs != []
      && n.market == db.products[pid].market
      && |n.images| >= 1
      && Header(db.products[pid].name) + ColorHeader(db.colors[cs[0]].name) <= n.message
      && EndsWith(n.message, Link(db.products[pid].url))
  {
    var cs := ColorsOf(db.colors, pid);
    var link := Link(db.products[pid].url);
    CaptionStartsWithFirstColor(db, pid, cs);
    var c := Caption(db, pid, cs);
    assert (c + link)[|c|..] == link;
  }

  /** A caption over a non-empty list of colours starts with the header and the name of the first colour. */
  lemma {:induction false} CaptionStartsWithFirstColor(db: Db, pid: nat, cids: seq<nat>)
    requires pid < |db.products|
    requires forall k :: 0 <= k < |cids| ==> cids[k] < |db.colors|
    requires Renderable(db, cids) && cids != []
    ensures Header(db.products[pid].name) + ColorHeader(db.colors[cids[0]].name) <= Caption(db, pid, cids)
  {
    var n := |cids| - 1;
    var head := Header(db.products[pid].name);
    var first := ColorHeader(db.colors[cids[0]].name);
    if n > 0 {
      CaptionStartsWithFirstColor(db, pid, cids[..n]);
      var front := Caption(db, pid, cids[..n]);
      assert (front + ColorText(db.colors[cids[n]].name, History(db.traces, cids[n])))[..|head + first|] == head + first;
    } else {
      var block := ColorText(db.colors[cids[0]].name, History(db.traces, cids[0]));
      assert (head + block)[..|head + first|] == head + first;
    }
  }

  /** One more colour extends the caption by its block. */
  lemma CaptionStep(db: Db, pid: nat, cids: seq<nat>, i: nat)
    requires pid < |db.products| && i < |cids|
    requires forall k :: 0 <= k < |cids| ==> cids[k] < |db.colors|
    requires Renderable(db, cids[..i]) && !ZeroBeforeNewest(History(db.traces, cids[i]))
    ensures Renderable(db, cids[..i + 1])
    ensures Caption(db, pid, cids[..i + 1]) == Caption(db, pid, cids[..i]) + ColorText(db.colors[cids[i]].name, History(db.traces, cids[i]))
  {
    assert cids[..i + 1][..i] == cids[..i];
  }

  /** `s` ends with `suffix`. */
  predicate EndsWith(s: string, suffix: string) {
    |suffix| <= |s| && s[|s| - |suffix|..] == suffix
  }

  /**
   * One iteration of the inner loop of `announce_product_price_change`: the
   * percentage against the previous price, its note and the line.
   */
  method RenderLine(t: PriceTrace, lastPrice: Option<nat>) returns (r: Result<string, ReportError>)
    ensures r == if lastPrice == Some(0) then Err(ZeroPrice) else Ok(Line(t, lastPrice))
  {
    var text := "";
    if lastPrice.Some? {
      if lastPrice.value == 0 {
        return Err(ZeroPrice);
      }
      if t.price != lastPrice.value {
        text := " (" + SignedText(RoundHalfEven((t.price - lastPrice.value) * 100, lastPrice.value)) + "%)";
      }
    }
    assert text == Annotation(lastPrice, t.price).value;
    r := Ok(DateText(t.createdAt.date) + ": " + PriceText(t.price) + text);
  }

  /**
   * The inner loop of `announce_product_price_change`: the lines of one
   * colour's history in creation order, each priced against the one before.
   */
  method ColorLines(h: seq<PriceTrace>) returns (r: Result<seq<string>, ReportError>)
    ensures r == Entries(h)
  {
    var prices: seq<string> := [];
    var lastPrice: Option<nat> := None;
    var j := 0;
    while j < |h|
      invariant 0 <= j <= |h|
      invariant forall k :: 0 <= k < j - 1 ==> h[k].price != 0
      invariant prices == LinesUpTo(h, j)
      invariant lastPrice == if j == 0 then None else Some(h[j - 1].price)
    {
      var line := RenderLine(h[j], lastPrice);
      if line.Err? {
        EntriesFail(h, j - 1);
        return Err(ZeroPrice);
      }
      LinesUpToStep(h, j, lastPrice);
      prices := prices + [line.value];
      lastPrice := Some(h[j].price);
      j := j + 1;
    }
    EntriesSucceed(h);
    r := Ok(prices);
  }

  /**
   * `announce_product_price_change(product)`: the caption is built colour by
   * colour, each colour's lines reversed to put the newest first; the photos
   * are those of the last colour of the loop.
   */
  method AnnounceProductPriceChange(db: Db, pid: nat) returns (r: Result<Notification, ReportError>)
    requires pid < |db.products|
    ensures r == Announcement(db, pid)
  {
    var p := db.products[pid];
    var message := Header(p.name);
    var cs := ColorsOf(db.colors, pid);
    var i := 0;
    while i < |cs|
      invariant 0 <= i <= |cs|
      invariant Renderable(db, cs[..i]) && message == Caption(db, pid, cs[..i])
    {
      var color := db.colors[cs[i]];
      var h := History(db.traces, cs[i]);
      var lines := ColorLines(h);
      if lines.Err? {
        return Err(ZeroPrice);
      }
      var prices := Reverse(lines.value);
      ghost var before := message;
      message := message + (ColorHeader(color.name) + (Join(prices, "\n") + "\n\n"));
      assert message == before + ColorText(color.name, h);
      CaptionStep(db, pid, cs, i);
      i := i + 1;
    }
    assert cs[..i] == cs;
    if |cs| == 0 {
      return Err(NoColor);
    }
    message := message + Link(p.url);
    var images := Split(db.colors[cs[|cs| - 1]].image, ListSeparator);
    r := Ok(Notification(p.market, images, message));
  }
}
