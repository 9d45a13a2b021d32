/**
 * The end-of-run discount report (`share_discount_reports`): the products
 * that got a new price twice on the day are examined colour by colour; a
 * product whose latest price of some colour fell by at least a quarter from
 * the price before it gets its price report sent, when a Telegram token is
 * configured. A report that cannot be produced aborts the rest of the run.
 */
module Discounts {
  import opened Wrappers
  import opened Items
  import opened Announcements
  import opened Sequences

  /** A fall of at least this many percent makes a product worth announcing. */
  const MinimalPriceDropPercentage: nat := 25

  // ---------------------------------------------------------------------------
  // The products that changed on a day.

  /** How many traces of colour `cid` were created on `date`. */
  function CountOn(traces: seq<PriceTrace>, cid: nat, date: Date): (n: nat)
    ensures n <= |History(traces, cid)|
  {
    if traces == [] then 0
    else
      var last := traces[|traces| - 1];
      CountOn(traces[..|traces| - 1], cid, date) + (if last.color == cid && last.createdAt.date == date then 1 else 0)
  }

  /** Some colour of product `pid` got more than one trace on `date` (the `having count > 1` group). */
  predicate ChangedOn(db: Db, pid: nat, date: Date) {
    exists cid :: 0 <= cid < |db.colors| && db.colors[cid].product == pid && CountOn(db.traces, cid, date) > 1
  }

  /** The products among the first `n` rows that changed on `date`, in row order. */
  function ChangedUpTo(db: Db, date: Date, n: nat): (r: seq<nat>)
    requires n <= |db.products|
    ensures forall k :: 0 <= k < |r| ==> r[k] < n
  {
    if n == 0 then []
    else ChangedUpTo(db, date, n - 1) + (if ChangedOn(db, n - 1, date) then [n - 1] else [])
  }

  /** The elements of `r` are in strictly increasing order. */
  predicate Increasing(r: seq<nat>) {
    forall j, k :: 0 <= j < k < |r| ==> r[j] < r[k]
  }

  /** Scanning the first `n` rows keeps exactly the products changed on `date`, in increasing order. */
  lemma {:induction false} ChangedUpToMeaning(db: Db, date: Date, n: nat)
    requires n <= |db.products|
    ensures forall p: nat :: p in ChangedUpTo(db, date, n) <==> p < n && ChangedOn(db, p, date)
    ensures Increasing(ChangedUpTo(db, date, n))
  {
    if n > 0 {
      ChangedUpToMeaning(db, date, n - 1);
      var front := ChangedUpTo(db, date, n - 1);
      if ChangedOn(db, n - 1, date) {
        assert ChangedUpTo(db, date, n) == front + [n - 1];
      } else {
        assert ChangedUpTo(db, date, n) == front + [];
        assert front + [] == front;
      }
    }
  }

  /** The products changed on `date` (`changed_products`), in row order. */
  function ChangedProducts(db: Db, date: Date): seq<nat> {
    ChangedUpTo(db, date, |db.products|)
  }

  /** Some colour of product `pid` has at least two traces. */
  predicate HasTwoTraces(db: Db, pid: nat) {
    exists cid :: 0 <= cid < |db.colors| && db.colors[cid].product == pid && |History(db.traces, cid)| >= 2
  }

  /**
   * Exactly the products that changed on `date` are examined, each once,
   * in row order; each of them has a colour with at least two traces.
   */
  lemma ChangedProductsExactly(db: Db, date: Date)
    ensures var r := ChangedProducts(db, date);
      && (forall p: nat :: p in r <==> p < |db.products| && ChangedOn(db, p, date))
      && Increasing(r)
      && (forall k :: 0 <= k < |r| ==> HasTwoTraces(db, r[k]))
  {
    var r := ChangedProducts(db, date);
    ChangedUpToMeaning(db, date, |db.products|);
    forall k | 0 <= k < |r|
      ensures HasTwoTraces(db, r[k])
    {
      assert r[k] in r;
      var cid :| 0 <= cid < |db.colors| && db.colors[cid].product == r[k] && CountOn(db.traces, cid, date) > 1;
    }
  }

  /** Trace `t` is of colour `cid` and was created on `date`. */
  predicate OnDay(t: PriceTrace, cid: nat, date: Date) {
    t.color == cid && t.createdAt.date == date
  }

  /** A colour got a trace on `date` exactly when some trace of it has that date. */
  lemma {:induction false} CountOnPositive(traces: seq<PriceTrace>, cid: nat, date: Date)
    ensures CountOn(traces, cid, date) > 0 <==> exists i :: 0 <= i < |traces| && OnDay(traces[i], cid, date)
  {
    if traces != [] {
      var n := |traces| - 1;
      var front := traces[..n];
      CountOnPositive(front, cid, date);
      if exists i :: 0 <= i < n && OnDay(front[i], cid, date) {
        var i :| 0 <= i < n && OnDay(front[i], cid, date);
        assert traces[i] == front[i];
      }
      if exists i :: 0 <= i < |traces| && OnDay(traces[i], cid, date) {
        var i :| 0 <= i < |traces| && OnDay(traces[i], cid, date);
        if i < n {
          assert front[i] == traces[i];
        }
      }
    }
  }

  /** Two traces of a colour on `date`, at positions `i < j`. */
  predicate TwiceOn(traces: seq<PriceTrace>, cid: nat, date: Date) {
    exists i, j :: 0 <= i < j < |traces| && OnDay(traces[i], cid, date) && OnDay(traces[j], cid, date)
  }

  /**
   * A colour changed more than once on `date` (the `count > 1` of the day's
   * grouping) exactly when two of its traces carry that date.
   */
  lemma {:induction false} CountOnTwice(traces: seq<PriceTrace>, cid: nat, date: Date)
    ensures CountOn(traces, cid, date) > 1 <==> TwiceOn(traces, cid, date)
  {
    if traces != [] {
      var front := traces[..|traces| - 1];
      CountOnTwice(front, cid, date);
      CountOnPositive(front, cid, date);
      if CountOn(traces, cid, date) > 1 {
        TwiceFromCount(traces, cid, date);
      }
      if TwiceOn(traces, cid, date) {
        CountFromTwice(traces, cid, date);
      }
    }
  }

  /** The step of `CountOnTwice` from a count above one to two dated traces. */
  lemma TwiceFromCount(traces: seq<PriceTrace>, cid: nat, date: Date)
    requires traces != [] && CountOn(traces, cid, date) > 1
    requires var front := traces[..|traces| - 1];
      && (CountOn(front, cid, date) > 1 ==> TwiceOn(front, cid, date))
      && (CountOn(front, cid, date) > 0 ==> exists i :: 0 <= i < |front| && OnDay(front[i], cid, date))
    ensures TwiceOn(traces, cid, date)
  {
    var n := |traces| - 1;
    var front := traces[..n];
    if CountOn(front, cid, date) > 1 {
      var i, j :| 0 <= i < j < n && OnDay(front[i], cid, date) && OnDay(front[j], cid, date);
      assert traces[i] == front[i] && traces[j] == front[j];
    } else {
      var i :| 0 <= i < n && OnDay(front[i], cid, date);
      assert traces[i] == front[i];
      assert OnDay(traces[n], cid, date);
    }
  }

  /** The step of `CountOnTwice` from two dated traces to a count above one. */
  lemma CountFromTwice(traces: seq<PriceTrace>, cid: nat, date: Date)
    requires traces != [] && TwiceOn(traces, cid, date)
    requires var front := traces[..|traces| - 1];
      && (TwiceOn(front, cid, date) ==> CountOn(front, cid, date) > 1)
      && ((exists i :: 0 <= i < |front| && OnDay(front[i], cid, date)) ==> CountOn(front, cid, date) > 0)
    ensures CountOn(traces, cid, date) > 1
  {
    var n := |traces| - 1;
    var front := traces[..n];
    var i, j :| 0 <= i < j < |traces| && OnDay(traces[i], cid, date) && OnDay(traces[j], cid, date);
    assert front[i] == traces[i];
    if j < n {
      assert front[j] == traces[j];
    }
  }

  // ---------------------------------------------------------------------------
  // The significant price drop.

  /** A fall from `previous` to `current` of at least the minimal percentage. */
  predicate SignificantFall(previous: nat, current: nat) {
    current < previous && (previous - current) * 100 >= MinimalPriceDropPercentage * previous
  }

  /**
   * The integer test is the test in `share_discount_reports`,
   * `(previous - current) / previous * 100 >= 25`, on exact real numbers.
   */
  lemma SignificantFallIsPercentage(previous: nat, current: nat)
    requires current < previous
    ensures SignificantFall(previous, current) <==>
      (previous - current) as real / previous as real * 100.0 >= MinimalPriceDropPercentage as real
  {
    PercentageAtLeast((previous - current) as real, previous as real);
  }

  /** A share `n / m` is at least 25 percent exactly when four times `n` reaches `m`. */
  lemma PercentageAtLeast(n: real, m: real)
    requires m > 0.0
    ensures n / m * 100.0 >= 25.0 <==> n * 4.0 >= m
  {
    var r := n / m;
    assert r * m == n;
    ScaleComparison(r * 4.0, 1.0, m);
    assert r * 4.0 * m == n * 4.0;
  }

  /** Multiplying both sides by a positive number keeps a comparison. */
  lemma ScaleComparison(a: real, b: real, p: real)
    requires p > 0.0
    ensures a >= b <==> a * p >= b * p
  {
    if a >= b {
      assert a * p - b * p == (a - b) * p;
    } else {
      assert b * p - a * p == (b - a) * p;
    }
  }

  /** The newest price of a history fell significantly from the one before it. */
  predicate SignificantDrop(h: seq<PriceTrace>) {
    |h| >= 2 && SignificantFall(h[|h| - 2].price, h[|h| - 1].price)
  }

  /** Some colour of product `pid` has a significant drop (`has_significant_price_drop`). */
  predicate Flagged(db: Db, pid: nat) {
    var cs := ColorsOf(db.colors, pid);
    exists k :: 0 <= k < |cs| && SignificantDrop(History(db.traces, cs[k]))
  }

  /**
   * The test in `share_discount_reports` on a colour's history, in exact real arithmetic: two
   * traces at least, the newest cheaper than the one before it, and
   * `(previous - current) / previous * 100` at least the minimal percentage.
   */
  ghost predicate DropsByPercentage(h: seq<PriceTrace>) {
    && |h| >= 2
    && h[|h| - 1].price < h[|h| - 2].price
    && (h[|h| - 2].price - h[|h| - 1].price) as real / h[|h| - 2].price as real * 100.0
         >= MinimalPriceDropPercentage as real
  }

  /** The integer test on a history is the real-valued percentage test. */
  lemma SignificantDropIsPercentage(h: seq<PriceTrace>)
    ensures SignificantDrop(h) <==> DropsByPercentage(h)
  {
    if |h| >= 2 && h[|h| - 1].price < h[|h| - 2].price {
      SignificantFallIsPercentage(h[|h| - 2].price, h[|h| - 1].price);
    }
  }

  /**
   * A product is flagged exactly when one of its colours has two traces or
   * more, the newest cheaper than the one before, by a share of at least the
   * minimal percentage; a product without colours is never flagged.
   */
  lemma FlaggedMeans(db: Db, pid: nat)
    ensures var cs := ColorsOf(db.colors, pid);
      Flagged(db, pid) <==> exists k :: 0 <= k < |cs| && DropsByPercentage(History(db.traces, cs[k]))
    ensures Flagged(db, pid) ==> ColorsOf(db.colors, pid) != []
  {
    var cs := ColorsOf(db.colors, pid);
    forall k | 0 <= k < |cs| ensures SignificantDrop(History(db.traces, cs[k])) <==> DropsByPercentage(History(db.traces, cs[k])) {
      SignificantDropIsPercentage(History(db.traces, cs[k]));
    }
  }

  // ---------------------------------------------------------------------------
  // Sharing the reports.

  /**
   * What the run does for one product: nothing (`None`), or the outcome of
   * its announcement.
   */
  type Attempt = Option<Result<Notification, ReportError>>

  /** An attempt whose announcement raised. */
  predicate IsFailure(x: Attempt) {
    x.Some? && x.value.Err?
  }

  /** What a run of the report sends, and the error that stopped it, if any. */
  datatype Outcome = Outcome(sent: seq<Notification>, failure: Option<ReportError>)

  /** Running the attempts in order: the first failure ends the run. */
  function Run(attempts: seq<Attempt>): (o: Outcome)
    ensures |o.sent| <= |attempts|
  {
    if attempts == [] then Outcome([], None)
    else match attempts[0]
      case None => Run(attempts[1..])
      case Some(Err(e)) => Outcome([], Some(e))
      case Some(Ok(n)) =>
        var o := Run(attempts[1..]);
        Outcome([n] + o.sent, o.failure)
  }

  /** The notifications of the successful announcements among `attempts`, in order. */
  function Announced(attempts: seq<Attempt>): (r: seq<Notification>)
    ensures |r| <= |attempts|
  {
    if attempts == [] then []
    else (if attempts[0].Some? && attempts[0].value.Ok? then [attempts[0].value.value] else []) + Announced(attempts[1..])
  }

  /**
   * A run without failures sends every successful announcement and ends
   * without error; otherwise it sends those before the first failure and
   * stops with that failure's error.
   */
  lemma {:induction false} RunMeaning(attempts: seq<Attempt>)
    ensures (forall k :: 0 <= k < |attempts| ==> !IsFailure(attempts[k])) ==>
      Run(attempts) == Outcome(Announced(attempts), None)
    ensures forall e :: 0 <= e < |attempts| && IsFailure(attempts[e]) && (forall k :: 0 <= k < e ==> !IsFailure(attempts[k])) ==>
      Run(attempts) == Outcome(Announced(attempts[..e]), Some(attempts[e].value.error))
  {
    if attempts != [] {
      var rest := attempts[1..];
      RunMeaning(rest);
      if forall k :: 0 <= k < |attempts| ==> !IsFailure(attempts[k]) {
        assert forall k :: 0 <= k < |rest| ==> !IsFailure(rest[k]) by {
          forall k | 0 <= k < |rest| ensures !IsFailure(rest[k]) {
            assert rest[k] == attempts[k + 1];
          }
        }
      }
      forall e | 0 <= e < |attempts| && IsFailure(attempts[e]) && (forall k :: 0 <= k < e ==> !IsFailure(attempts[k]))
        ensures Run(attempts) == Outcome(Announced(attempts[..e]), Some(attempts[e].value.error))
      {
        if e > 0 {
          RunFailureLater(attempts, e);
        }
      }
    }
  }

  /** The inductive step of `RunMeaning` for a failure after the first attempt. */
  lemma RunFailureLater(attempts: seq<Attempt>, e: nat)
    requires 0 < e < |attempts| && IsFailure(attempts[e])
    requires forall k :: 0 <= k < e ==> !IsFailure(attempts[k])
    requires var rest := attempts[1..];
      forall f :: 0 <= f < |rest| && IsFailure(rest[f]) && (forall k :: 0 <= k < f ==> !IsFailure(rest[k])) ==>
        Run(rest) == Outcome(Announced(rest[..f]), Some(rest[f].value.error))
    ensures Run(attempts) == Outcome(Announced(attempts[..e]), Some(attempts[e].value.error))
  {
    var rest := attempts[1..];
    assert rest[e - 1] == attempts[e];
    assert forall k :: 0 <= k < e - 1 ==> !IsFailure(rest[k]) by {
      forall k | 0 <= k < e - 1 ensures !IsFailure(rest[k]) {
        assert rest[k] == attempts[k + 1];
      }
    }
    assert attempts[..e][0] == attempts[0];
    assert attempts[..e][1..] == rest[..e - 1];
  }

  /** A run of one more attempt, in front of `rest`. */
  lemma RunCons(x: Attempt, rest: seq<Attempt>)
    ensures Run([x] + rest) ==
      match x
        case None => Run(rest)
        case Some(Err(e)) => Outcome([], Some(e))
        case Some(Ok(n)) => Outcome([n] + Run(rest).sent, Run(rest).failure)
  {
    assert ([x] + rest)[1..] == rest;
  }

  /** Every notification in `sent` is announced by one of `attempts`. */
  predicate SentFrom(attempts: seq<Attempt>, sent: seq<Notification>) {
    forall j :: 0 <= j < |sent| ==> exists k :: 0 <= k < |attempts| && attempts[k] == Some(Ok(sent[j]))
  }

  /** Whatever a run sends comes from a successful attempt. */
  lemma {:induction false} RunSentFrom(attempts: seq<Attempt>)
    ensures SentFrom(attempts, Run(attempts).sent)
  {
    if attempts != [] {
      var rest := attempts[1..];
      RunSentFrom(rest);
      assert attempts == [attempts[0]] + rest;
      RunCons(attempts[0], rest);
      var o, t := Run(attempts), Run(rest);
      var shift := if attempts[0].Some? && attempts[0].value.Ok? then 1 else 0;
      forall j | 0 <= j < |o.sent|
        ensures exists k :: 0 <= k < |attempts| && attempts[k] == Some(Ok(o.sent[j]))
      {
        if j < shift {
          assert attempts[0] == Some(Ok(o.sent[j]));
        } else {
          assert o.sent[j] == t.sent[j - shift];
          var k :| 0 <= k < |rest| && rest[k] == Some(Ok(t.sent[j - shift]));
          assert attempts[k + 1] == rest[k];
        }
      }
    }
  }

  /** A run that stops does so on a failed attempt. */
  lemma {:induction false} RunFailedOn(attempts: seq<Attempt>)
    ensures Run(attempts).failure.Some? ==>
      exists k :: 0 <= k < |attempts| && attempts[k] == Some(Err(Run(attempts).failure.value))
  {
    if attempts != [] {
      var rest := attempts[1..];
      RunFailedOn(rest);
      assert attempts == [attempts[0]] + rest;
      RunCons(attempts[0], rest);
      if Run(attempts).failure.Some? && attempts[0] != Some(Err(Run(attempts).failure.value)) {
        var k :| 0 <= k < |rest| && rest[k] == Some(Err(Run(rest).failure.value));
        assert attempts[k + 1] == rest[k];
      }
    }
  }

  /** What the report does for product `pid`: announce it when it is flagged and a token is configured. */
  function AttemptFor(db: Db, tgToken: bool, pid: nat): Attempt {
    if pid < |db.products| && Flagged(db, pid) && tgToken then Some(Announcement(db, pid)) else None
  }

  /** The attempts of the report for the products `pids`, in order. */
  function Attempts(db: Db, tgToken: bool, pids: seq<nat>): (r: seq<Attempt>)
    ensures |r| == |pids|
  {
    if pids == [] then []
    else [AttemptFor(db, tgToken, pids[0])] + Attempts(db, tgToken, pids[1..])
  }

  /** The attempt at position `k` is the one for the `k`-th product. */
  lemma {:induction false} AttemptsAt(db: Db, tgToken: bool, pids: seq<nat>, k: nat)
    requires k < |pids|
    ensures Attempts(db, tgToken, pids)[k] == AttemptFor(db, tgToken, pids[k])
  {
    if k > 0 {
      AttemptsAt(db, tgToken, pids[1..], k - 1);
    }
  }

  /** The attempts from position `i` on: the one for `pids[i]`, then the rest. */
  lemma AttemptsStep(db: Db, tgToken: bool, pids: seq<nat>, i: nat)
    requires i < |pids|
    ensures Attempts(db, tgToken, pids[i..]) == [AttemptFor(db, tgToken, pids[i])] + Attempts(db, tgToken, pids[i + 1..])
  {
    assert pids[i..][0] == pids[i];
    assert pids[i..][1..] == pids[i + 1..];
  }

  /** Without a Telegram token nothing is attempted. */
  lemma {:induction false} NoTokenNoAttempts(db: Db, pids: seq<nat>)
    ensures Run(Attempts(db, false, pids)) == Outcome([], None)
  {
    if pids != [] {
      NoTokenNoAttempts(db, pids[1..]);
      RunCons(None, Attempts(db, false, pids[1..]));
    }
  }

  /** The report of a flagged product never fails for want of a colour. */
  lemma FlaggedReportHasColor(db: Db, pid: nat)
    requires pid < |db.products| && Flagged(db, pid)
    ensures Announcement(db, pid) != Err(NoColor)
  {
    AnnouncementFailure(db, pid);
  }

  /**
   * An attempt only fails for a flagged product with a token configured, and
   * then because one of its colours has a zero price before its newest; a
   * missing colour never stops the report, since a flagged product has one.
   */
  lemma AttemptFailure(db: Db, tgToken: bool, pid: nat)
    requires pid < |db.products|
    ensures IsFailure(AttemptFor(db, tgToken, pid)) ==>
      && tgToken && Flagged(db, pid)
      && AttemptFor(db, tgToken, pid) == Some(Err(ZeroPrice))
      && exists c :: 0 <= c < |ColorsOf(db.colors, pid)| && ZeroBeforeNewest(History(db.traces, ColorsOf(db.colors, pid)[c]))
  {
    if IsFailure(AttemptFor(db, tgToken, pid)) {
      FlaggedReportHasColor(db, pid);
      AnnouncementFailure(db, pid);
    }
  }

  /** `n` is the report of product `pid`, which is flagged. */
  predicate ReportOf(db: Db, pid: nat, n: Notification) {
    pid < |db.products| && Flagged(db, pid) && Announcement(db, pid) == Ok(n)
  }

  /** Every notification in `sent` is the report of a flagged product among `pids`. */
  predicate ReportsOfFlagged(db: Db, pids: seq<nat>, sent: seq<Notification>) {
    forall j :: 0 <= j < |sent| ==> exists k :: 0 <= k < |pids| && ReportOf(db, pids[k], sent[j])
  }

  /**
   * What the report does for the products `pids`: without a token nothing;
   * otherwise every notification sent is the report of a flagged product
   * among them, and a run that stops does so with a zero-price error.
   */
  lemma RunOfAttemptsMeaning(db: Db, tgToken: bool, pids: seq<nat>)
    ensures !tgToken ==> Run(Attempts(db, tgToken, pids)) == Outcome([], None)
    ensures ReportsOfFlagged(db, pids, Run(Attempts(db, tgToken, pids)).sent)
    ensures Run(Attempts(db, tgToken, pids)).failure.Some? ==> tgToken && Run(Attempts(db, tgToken, pids)).failure == Some(ZeroPrice)
  {
    var a := Attempts(db, tgToken, pids);
    var o := Run(a);
    if !tgToken {
      NoTokenNoAttempts(db, pids);
    }
    RunSentFrom(a);
    forall j | 0 <= j < |o.sent|
      ensures exists k :: 0 <= k < |pids| && ReportOf(db, pids[k], o.sent[j])
    {
      var k :| 0 <= k < |a| && a[k] == Some(Ok(o.sent[j]));
      AttemptsAt(db, tgToken, pids, k);
      assert ReportOf(db, pids[k], o.sent[j]);
    }
    RunFailedOn(a);
    if o.failure.Some? {
      var k :| 0 <= k < |a| && a[k] == Some(Err(o.failure.value));
      AttemptsAt(db, tgToken, pids, k);
      if pids[k] < |db.products| {
        AttemptFailure(db, tgToken, pids[k]);
      }
    }
  }

  // ---------------------------------------------------------------------------
  // The imperative report.

  /** The inner loop of `share_discount_reports`: whether some colour of `pid` dropped significantly. */
  method HasSignificantPriceDrop(db: Db, pid: nat) returns (flagged: bool)
    ensures flagged == Flagged(db, pid)
  {
    var cs := ColorsOf(db.colors, pid);
    flagged := false;
    var k := 0;
    while k < |cs|
      invariant 0 <= k <= |cs|
      invariant flagged <==> exists m :: 0 <= m < k && SignificantDrop(History(db.traces, cs[m]))
    {
      var h := History(db.traces, cs[k]);
      var newestFirst := Reverse(h);
      if |newestFirst| > 1 {
        var current, previous := newestFirst[0].price, newestFirst[1].price;
        if current < previous && (previous - current) * 100 >= MinimalPriceDropPercentage * previous {
          flagged := true;
        }
      }
      NewestFirstDrop(h);
      k := k + 1;
    }
  }

  /** Read newest first, a history dropped significantly when its first price fell enough from its second. */
  lemma NewestFirstDrop(h: seq<PriceTrace>)
    ensures SignificantDrop(h) <==>
      |Reverse(h)| > 1 && SignificantFall(Reverse(h)[1].price, Reverse(h)[0].price)
  {
    if |h| > 1 {
      assert Reverse(h)[0] == h[|h| - 1] && Reverse(h)[1] == h[|h| - 2];
    }
  }

  /** The body of the report's loop for product `pid`: announce it if it dropped and a token is set. */
  method ShareProduct(db: Db, tgToken: bool, pid: nat) returns (attempt: Attempt)
    requires pid < |db.products|
    ensures attempt == AttemptFor(db, tgToken, pid)
  {
    var flagged := HasSignificantPriceDrop(db, pid);
    attempt := None;
    if flagged && tgToken {
      var report := AnnounceProductPriceChange(db, pid);
      attempt := Some(report);
    }
  }

  /** The loop of the report over the products `pids`, stopping at the first failed announcement. */
  method ShareAll(db: Db, tgToken: bool, pids: seq<nat>) returns (sent: seq<Notification>, failure: Option<ReportError>)
    requires forall k :: 0 <= k < |pids| ==> pids[k] < |db.products|
    ensures Outcome(sent, failure) == Run(Attempts(db, tgToken, pids))
  {
    ghost var outcome := Run(Attempts(db, tgToken, pids));
    sent, failure := [], None;
    var i := 0;
    assert pids[i..] == pids;
    while i < |pids|
      invariant 0 <= i <= |pids|
      invariant var rest := Run(Attempts(db, tgToken, pids[i..]));
        outcome == Outcome(sent + rest.sent, rest.failure)
    {
      AttemptsStep(db, tgToken, pids, i);
      RunCons(AttemptFor(db, tgToken, pids[i]), Attempts(db, tgToken, pids[i + 1..]));
      var attempt := ShareProduct(db, tgToken, pids[i]);
      ghost var rest := Run(Attempts(db, tgToken, pids[i + 1..]));
      match attempt {
        case None =>
        case Some(Err(e)) =>
          failure := Some(e);
          return;
        case Some(Ok(n)) =>
          AppendOne(sent, n, rest.sent);
          sent := sent + [n];
      }
      i := i + 1;
    }
  }

  /**
   * `share_discount_reports()`: every product changed on `today` that has a
   * significant drop is announced, in row order, while a token is
   * configured; the notifications go out in `sent`, and an announcement that
   * fails stops the run with its error.
   */
  method ShareDiscountReports(db: Db, today: Date, tgToken: bool) returns (sent: seq<Notification>, failure: Option<ReportError>)
    ensures Outcome(sent, failure) == Run(Attempts(db, tgToken, ChangedProducts(db, today)))
  {
    var pids := ChangedProducts(db, today);
    sent, failure := ShareAll(db, tgToken, pids);
  }
}
