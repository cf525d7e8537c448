/** The exchange-rate engine (currency_exchange.rs): rate tables of every
    currency against the euro, cached on disk and refreshed from the central
    bank's feed, their daily expansion, the rate between two currencies on a
    day, and the conversion of a ledger's amounts into one currency. */
module CurrencyExchange {
  import opened Wrappers
  import opened RateSeries

  // ---------------------------------------------------------------------------
  // Currencies and keys
  // ---------------------------------------------------------------------------

  /** A currency, named by its ISO 4217 code. */
  datatype Currency = Currency(code: string)

  /** BASE_CURRENCY: every stored table gives the value of one unit of a
      currency in euros. */
  const Base: Currency := Currency("EUR")

  predicate ValidCode(c: Currency)
  {
    |c.code| == 3
  }

  /** `key`: the map key of a currency pair, the two codes concatenated. */
  function Key(from: Currency, to: Currency): string
  {
    from.code + to.code
  }

  /** Keys of pairs whose first codes have the same length name the pair. */
  lemma KeyInjective(a: Currency, b: Currency, c: Currency, d: Currency)
    requires |a.code| == |c.code|
    ensures Key(a, b) == Key(c, d) <==> a == c && b == d
  {
    if Key(a, b) == Key(c, d) {
      assert a.code == Key(a, b)[..|a.code|];
      assert c.code == Key(c, d)[..|c.code|];
      assert b.code == Key(a, b)[|a.code|..];
      assert d.code == Key(c, d)[|c.code|..];
    }
  }

  /** Keys towards the base currency name their currency, whatever its length. */
  lemma KeyToBaseInjective(a: Currency, b: Currency)
    ensures Key(a, Base) == Key(b, Base) <==> a == b
  {
    if Key(a, Base) == Key(b, Base) {
      assert |a.code| == |b.code|;
      KeyInjective(a, Base, b, Base);
    }
  }

  // ---------------------------------------------------------------------------
  // Errors
  // ---------------------------------------------------------------------------

  datatype ExchangeError =
    | SeriesFailure(cause: SeriesError)   // a dataframe operation failed
    | CacheMiss                           // no readable cached table for the pair
    | FeedFailure                         // the request to the feed or its parsing failed
    | TooEarly                            // "too far away in the past" (an assertion abort)
    | TooLate                             // "too near the present" (an assertion abort)
    | NoValue                             // no row, or a null rate, on the day asked for
    | NoDate                              // a ledger row without a date
    | NoCurrency                          // a ledger row without a currency
    | UnknownCurrency(code: string)       // a code that names no currency

  type ExchangeResult = Result<real, ExchangeError>

  function FromSeries<T>(r: Result<T, SeriesError>): Result<T, ExchangeError>
  {
    r.MapFailure(e => SeriesFailure(e))
  }

  // ---------------------------------------------------------------------------
  // download
  // ---------------------------------------------------------------------------

  /** The central bank's feed: the daily observations of a currency (units of
      it per euro), from a start day on or over the whole history; `None` when
      the request or the parsing of its answer fails. */
  type Feed = (Currency, Option<int>) -> Option<Series>

  ghost predicate FeedNonZero(feed: Feed)
  {
    forall c: Currency, from: Option<int> :: feed(c, from).Some? ==> NonZeroValues(feed(c, from).value)
  }

  /** The feed honours the start day: each answer has one row per date, in
      order, none before the start day asked for. */
  ghost predicate FeedFromStart(feed: Feed)
  {
    forall c: Currency, from: Option<int> :: feed(c, from).Some? ==>
      && StrictlyIncreasing(feed(c, from).value)
      && (from.Some? ==> forall i :: 0 <= i < |feed(c, from).value| ==> from.value <= feed(c, from).value[i].date)
  }

  /** The stored rate is the reciprocal of the observation: euros per unit. */
  function Invert(obs: Series): (r: Series)
    requires NonZeroValues(obs)
    ensures |r| == |obs|
    ensures forall i :: 0 <= i < |obs| ==>
      r[i].date == obs[i].date && (r[i].value.Some? <==> obs[i].value.Some?)
    ensures forall i :: 0 <= i < |obs| && obs[i].value.Some? ==>
      r[i].value.value * obs[i].value.value == 1.0
    ensures NonZeroValues(r)
  {
    seq(|obs|, i requires 0 <= i < |obs| =>
      Row(obs[i].date, if obs[i].value.Some? then Some(1.0 / obs[i].value.value) else None))
  }

  /** Inverting twice gives the observations back. */
  lemma InvertInvolution(obs: Series)
    requires NonZeroValues(obs)
    ensures Invert(Invert(obs)) == obs
  {
    var r := Invert(obs);
    var rr := Invert(r);
    forall i | 0 <= i < |obs|
      ensures rr[i] == obs[i]
    {
      if obs[i].value.Some? {
        InvertBack(obs[i].value.value, r[i].value.value, rr[i].value.value);
      }
    }
  }

  lemma InvertBack(x: real, y: real, z: real)
    requires y * x == 1.0 && z * y == 1.0
    ensures z == x
  {
    assert z == z * (y * x) == (z * y) * x == x;
  }

  lemma InvertStrict(obs: Series)
    requires NonZeroValues(obs) && StrictlyIncreasing(obs)
    ensures StrictlyIncreasing(Invert(obs))
  {
  }

  /** `download`: the observations of `c` from the feed, inverted. */
  function Download(feed: Feed, c: Currency, from: Option<int>): (r: Result<Series, ExchangeError>)
    requires FeedNonZero(feed)
    ensures r.Success? <==> feed(c, from).Some?
    ensures r.Failure? ==> r.error == FeedFailure
    ensures r.Success? ==> NonZeroValues(r.value) && Invert(r.value) == feed(c, from).value
  {
    match feed(c, from)
    case None => Failure(FeedFailure)
    case Some(obs) =>
      InvertInvolution(obs);
      Success(Invert(obs))
  }

  // ---------------------------------------------------------------------------
  // load
  // ---------------------------------------------------------------------------

  /** The cached tables, by key (the files `data/exchange_rate_<key>.csv`). */
  type Disk = map<string, Series>

  /** The latest date of a non-empty table (`extreme_date` with `MAX`). */
  function Latest(s: Series): (d: int)
    requires |s| > 0
    ensures exists i :: 0 <= i < |s| && s[i].date == d
    ensures forall i :: 0 <= i < |s| ==> s[i].date <= d
  {
    var col := DateColumn(s);
    assert forall i :: 0 <= i < |s| ==> col[i] == Some(s[i].date);
    ExtremeDate(col, Max).value
  }

  /** `load`: the cached table of `c`; when its latest date is before today
      it is extended by the feed's rows from that date on, that date
      included. */
  function LoadAsWritten(disk: Disk, feed: Feed, c: Currency, today: int): (r: Result<Series, ExchangeError>)
    requires FeedNonZero(feed)
    ensures Key(c, Base) !in disk ==> r == Failure(CacheMiss)
    ensures Key(c, Base) in disk && |disk[Key(c, Base)]| == 0 ==> r == Failure(SeriesFailure(EmptyColumn))
    ensures r.Success? ==>
      var cached := disk[Key(c, Base)];
      |cached| <= |r.value| && r.value[..|cached|] == cached
    ensures Key(c, Base) in disk && |disk[Key(c, Base)]| > 0 ==>
      var cached := disk[Key(c, Base)];
      && (today <= Latest(cached) ==> r == Success(cached))
      && (Latest(cached) < today ==>
            && (r.Success? <==> feed(c, Some(Latest(cached))).Some?)
            && (r.Success? ==> NonZeroValues(r.value[|cached|..]) && Invert(r.value[|cached|..]) == feed(c, Some(Latest(cached))).value))
  {
    var key := Key(c, Base);
    if key !in disk then Failure(CacheMiss)
    else
      var cached := disk[key];
      var latest :- FromSeries(ExtremeDate(DateColumn(cached), Max));
      if latest < today then
        var newRows :- Download(feed, c, Some(latest));
        assert (cached + newRows)[..|cached|] == cached && (cached + newRows)[|cached|..] == newRows;
        Success(cached + newRows)
      else
        Success(cached)
  }

  /** Dates strictly increase from one row to the next, except that row `n`
      may share the date of the row before it. */
  predicate StrictExceptAt(s: Series, n: int)
  {
    forall i, j :: 0 <= i < |s| && 0 <= j < |s| && j == i + 1 ==>
      s[i].date < s[j].date || (j == n && s[i].date == s[j].date)
  }

  /** Appending rows with one row per date, none before the last row of a
      table with one row per date, keeps the dates in order; the result has
      one row per date unless the first appended row repeats that last date. */
  lemma JoinOrder(cached: Series, newRows: Series)
    requires StrictlyIncreasing(cached) && StrictlyIncreasing(newRows) && |cached| > 0
    requires |newRows| > 0 ==> cached[|cached| - 1].date <= newRows[0].date
    ensures Sorted(cached + newRows) && StrictExceptAt(cached + newRows, |cached|)
    ensures StrictlyIncreasing(cached + newRows) <==>
      |newRows| == 0 || cached[|cached| - 1].date < newRows[0].date
  {
    var r := cached + newRows;
    var n := |cached|;
    forall i, j | 0 <= i < |r| && 0 <= j < |r| && j == i + 1
      ensures r[i].date < r[j].date || (j == n && r[i].date == r[j].date)
    {
      if j < n {
        assert r[i] == cached[i] && r[j] == cached[j];
      } else if i < n {
        assert r[i] == cached[n - 1] && r[j] == newRows[0];
      } else {
        assert r[i] == newRows[i - n] && r[j] == newRows[j - n];
      }
    }
    if |newRows| > 0 {
      assert r[n - 1] == cached[n - 1] && r[n] == newRows[0];
    } else {
      assert r == cached;
    }
  }

  /** The refresh as written keeps the dates in order, with one row per date
      except the latest cached date, which repeats exactly when the feed
      answers with a row on that date. */
  lemma LoadRefreshOrder(disk: Disk, feed: Feed, c: Currency, today: int)
    requires FeedNonZero(feed) && FeedFromStart(feed)
    requires Key(c, Base) in disk && StrictlyIncreasing(disk[Key(c, Base)])
    requires LoadAsWritten(disk, feed, c, today).Success?
    ensures var cached := disk[Key(c, Base)];
      var r := LoadAsWritten(disk, feed, c, today).value;
      && |cached| > 0 && Sorted(r) && StrictExceptAt(r, |cached|)
      && (StrictlyIncreasing(r) <==> |r| == |cached| || Latest(cached) < r[|cached|].date)
  {
    var cached := disk[Key(c, Base)];
    var r := LoadAsWritten(disk, feed, c, today).value;
    var newRows := r[|cached|..];
    assert r == cached + newRows;
    assert Latest(cached) == cached[|cached| - 1].date by {
      SortedExtremes(cached);
    }
    if |newRows| > 0 {
      var obs := feed(c, Some(Latest(cached))).value;
      assert Invert(newRows) == obs;
      assert newRows[0].date == obs[0].date;
      StrictInverse(newRows, obs);
    }
    JoinOrder(cached, newRows);
  }

  /** A table whose inversion has one row per date has one itself. */
  lemma StrictInverse(rows: Series, obs: Series)
    requires NonZeroValues(rows) && Invert(rows) == obs && StrictlyIncreasing(obs)
    ensures StrictlyIncreasing(rows)
  {
    forall i, j | 0 <= i < |rows| && 0 <= j < |rows| && j == i + 1
      ensures rows[i].date < rows[j].date
    {
      assert rows[i].date == obs[i].date && rows[j].date == obs[j].date;
    }
  }

  /** The refresh the finding below sets against `load`: a stale table is
      extended by the feed's rows from the day after its latest date. */
  function Load(disk: Disk, feed: Feed, c: Currency, today: int): (r: Result<Series, ExchangeError>)
    requires FeedNonZero(feed)
    ensures Key(c, Base) !in disk ==> r == Failure(CacheMiss)
    ensures Key(c, Base) in disk && |disk[Key(c, Base)]| == 0 ==> r == Failure(SeriesFailure(EmptyColumn))
    ensures r.Success? ==>
      var cached := disk[Key(c, Base)];
      |cached| <= |r.value| && r.value[..|cached|] == cached
    ensures Key(c, Base) in disk && |disk[Key(c, Base)]| > 0 ==>
      var cached := disk[Key(c, Base)];
      && (today <= Latest(cached) ==> r == Success(cached))
      && (Latest(cached) < today ==>
            && (r.Success? <==> feed(c, Some(Latest(cached) + 1)).Some?)
            && (r.Success? ==> NonZeroValues(r.value[|cached|..]) && Invert(r.value[|cached|..]) == feed(c, Some(Latest(cached) + 1)).value))
  {
    var key := Key(c, Base);
    if key !in disk then Failure(CacheMiss)
    else
      var cached := disk[key];
      var latest :- FromSeries(ExtremeDate(DateColumn(cached), Max));
      if latest < today then
        var newRows :- Download(feed, c, Some(latest + 1));
        assert (cached + newRows)[..|cached|] == cached && (cached + newRows)[|cached|..] == newRows;
        Success(cached + newRows)
      else
        Success(cached)
  }

  /** A feed that answers every request with one observation, 2.0 units per
      euro, on the start day asked for. */
  function EchoFeed(c: Currency, from: Option<int>): Option<Series>
  {
    if from.Some? then Some([Row(from.value, Some(2.0))]) else None
  }

  /** Finding: with a feed that answers from the start day on, the day already
      cached is appended a second time. */
  lemma LoadAsWrittenRepeatsLatest()
    ensures FeedNonZero(EchoFeed) && FeedFromStart(EchoFeed)
    ensures var disk := map[Key(Currency("USD"), Base) := [Row(1, Some(0.5))]];
      && LoadAsWritten(disk, EchoFeed, Currency("USD"), 3) == Success([Row(1, Some(0.5)), Row(1, Some(0.5))])
      && Load(disk, EchoFeed, Currency("USD"), 3) == Success([Row(1, Some(0.5)), Row(2, Some(0.5))])
    ensures !StrictlyIncreasing([Row(1, Some(0.5)), Row(1, Some(0.5))])
  {
    var cached := [Row(1, Some(0.5))];
    assert DateColumn(cached) == [Some(1)];
    assert ExtremeDate(DateColumn(cached), Max) == Success(1) by {
      assert DateColumn(cached)[1..] == [];
    }
    var usd := Currency("USD");
    assert Invert([Row(1, Some(2.0))]) == [Row(1, Some(0.5))];
    assert Invert([Row(2, Some(2.0))]) == [Row(2, Some(0.5))];
    assert Download(EchoFeed, usd, Some(1)) == Success([Row(1, Some(0.5))]);
    assert Download(EchoFeed, usd, Some(2)) == Success([Row(2, Some(0.5))]);
    assert cached + [Row(1, Some(0.5))] == [Row(1, Some(0.5)), Row(1, Some(0.5))];
    assert cached + [Row(2, Some(0.5))] == [Row(1, Some(0.5)), Row(2, Some(0.5))];
    var s := [Row(1, Some(0.5)), Row(1, Some(0.5))];
    assert s[0].date == s[1].date;
  }

  /** With the refresh from the next day and a feed that honours the start
      day, a refreshed table keeps one row per date. */
  lemma LoadOneRowPerDay(disk: Disk, feed: Feed, c: Currency, today: int)
    requires FeedNonZero(feed) && FeedFromStart(feed)
    requires Key(c, Base) in disk && StrictlyIncreasing(disk[Key(c, Base)])
    requires Load(disk, feed, c, today).Success?
    ensures StrictlyIncreasing(Load(disk, feed, c, today).value)
  {
    var cached := disk[Key(c, Base)];
    var r := Load(disk, feed, c, today).value;
    var newRows := r[|cached|..];
    assert r == cached + newRows;
    assert Latest(cached) == cached[|cached| - 1].date by {
      SortedExtremes(cached);
    }
    if |newRows| > 0 {
      var obs := feed(c, Some(Latest(cached) + 1)).value;
      assert Invert(newRows) == obs;
      assert newRows[0].date == obs[0].date;
      StrictInverse(newRows, obs);
    }
    JoinOrder(cached, newRows);
  }

  // ---------------------------------------------------------------------------
  // init
  // ---------------------------------------------------------------------------

  /** The engine: the raw tables, as loaded or downloaded, and their daily
      expansions, both keyed by `Key(currency, Base)`. */
  datatype Engine = Engine(raw: map<string, Series>, expanded: map<string, Series>)

  /** The table `init` obtains for `c`: the cached and refreshed one, or, when
      that fails for any reason, the whole history from the feed. */
  function Obtain(disk: Disk, feed: Feed, c: Currency, today: int): Result<Series, ExchangeError>
    requires FeedNonZero(feed)
  {
    match LoadAsWritten(disk, feed, c, today)
    case Success(s) => Success(s)
    case Failure(_) => Download(feed, c, None)
  }

  /** What `init` stores for a currency other than the base: the obtained
      table and its expansion with today's row. */
  function Prepare(disk: Disk, feed: Feed, c: Currency, today: int): (r: Result<(Series, Series), ExchangeError>)
    requires FeedNonZero(feed)
    ensures r.Success? <==>
      Obtain(disk, feed, c, today).Success? && Expand(Obtain(disk, feed, c, today).value, true, today).Success?
    ensures r.Success? ==>
      Obtain(disk, feed, c, today) == Success(r.value.0) && Expand(r.value.0, true, today) == Success(r.value.1)
  {
    var data :- Obtain(disk, feed, c, today);
    var expanded :- FromSeries(Expand(data, true, today));
    Success((data, expanded))
  }

  /** The keys `init` fills: one per currency other than the base. */
  function BaseKeys(currencies: seq<Currency>): set<string>
  {
    set c | c in currencies && c != Base :: Key(c, Base)
  }

  /** The engine `init` builds from the per-currency outcomes `prepare`: for
      each currency other than the base, the prepared raw table and its
      expansion under the key towards the base, and no other key. */
  ghost predicate Built(e: Engine, currencies: seq<Currency>, prepare: Currency -> Result<(Series, Series), ExchangeError>)
  {
    && e.raw.Keys == BaseKeys(currencies)
    && e.expanded.Keys == BaseKeys(currencies)
    && forall c :: c in currencies && c != Base ==>
         && prepare(c).Success?
         && e.raw[Key(c, Base)] == prepare(c).value.0
         && e.expanded[Key(c, Base)] == prepare(c).value.1
  }

  /** The loop of `init`, over the currencies in enumeration order: the base
      is skipped, every other currency's outcome is stored under its key; the
      first failure aborts with its error. */
  method Build(currencies: seq<Currency>, prepare: Currency -> Result<(Series, Series), ExchangeError>)
    returns (r: Result<Engine, ExchangeError>)
    ensures r.Success? <==> forall c :: c in currencies && c != Base ==> prepare(c).Success?
    ensures r.Success? ==> Built(r.value, currencies, prepare)
    ensures r.Failure? ==> exists i ::
      && 0 <= i < |currencies| && currencies[i] != Base && prepare(currencies[i]) == Failure(r.error)
      && forall j :: 0 <= j < i && currencies[j] != Base ==> prepare(currencies[j]).Success?
  {
    var raw: map<string, Series> := map[];
    var expanded: map<string, Series> := map[];
    var i := 0;
    while i < |currencies|
      invariant 0 <= i <= |currencies|
      invariant forall j :: 0 <= j < i && currencies[j] != Base ==> prepare(currencies[j]).Success?
      invariant Built(Engine(raw, expanded), currencies[..i], prepare)
    {
      var c := currencies[i];
      assert currencies[..i + 1] == currencies[..i] + [c];
      if c != Base {
        var prepared := prepare(c);
        if prepared.Failure? {
          return Failure(prepared.error);
        }
        BuiltStep(Engine(raw, expanded), currencies[..i], prepare, c);
        raw := raw[Key(c, Base) := prepared.value.0];
        expanded := expanded[Key(c, Base) := prepared.value.1];
      } else {
        BuiltSkip(Engine(raw, expanded), currencies[..i], prepare);
      }
      i := i + 1;
    }
    assert currencies[..i] == currencies;
    return Success(Engine(raw, expanded));
  }

  /** Storing a prepared currency extends what is built by one key. */
  lemma BuiltStep(e: Engine, done: seq<Currency>, prepare: Currency -> Result<(Series, Series), ExchangeError>, c: Currency)
    requires Built(e, done, prepare) && c != Base && prepare(c).Success?
    ensures Built(Engine(e.raw[Key(c, Base) := prepare(c).value.0], e.expanded[Key(c, Base) := prepare(c).value.1]),
                  done + [c], prepare)
  {
    var raw := e.raw[Key(c, Base) := prepare(c).value.0];
    var expanded := e.expanded[Key(c, Base) := prepare(c).value.1];
    BaseKeysSnoc(done, c);
    forall x | x in done + [c] && x != Base
      ensures prepare(x).Success?
      ensures raw[Key(x, Base)] == prepare(x).value.0
      ensures expanded[Key(x, Base)] == prepare(x).value.1
    {
      KeyToBaseInjective(x, c);
    }
  }

  /** Skipping the base changes nothing that is built. */
  lemma BuiltSkip(e: Engine, done: seq<Currency>, prepare: Currency -> Result<(Series, Series), ExchangeError>)
    requires Built(e, done, prepare)
    ensures Built(e, done + [Base], prepare)
  {
    BaseKeysSnoc(done, Base);
  }

  lemma BaseKeysSnoc(done: seq<Currency>, c: Currency)
    ensures BaseKeys(done + [c]) == if c == Base then BaseKeys(done) else BaseKeys(done) + {Key(c, Base)}
  {
  }

  /** `init`: the loop with each currency's table obtained from the cache or
      the feed and expanded up to today. The `save` that `init` then calls,
      discarding its result, leaves the engine as it is; what it writes is
      stated by `InitSaveComplete`. */
  method Init(currencies: seq<Currency>, disk: Disk, feed: Feed, today: int) returns (r: Result<Engine, ExchangeError>)
    requires FeedNonZero(feed)
    ensures r.Success? <==> forall c :: c in currencies && c != Base ==> Prepare(disk, feed, c, today).Success?
    ensures r.Success? ==> Initialized(r.value, currencies, disk, feed, today)
    ensures r.Failure? ==> exists i ::
      && 0 <= i < |currencies| && currencies[i] != Base
      && Prepare(disk, feed, currencies[i], today) == Failure(r.error)
      && forall j :: 0 <= j < i && currencies[j] != Base ==> Prepare(disk, feed, currencies[j], today).Success?
  {
    r := Build(currencies, c => Prepare(disk, feed, c, today));
  }

  ghost predicate Initialized(e: Engine, currencies: seq<Currency>, disk: Disk, feed: Feed, today: int)
    requires FeedNonZero(feed)
  {
    && e.raw.Keys == BaseKeys(currencies)
    && e.expanded.Keys == BaseKeys(currencies)
    && forall c :: c in currencies && c != Base ==>
         && Prepare(disk, feed, c, today).Success?
         && e.raw[Key(c, Base)] == Prepare(disk, feed, c, today).value.0
         && e.expanded[Key(c, Base)] == Prepare(disk, feed, c, today).value.1
  }

  /** Every cached table holds only nonzero rates. */
  predicate DiskNonZero(disk: Disk)
  {
    forall k :: k in disk ==> NonZeroValues(disk[k])
  }

  /** Every cached table has one row per date, in order. */
  predicate DiskStrict(disk: Disk)
  {
    forall k :: k in disk ==> StrictlyIncreasing(disk[k])
  }

  predicate NonZeroRates(tables: map<string, Series>)
  {
    forall k :: k in tables ==> NonZeroValues(tables[k])
  }

  lemma ConcatNonZero(a: Series, b: Series)
    requires NonZeroValues(a) && NonZeroValues(b)
    ensures NonZeroValues(a + b)
  {
    assert forall i :: |a| <= i < |a + b| ==> (a + b)[i] == b[i - |a|];
  }

  /** Obtained tables hold nonzero rates when the cache and the feed do. */
  lemma ObtainNonZero(disk: Disk, feed: Feed, c: Currency, today: int)
    requires FeedNonZero(feed) && DiskNonZero(disk)
    requires Obtain(disk, feed, c, today).Success?
    ensures NonZeroValues(Obtain(disk, feed, c, today).value)
  {
    var l := LoadAsWritten(disk, feed, c, today);
    if l.Success? {
      var cached := disk[Key(c, Base)];
      var s := l.value;
      assert s == s[..|cached|] + s[|cached|..];
      if |s| > |cached| {
        ConcatNonZero(cached, s[|cached|..]);
      }
    }
  }

  /** The length of the cached table of `c`, 0 when there is none. */
  function CachedLength(disk: Disk, c: Currency): nat
  {
    if Key(c, Base) in disk then |disk[Key(c, Base)]| else 0
  }

  /** Obtained tables keep one row per date, except that the first refreshed
      row may repeat the latest cached date, when the cache has one row per
      date and the feed honours the start day. */
  lemma ObtainOrdered(disk: Disk, feed: Feed, c: Currency, today: int)
    requires FeedNonZero(feed) && FeedFromStart(feed) && DiskStrict(disk)
    requires Obtain(disk, feed, c, today).Success?
    ensures StrictExceptAt(Obtain(disk, feed, c, today).value, CachedLength(disk, c))
  {
    if LoadAsWritten(disk, feed, c, today).Success? {
      LoadRefreshOrder(disk, feed, c, today);
    } else {
      var s := Download(feed, c, None).value;
      StrictInverse(s, feed(c, None).value);
    }
  }

  /** The tables of an initialised engine hold nonzero rates. */
  lemma InitNonZero(e: Engine, currencies: seq<Currency>, disk: Disk, feed: Feed, today: int)
    requires FeedNonZero(feed) && DiskNonZero(disk)
    requires Initialized(e, currencies, disk, feed, today)
    ensures NonZeroRates(e.raw) && NonZeroRates(e.expanded)
  {
    forall k | k in e.raw
      ensures NonZeroValues(e.raw[k]) && NonZeroValues(e.expanded[k])
    {
      var c :| c in currencies && c != Base && k == Key(c, Base);
      InitNonZeroAt(e, currencies, disk, feed, today, c);
    }
  }

  lemma InitNonZeroAt(e: Engine, currencies: seq<Currency>, disk: Disk, feed: Feed, today: int, c: Currency)
    requires FeedNonZero(feed) && DiskNonZero(disk)
    requires Initialized(e, currencies, disk, feed, today) && c in currencies && c != Base
    ensures NonZeroValues(e.raw[Key(c, Base)]) && NonZeroValues(e.expanded[Key(c, Base)])
  {
    var p := PreparedAt(e, currencies, disk, feed, today, c);
    ObtainNonZero(disk, feed, c, today);
    ExpandNonZero(p.0, true, today);
  }

  /** What an initialised engine holds for one currency. */
  lemma PreparedAt(e: Engine, currencies: seq<Currency>, disk: Disk, feed: Feed, today: int, c: Currency)
    returns (p: (Series, Series))
    requires FeedNonZero(feed)
    requires Initialized(e, currencies, disk, feed, today) && c in currencies && c != Base
    ensures Key(c, Base) in e.raw && Key(c, Base) in e.expanded
    ensures Obtain(disk, feed, c, today) == Success(p.0) && Expand(p.0, true, today) == Success(p.1)
    ensures e.raw[Key(c, Base)] == p.0 && e.expanded[Key(c, Base)] == p.1
  {
    p := Prepare(disk, feed, c, today).value;
  }

  /** The raw tables of an initialised engine are non-empty and in date
      order, with one row per date except that the latest cached date may
      appear twice, where the refreshed rows begin. */
  lemma InitOrdered(e: Engine, currencies: seq<Currency>, disk: Disk, feed: Feed, today: int)
    requires FeedNonZero(feed) && FeedFromStart(feed) && DiskStrict(disk)
    requires Initialized(e, currencies, disk, feed, today)
    ensures forall c :: c in currencies && c != Base ==>
      && Key(c, Base) in e.raw && |e.raw[Key(c, Base)]| > 0 && Sorted(e.raw[Key(c, Base)])
      && StrictExceptAt(e.raw[Key(c, Base)], CachedLength(disk, c))
  {
    forall c | c in currencies && c != Base
      ensures Key(c, Base) in e.raw && |e.raw[Key(c, Base)]| > 0 && Sorted(e.raw[Key(c, Base)])
      ensures StrictExceptAt(e.raw[Key(c, Base)], CachedLength(disk, c))
    {
      InitOrderedAt(e, currencies, disk, feed, today, c);
    }
  }

  lemma InitOrderedAt(e: Engine, currencies: seq<Currency>, disk: Disk, feed: Feed, today: int, c: Currency)
    requires FeedNonZero(feed) && FeedFromStart(feed) && DiskStrict(disk)
    requires Initialized(e, currencies, disk, feed, today) && c in currencies && c != Base
    ensures Key(c, Base) in e.raw && |e.raw[Key(c, Base)]| > 0 && Sorted(e.raw[Key(c, Base)])
    ensures StrictExceptAt(e.raw[Key(c, Base)], CachedLength(disk, c))
  {
    var p := PreparedAt(e, currencies, disk, feed, today, c);
    ObtainOrdered(disk, feed, c, today);
  }

  /** Every cached table is in date order, a date possibly repeating. */
  predicate DiskSorted(disk: Disk)
  {
    forall k :: k in disk ==> Sorted(disk[k])
  }

  /** Appending sorted rows, none before the latest date of a sorted table,
      keeps the dates in order. */
  lemma JoinSorted(cached: Series, newRows: Series)
    requires Sorted(cached) && Sorted(newRows) && |cached| > 0
    requires |newRows| > 0 ==> cached[|cached| - 1].date <= newRows[0].date
    ensures Sorted(cached + newRows)
  {
    var r := cached + newRows;
    var n := |cached|;
    forall i, j | 0 <= i < |r| && 0 <= j < |r| && j == i + 1
      ensures r[i].date <= r[j].date
    {
      if j < n {
        assert r[i] == cached[i] && r[j] == cached[j];
      } else if i < n {
        assert r[i] == cached[n - 1] && r[j] == newRows[0];
      } else {
        assert r[i] == newRows[i - n] && r[j] == newRows[j - n];
      }
    }
  }

  /** The refresh as written keeps a sorted table sorted, whatever dates it
      already repeats, when the feed honours the start day. */
  lemma LoadRefreshSorted(disk: Disk, feed: Feed, c: Currency, today: int)
    requires FeedNonZero(feed) && FeedFromStart(feed)
    requires Key(c, Base) in disk && Sorted(disk[Key(c, Base)])
    requires LoadAsWritten(disk, feed, c, today).Success?
    ensures Sorted(LoadAsWritten(disk, feed, c, today).value)
  {
    var cached := disk[Key(c, Base)];
    var r := LoadAsWritten(disk, feed, c, today).value;
    var newRows := r[|cached|..];
    assert r == cached + newRows;
    assert Latest(cached) == cached[|cached| - 1].date by {
      SortedExtremes(cached);
    }
    if |newRows| > 0 {
      var obs := feed(c, Some(Latest(cached))).value;
      assert Invert(newRows) == obs;
      assert newRows[0].date == obs[0].date;
      StrictInverse(newRows, obs);
    }
    JoinSorted(cached, newRows);
  }

  /** With a sorted cache and a feed that honours the start day, every
      obtained table is sorted. */
  lemma ObtainSorted(disk: Disk, feed: Feed, c: Currency, today: int)
    requires FeedNonZero(feed) && FeedFromStart(feed) && DiskSorted(disk)
    requires Obtain(disk, feed, c, today).Success?
    ensures Sorted(Obtain(disk, feed, c, today).value)
  {
    if LoadAsWritten(disk, feed, c, today).Success? {
      LoadRefreshSorted(disk, feed, c, today);
    } else {
      var s := Download(feed, c, None).value;
      StrictInverse(s, feed(c, None).value);
    }
  }

  /** With a sorted cache and a feed that honours the start day, a currency
      is prepared exactly when a non-empty table is obtained for it: the
      expansion never meets dates out of order. */
  lemma PrepareSucceeds(disk: Disk, feed: Feed, c: Currency, today: int)
    requires FeedNonZero(feed) && FeedFromStart(feed) && DiskSorted(disk)
    ensures Prepare(disk, feed, c, today).Success? <==>
      Obtain(disk, feed, c, today).Success? && |Obtain(disk, feed, c, today).value| > 0
  {
    if Obtain(disk, feed, c, today).Success? {
      ObtainSorted(disk, feed, c, today);
    }
  }

  // ---------------------------------------------------------------------------
  // exchange_currency
  // ---------------------------------------------------------------------------

  /** `exchange_currency` on one table: the two range assertions against the
      table's earliest and latest dates, then the rate of the first row dated `d`. */
  function Lookup(s: Series, d: int): ExchangeResult
  {
    var col := DateColumn(s);
    var lo :- FromSeries(ExtremeDate(col, Min));
    if d < lo then Failure(TooEarly)
    else
      var hi :- FromSeries(ExtremeDate(col, Max));
      if hi < d then Failure(TooLate)
      else
        match ObservedAt(s, d)
        case None => Failure(NoValue)
        case Some(v) => Success(v)
  }

  /** Every outcome of a lookup: an empty table, a day before the first or
      after the last date, the first row of the day with or without a rate,
      and a day inside the range that has no row. */
  lemma LookupOutcome(s: Series, d: int)
    ensures |s| == 0 ==> Lookup(s, d) == Failure(SeriesFailure(EmptyColumn))
    ensures |s| > 0 && (forall i :: 0 <= i < |s| ==> d < s[i].date) ==> Lookup(s, d) == Failure(TooEarly)
    ensures |s| > 0 && (forall i :: 0 <= i < |s| ==> s[i].date < d) ==> Lookup(s, d) == Failure(TooLate)
    ensures forall i :: FirstRowOn(s, d, i) ==>
      Lookup(s, d) == if s[i].value.Some? then Success(s[i].value.value) else Failure(NoValue)
    ensures
      && (exists i :: 0 <= i < |s| && s[i].date < d)
      && (exists i :: 0 <= i < |s| && d < s[i].date)
      && (forall i :: 0 <= i < |s| ==> s[i].date != d)
      ==> Lookup(s, d) == Failure(NoValue)
  {
    var col := DateColumn(s);
    assert forall i :: 0 <= i < |s| ==> col[i] == Some(s[i].date);
    if |s| > 0 {
      assert col[0].Some?;
      var lo := ExtremeDate(col, Min).value;
      var hi := ExtremeDate(col, Max).value;
      forall i | FirstRowOn(s, d, i)
        ensures Lookup(s, d) == if s[i].value.Some? then Success(s[i].value.value) else Failure(NoValue)
      {
        assert lo <= d <= hi;
        ObservedAtIndex(s, d, i);
      }
      if forall i :: 0 <= i < |s| ==> s[i].date != d {
        ObservedOutside(s, d);
      }
    }
  }

  lemma LookupNonZero(s: Series, d: int)
    requires NonZeroValues(s) && Lookup(s, d).Success?
    ensures Lookup(s, d).value != 0.0
  {
    ObservedAtFirst(s, d);
  }

  /** The table lookup against the reference meaning of an expanded table:
      before its first date the lookup is too early, after its last day too
      late, and in between it gives the latest rate observed on or before
      the day, failing only when there is none. */
  function DailyRate(raw: Series, addToday: bool, today: int, d: int): ExchangeResult
    requires |raw| > 0
  {
    if d < raw[0].date then Failure(TooEarly)
    else if LastDay(raw, addToday, today) < d then Failure(TooLate)
    else
      match LastKnown(raw, d)
      case None => Failure(NoValue)
      case Some(v) => Success(v)
  }

  /** Lookup in a table with one row per day from `first` to `last`, row `k`
      holding the last known rate of `raw` on day `first + k`. */
  lemma LookupDaily(e: Series, raw: Series, first: int, last: int, d: int)
    requires |e| == last - first + 1 && |e| > 0
    requires forall k :: 0 <= k < |e| ==> e[k] == Row(first + k, LastKnown(raw, first + k))
    ensures d < first ==> Lookup(e, d) == Failure(TooEarly)
    ensures last < d ==> Lookup(e, d) == Failure(TooLate)
    ensures first <= d <= last ==>
      Lookup(e, d) == match LastKnown(raw, d) case None => Failure(NoValue) case Some(v) => Success(v)
  {
    LookupOutcome(e, d);
    if first <= d <= last {
      assert FirstRowOn(e, d, d - first);
    }
  }

  lemma LookupExpanded(raw: Series, addToday: bool, today: int, d: int)
    requires StrictlyIncreasing(raw) && |raw| > 0
    ensures Expand(raw, addToday, today).Success?
    ensures Lookup(Expand(raw, addToday, today).value, d) == DailyRate(raw, addToday, today, d)
  {
    var e := ExpandedDaily(raw, addToday, today);
    LookupDaily(e, raw, raw[0].date, LastDay(raw, addToday, today), d);
  }

  lemma ExpandedDaily(raw: Series, addToday: bool, today: int) returns (e: Series)
    requires StrictlyIncreasing(raw) && |raw| > 0
    ensures Expand(raw, addToday, today) == Success(e)
    ensures |e| == LastDay(raw, addToday, today) - raw[0].date + 1
    ensures forall k :: 0 <= k < |e| ==> e[k] == Row(raw[0].date + k, LastKnown(raw, raw[0].date + k))
  {
    ExpandIsLastKnown(raw, addToday, today);
    e := Expand(raw, addToday, today).value;
  }

  /** The reference meaning of a lookup in the expansion of a sorted table
      whose dates may repeat: as `DailyRate`, except that a day with rows
      takes its first row's rate, and a day whose first row has none the
      latest rate observed before that day. */
  function SortedDailyRate(raw: Series, addToday: bool, today: int, d: int): ExchangeResult
    requires |raw| > 0
  {
    if d < raw[0].date then Failure(TooEarly)
    else if LastDay(raw, addToday, today) < d then Failure(TooLate)
    else
      match DayRate(raw, d)
      case None => Failure(NoValue)
      case Some(v) => Success(v)
  }

  /** On a table with one row per date the two reference meanings agree. */
  lemma SortedDailyRateAgrees(raw: Series, addToday: bool, today: int, d: int)
    requires StrictlyIncreasing(raw) && |raw| > 0
    ensures SortedDailyRate(raw, addToday, today, d) == DailyRate(raw, addToday, today, d)
  {
    DayRateStrict(raw, d);
  }

  /** Lookup in the expansion of any sorted table, dates repeating or not. */
  lemma LookupExpandedSorted(raw: Series, addToday: bool, today: int, d: int)
    requires Sorted(raw) && |raw| > 0
    ensures Expand(raw, addToday, today).Success?
    ensures Lookup(Expand(raw, addToday, today).value, d) == SortedDailyRate(raw, addToday, today, d)
  {
    var e := Expand(raw, addToday, today).value;
    if d < raw[0].date || LastDay(raw, addToday, today) < d {
      assert Sorted(e);
      LookupOutside(e, d);
    } else {
      var i := ExpandFirstRow(raw, addToday, today, d);
      LookupFirstRow(e, d, i);
    }
  }

  /** A lookup before the first date of a sorted table is too early, and
      one after its last date too late. */
  lemma LookupOutside(s: Series, d: int)
    requires Sorted(s) && |s| > 0
    ensures d < s[0].date ==> Lookup(s, d) == Failure(TooEarly)
    ensures s[|s| - 1].date < d ==> Lookup(s, d) == Failure(TooLate)
  {
    SortedPairs(s);
    LookupOutcome(s, d);
  }

  /** A lookup on a day with a first row reads that row. */
  lemma LookupFirstRow(s: Series, d: int, i: int)
    requires FirstRowOn(s, d, i)
    ensures Lookup(s, d) == match s[i].value case None => Failure(NoValue) case Some(v) => Success(v)
  {
    LookupOutcome(s, d);
  }

  // ---------------------------------------------------------------------------
  // The rate between two currencies
  // ---------------------------------------------------------------------------

  /** A currency the engine can relate to the base, in one direction or the other. */
  predicate Covered(tables: map<string, Series>, c: Currency)
  {
    c == Base || Key(c, Base) in tables || Key(Base, c) in tables
  }

  /** The pairs on which `exchange_currency` ends whatever the day and the
      rates: the same currency, a table in either direction, or two
      currencies related to the base. On any other pair the recursion never
      ends when `from` is unrelated to the base; when only `to` is, it ends
      only if the lookup of `from` towards the base fails first. */
  predicate Resolvable(tables: map<string, Series>, from: Currency, to: Currency)
  {
    || from == to
    || Key(from, to) in tables
    || Key(to, from) in tables
    || (Covered(tables, from) && Covered(tables, to))
  }

  /** Which branch of `exchange_currency` a pair takes. */
  function Level(tables: map<string, Series>, from: Currency, to: Currency): nat
  {
    if from == to then 0
    else if Key(from, to) in tables then 1
    else if Key(to, from) in tables then 2
    else 3
  }

  /** `exchange_currency`: one if the currencies agree, the direct table if
      there is one, the reciprocal of the inverse pair's rate if that table
      exists, and otherwise the product of the rates through the base. */
  function Rate(tables: map<string, Series>, from: Currency, to: Currency, d: int): (r: ExchangeResult)
    requires NonZeroRates(tables) && Resolvable(tables, from, to)
    ensures r.Success? ==> r.value != 0.0
    decreases Level(tables, from, to)
  {
    if from == to then Success(1.0)
    else if Key(from, to) in tables then
      var v :- Lookup(tables[Key(from, to)], d);
      LookupNonZero(tables[Key(from, to)], d);
      Success(v)
    else if Key(to, from) in tables then
      Reciprocal(Rate(tables, to, from, d))
    else
      Product(Rate(tables, from, Base, d), Rate(tables, Base, to, d))
  }

  /** The reciprocal of a nonzero rate; an error passes through. */
  function Reciprocal(r: ExchangeResult): (q: ExchangeResult)
    requires r.Success? ==> r.value != 0.0
    ensures q.Success? <==> r.Success?
    ensures q.Success? ==> q.value != 0.0 && q.value * r.value == 1.0
    ensures q.Failure? ==> q == r
  {
    var v :- r;
    Success(1.0 / v)
  }

  /** The product of two rates; the first error passes through. */
  function Product(a: ExchangeResult, b: ExchangeResult): (p: ExchangeResult)
    requires a.Success? ==> a.value != 0.0
    requires b.Success? ==> b.value != 0.0
    ensures p.Success? <==> a.Success? && b.Success?
    ensures p.Success? ==> p.value != 0.0 && p.value == a.value * b.value
    ensures p.Failure? ==> p == if a.Failure? then a else b
  {
    var x :- a;
    var y :- b;
    Success(x * y)
  }

  /** Every code of the enumeration has three letters. */
  predicate ValidCodes(currencies: seq<Currency>)
  {
    forall c :: c in currencies ==> ValidCode(c)
  }

  /** The value of one unit of `c` in euros on day `d`. */
  function ToBase(tables: map<string, Series>, c: Currency, d: int): (r: ExchangeResult)
    requires NonZeroRates(tables) && (c != Base ==> Key(c, Base) in tables)
    ensures r.Success? ==> r.value != 0.0
  {
    if c == Base then Success(1.0)
    else
      var v :- Lookup(tables[Key(c, Base)], d);
      LookupNonZero(tables[Key(c, Base)], d);
      Success(v)
  }

  /** The reference cross rate: euros per unit of `from` over euros per unit of `to`. */
  function ViaBase(tables: map<string, Series>, from: Currency, to: Currency, d: int): ExchangeResult
    requires NonZeroRates(tables)
    requires from != Base ==> Key(from, Base) in tables
    requires to != Base ==> Key(to, Base) in tables
  {
    var a :- ToBase(tables, from, d);
    var b :- ToBase(tables, to, d);
    Success(a / b)
  }

  /** The tables of an engine built over `currencies`. */
  predicate EngineShape(tables: map<string, Series>, currencies: seq<Currency>)
  {
    tables.Keys == BaseKeys(currencies) && ValidCodes(currencies) && NonZeroRates(tables)
  }

  /** A currency of an engine, or the base. */
  predicate Known(currencies: seq<Currency>, c: Currency)
  {
    ValidCode(c) && (c == Base || c in currencies)
  }

  lemma NoKeyFromBase(tables: map<string, Series>, currencies: seq<Currency>, a: Currency, b: Currency)
    requires EngineShape(tables, currencies) && ValidCode(a) && b != Base
    ensures Key(a, b) !in tables
  {
    if Key(a, b) in tables {
      var x :| x in currencies && x != Base && Key(x, Base) == Key(a, b);
      KeyInjective(a, b, x, Base);
    }
  }

  lemma RateToBase(tables: map<string, Series>, currencies: seq<Currency>, c: Currency, d: int)
    requires EngineShape(tables, currencies) && Known(currencies, c) && c != Base
    ensures Key(c, Base) in tables && Resolvable(tables, c, Base)
    ensures Rate(tables, c, Base, d) == ToBase(tables, c, d)
  {
  }

  lemma RateFromBase(tables: map<string, Series>, currencies: seq<Currency>, c: Currency, d: int)
    requires EngineShape(tables, currencies) && Known(currencies, c) && c != Base
    ensures Key(c, Base) in tables && Resolvable(tables, Base, c)
    ensures Rate(tables, Base, c, d) ==
      if ToBase(tables, c, d).Success? then Success(1.0 / ToBase(tables, c, d).value) else ToBase(tables, c, d)
  {
    NoKeyFromBase(tables, currencies, Base, c);
    RateToBase(tables, currencies, c, d);
  }

  lemma RateCross(tables: map<string, Series>, currencies: seq<Currency>, from: Currency, to: Currency, d: int)
    requires EngineShape(tables, currencies) && Known(currencies, from) && Known(currencies, to)
    requires from != to && from != Base && to != Base
    ensures Resolvable(tables, from, to)
    ensures Rate(tables, from, to, d) == ViaBase(tables, from, to, d)
  {
    NoKeyFromBase(tables, currencies, from, to);
    NoKeyFromBase(tables, currencies, to, from);
    RateToBase(tables, currencies, from, d);
    RateFromBase(tables, currencies, to, d);
    assert Level(tables, from, to) == 3;
    assert Rate(tables, from, to, d) == Product(Rate(tables, from, Base, d), Rate(tables, Base, to, d));
    ProductOfReciprocal(ToBase(tables, from, d), ToBase(tables, to, d));
  }

  /** A rate times the reciprocal of another is their quotient; the first error passes through. */
  lemma ProductOfReciprocal(a: ExchangeResult, b: ExchangeResult)
    requires a.Success? ==> a.value != 0.0
    requires b.Success? ==> b.value != 0.0
    ensures Product(a, Reciprocal(b)) ==
      if a.Failure? then a else if b.Failure? then b else Success(a.value / b.value)
  {
    if a.Failure? {
    } else if b.Failure? {
      assert Reciprocal(b) == b;
    } else {
      var r := Reciprocal(b);
      assert r.Success? && r.value == 1.0 / b.value;
      var p := Product(a, r);
      assert p.Success? && p.value == a.value * r.value;
      QuotientAsProduct(a.value, b.value, r.value);
      assert p.value == a.value / b.value;
      assert p == Success(p.value);
    }
  }

  lemma QuotientAsProduct(x: real, y: real, r: real)
    requires y != 0.0 && r == 1.0 / y
    ensures x * r == x / y
  {
  }

  /** On an engine built over three-letter codes, every rate between known
      currencies is defined and equals the cross rate through the euro. */
  lemma RateThroughBase(tables: map<string, Series>, currencies: seq<Currency>, from: Currency, to: Currency, d: int)
    requires EngineShape(tables, currencies) && Known(currencies, from) && Known(currencies, to)
    ensures Resolvable(tables, from, to)
    ensures Rate(tables, from, to, d) == if from == to then Success(1.0) else ViaBase(tables, from, to, d)
  {
    if from != to {
      if to == Base {
        RateToBase(tables, currencies, from, d);
      } else if from == Base {
        RateFromBase(tables, currencies, to, d);
      } else {
        RateCross(tables, currencies, from, to, d);
      }
    }
  }

  /** The euro value of a known currency is defined on a day, in the tables of an engine. */
  predicate Priced(tables: map<string, Series>, currencies: seq<Currency>, c: Currency, d: int)
    requires EngineShape(tables, currencies) && Known(currencies, c)
  {
    ToBase(tables, c, d).Success?
  }

  /** A rate between distinct currencies is defined exactly when both euro
      values are. */
  lemma RateDefined(tables: map<string, Series>, currencies: seq<Currency>, a: Currency, b: Currency, d: int)
    requires EngineShape(tables, currencies) && Known(currencies, a) && Known(currencies, b)
    ensures Resolvable(tables, a, b)
    ensures Rate(tables, a, b, d).Success? <==>
      a == b || (Priced(tables, currencies, a, d) && Priced(tables, currencies, b, d))
  {
    RateThroughBase(tables, currencies, a, b, d);
  }

  /** The rate between two currencies whose euro values are defined is the
      quotient of those values. */
  lemma RateQuotient(tables: map<string, Series>, currencies: seq<Currency>, a: Currency, b: Currency, d: int)
    requires EngineShape(tables, currencies) && Known(currencies, a) && Known(currencies, b)
    requires Priced(tables, currencies, a, d) && Priced(tables, currencies, b, d)
    ensures Resolvable(tables, a, b)
    ensures Rate(tables, a, b, d) == Success(ToBase(tables, a, d).value / ToBase(tables, b, d).value)
  {
    RateThroughBase(tables, currencies, a, b, d);
    if a == b {
      DivSelf(ToBase(tables, a, d).value);
    }
  }

  /** The rate in one direction is defined exactly when the rate in the
      other is, and then it is its reciprocal. */
  lemma InverseRates(tables: map<string, Series>, currencies: seq<Currency>, a: Currency, b: Currency, d: int)
    requires EngineShape(tables, currencies) && Known(currencies, a) && Known(currencies, b)
    ensures Resolvable(tables, a, b) && Resolvable(tables, b, a)
    ensures Rate(tables, a, b, d).Success? <==> Rate(tables, b, a, d).Success?
    ensures Rate(tables, a, b, d).Success? ==> Rate(tables, b, a, d) == Reciprocal(Rate(tables, a, b, d))
  {
    RateDefined(tables, currencies, a, b, d);
    RateDefined(tables, currencies, b, a, d);
    if a == b {
      RateThroughBase(tables, currencies, a, a, d);
      assert Reciprocal(Success(1.0)) == Success(1.0);
    } else if Priced(tables, currencies, a, d) && Priced(tables, currencies, b, d) {
      RateQuotient(tables, currencies, a, b, d);
      RateQuotient(tables, currencies, b, a, d);
      ReciprocalOfQuotient(ToBase(tables, a, d).value, ToBase(tables, b, d).value, Rate(tables, a, b, d), Rate(tables, b, a, d));
    }
  }

  /** Triangulation: when the rates from `a` to `b` and from `b` to `c` are
      defined, the rate from `a` to `c` is their product. */
  lemma CrossRates(tables: map<string, Series>, currencies: seq<Currency>, a: Currency, b: Currency, c: Currency, d: int)
    requires EngineShape(tables, currencies) && Known(currencies, a) && Known(currencies, b) && Known(currencies, c)
    ensures Resolvable(tables, a, b) && Resolvable(tables, b, c) && Resolvable(tables, a, c)
    ensures Rate(tables, a, b, d).Success? && Rate(tables, b, c, d).Success? ==>
      Rate(tables, a, c, d) == Product(Rate(tables, a, b, d), Rate(tables, b, c, d))
  {
    RateDefined(tables, currencies, a, b, d);
    RateDefined(tables, currencies, b, c, d);
    RateDefined(tables, currencies, a, c, d);
    if Rate(tables, a, b, d).Success? && Rate(tables, b, c, d).Success? {
      if a == b {
        RateThroughBase(tables, currencies, a, a, d);
        ProductUnit(Rate(tables, b, c, d), true);
      } else if b == c {
        RateThroughBase(tables, currencies, b, b, d);
        ProductUnit(Rate(tables, a, b, d), false);
      } else {
        RateQuotient(tables, currencies, a, b, d);
        RateQuotient(tables, currencies, b, c, d);
        RateQuotient(tables, currencies, a, c, d);
        ProductOfQuotients(ToBase(tables, a, d).value, ToBase(tables, b, d).value, ToBase(tables, c, d).value,
          Rate(tables, a, b, d), Rate(tables, b, c, d), Rate(tables, a, c, d));
      }
    }
  }

  lemma ReciprocalOfQuotient(x: real, y: real, r: ExchangeResult, s: ExchangeResult)
    requires x != 0.0 && y != 0.0 && r == Success(x / y) && s == Success(y / x)
    ensures s == Reciprocal(r)
  {
    var q := x / y;
    assert q * y == x;
    assert (y / x) * q == (y * q) / x == 1.0;
    assert 1.0 / q == y / x;
  }

  lemma ProductOfQuotients(x: real, y: real, z: real, r: ExchangeResult, s: ExchangeResult, t: ExchangeResult)
    requires x != 0.0 && y != 0.0 && z != 0.0
    requires r == Success(x / y) && s == Success(y / z) && t == Success(x / z)
    ensures t == Product(r, s)
  {
    assert (x / y) * (y / z) == (x * y) / (y * z) == x / z;
    assert Product(r, s).value == (x / y) * (y / z);
  }

  lemma ProductUnit(r: ExchangeResult, left: bool)
    requires r.Success? ==> r.value != 0.0
    ensures left ==> Product(Success(1.0), r) == r
    ensures !left ==> Product(r, Success(1.0)) == r
  {
  }

  lemma DivSelf(x: real)
    requires x != 0.0
    ensures x / x == 1.0
  {
  }

  /** On an initialised engine whose raw table for a currency has one row
      per date, the rate of that currency towards the euro on a day is the
      daily meaning of the table expanded up to today: too early before its
      first date, too late after today (or its last date, if later), and
      otherwise the latest rate observed on or before the day. */
  lemma InitDailyRate(e: Engine, currencies: seq<Currency>, disk: Disk, feed: Feed, today: int, c: Currency, d: int)
    requires FeedNonZero(feed) && DiskNonZero(disk)
    requires Initialized(e, currencies, disk, feed, today) && ValidCodes(currencies)
    requires c in currencies && c != Base
    requires Key(c, Base) in e.raw && StrictlyIncreasing(e.raw[Key(c, Base)])
    ensures EngineShape(e.expanded, currencies) && Known(currencies, c)
    ensures Key(c, Base) in e.raw && |e.raw[Key(c, Base)]| > 0
    ensures Resolvable(e.expanded, c, Base)
    ensures Rate(e.expanded, c, Base, d) == DailyRate(e.raw[Key(c, Base)], true, today, d)
  {
    InitDayRate(e, currencies, disk, feed, today, c, d);
    SortedDailyRateAgrees(e.raw[Key(c, Base)], true, today, d);
  }

  /** On any initialised engine the rate of a currency towards the euro on a
      day is the meaning of a lookup in its raw table expanded up to today,
      whether or not that table repeats a date: too early before its first
      date, too late after today (or its last date, if later), and otherwise
      the rate of the first row of the day, or the latest rate before the
      day when that row has none. */
  lemma InitDayRate(e: Engine, currencies: seq<Currency>, disk: Disk, feed: Feed, today: int, c: Currency, d: int)
    requires FeedNonZero(feed) && DiskNonZero(disk)
    requires Initialized(e, currencies, disk, feed, today) && ValidCodes(currencies)
    requires c in currencies && c != Base
    ensures EngineShape(e.expanded, currencies) && Known(currencies, c)
    ensures Key(c, Base) in e.raw && |e.raw[Key(c, Base)]| > 0 && Sorted(e.raw[Key(c, Base)])
    ensures Resolvable(e.expanded, c, Base)
    ensures Rate(e.expanded, c, Base, d) == SortedDailyRate(e.raw[Key(c, Base)], true, today, d)
  {
    InitNonZero(e, currencies, disk, feed, today);
    var p := PreparedAt(e, currencies, disk, feed, today, c);
    RateToBase(e.expanded, currencies, c, d);
    LookupExpandedSorted(p.0, true, today, d);
  }

  // ---------------------------------------------------------------------------
  // exchange_currencies
  // ---------------------------------------------------------------------------

  /** A ledger row: its date, currency code and amount, each nullable in the
      frame, and the other columns, carried along unchanged. */
  datatype LedgerRow<X> = LedgerRow(date: Option<int>, currency: Option<string>, value: Option<real>, rest: X)

  /** A converted row: the currency column is dropped and the amount is in
      the target currency. */
  datatype ConvertedRow<X> = ConvertedRow(date: Option<int>, value: Option<real>, rest: X)

  /** `Currency::from_str` over the closed enumeration: the code of the base
      or of one of `currencies`. */
  function ParseCurrency(currencies: seq<Currency>, code: string): (r: Result<Currency, ExchangeError>)
    ensures r.Success? <==> Currency(code) == Base || Currency(code) in currencies
    ensures r.Failure? ==> r.error == UnknownCurrency(code)
  {
    if Currency(code) == Base || Currency(code) in currencies then Success(Currency(code))
    else Failure(UnknownCurrency(code))
  }

  /** Parsing the code of a currency of the enumeration gives the currency back. */
  lemma ParseCode(currencies: seq<Currency>, c: Currency)
    requires c == Base || c in currencies
    ensures ParseCurrency(currencies, c.code) == Success(c)
  {
  }

  /** The rate one row of a ledger is converted by: its date must be present,
      then its currency, which must parse; then the rate on that date. */
  function RowRate<X>(tables: map<string, Series>, currencies: seq<Currency>, to: Currency, row: LedgerRow<X>): ExchangeResult
    requires EngineShape(tables, currencies) && Known(currencies, to)
  {
    if row.date.None? then Failure(NoDate)
    else if row.currency.None? then Failure(NoCurrency)
    else
      var from :- ParseCurrency(currencies, row.currency.value);
      RateThroughBase(tables, currencies, from, to, row.date.value);
      Rate(tables, from, to, row.date.value)
  }

  /** The amount times the rate; a null amount stays null. */
  function Scale(v: Option<real>, rate: real): Option<real>
  {
    match v
    case None => None
    case Some(x) => Some(Times(x, rate))
  }

  /** The product of two reals, named so that products of equal factors are
      recognised as equal without unfolding the arithmetic. */
  function Times(x: real, y: real): real
  {
    x * y
  }

  lemma TimesCancel(x: real, p: real, w: real)
    requires w * p == 1.0
    ensures Times(Times(x, p), w) == x
  {
    assert (x * p) * w == x * (w * p);
  }

  /** `exchange_currencies`: the rate of every row, in order, the first
      failure aborting the whole conversion; then every amount multiplied by
      its row's rate and the currency column dropped. */
  method ExchangeCurrencies<X>(tables: map<string, Series>, currencies: seq<Currency>, to: Currency, ledger: seq<LedgerRow<X>>)
    returns (r: Result<seq<ConvertedRow<X>>, ExchangeError>)
    requires EngineShape(tables, currencies) && Known(currencies, to)
    ensures r.Success? <==> forall i :: 0 <= i < |ledger| ==> RowRate(tables, currencies, to, ledger[i]).Success?
    ensures r.Success? ==> |r.value| == |ledger| && forall i :: 0 <= i < |ledger| ==>
      r.value[i] == ConvertedRow(ledger[i].date, Scale(ledger[i].value, RowRate(tables, currencies, to, ledger[i]).value), ledger[i].rest)
    ensures r.Failure? ==> exists i ::
      && 0 <= i < |ledger|
      && RowRate(tables, currencies, to, ledger[i]) == Failure(r.error)
      && forall j :: 0 <= j < i ==> RowRate(tables, currencies, to, ledger[j]).Success?
  {
    var rates: seq<real> := [];
    var i := 0;
    while i < |ledger|
      invariant 0 <= i <= |ledger| && |rates| == i
      invariant forall j :: 0 <= j < i ==> RowRate(tables, currencies, to, ledger[j]) == Success(rates[j])
    {
      var rate := RowRate(tables, currencies, to, ledger[i]);
      if rate.Failure? {
        return Failure(rate.error);
      }
      rates := rates + [rate.value];
      i := i + 1;
    }
    var converted := seq(|ledger|, j requires 0 <= j < |ledger| =>
      ConvertedRow(ledger[j].date, Scale(ledger[j].value, rates[j]), ledger[j].rest));
    return Success(converted);
  }

  /** A dated row already in the target currency converts to itself. */
  lemma ConvertToSame<X>(tables: map<string, Series>, currencies: seq<Currency>, to: Currency, row: LedgerRow<X>)
    requires EngineShape(tables, currencies) && Known(currencies, to)
    requires row.date.Some? && row.currency == Some(to.code)
    ensures RowRate(tables, currencies, to, row) == Success(1.0)
    ensures Scale(row.value, 1.0) == row.value
  {
    ParseCode(currencies, to);
    RateThroughBase(tables, currencies, to, to, row.date.value);
  }

  /** Converting an amount from `a` to `b` and back gives the amount back. */
  lemma ConvertBack(tables: map<string, Series>, currencies: seq<Currency>, a: Currency, b: Currency, d: int, v: Option<real>)
    requires EngineShape(tables, currencies) && Known(currencies, a) && Known(currencies, b)
    ensures Resolvable(tables, a, b) && Resolvable(tables, b, a)
    ensures Rate(tables, a, b, d).Success? ==>
      Rate(tables, b, a, d).Success? && Scale(Scale(v, Rate(tables, a, b, d).value), Rate(tables, b, a, d).value) == v
  {
    InverseRates(tables, currencies, a, b, d);
    if Rate(tables, a, b, d).Success? {
      ScaleReciprocal(v, Rate(tables, a, b, d), Rate(tables, b, a, d));
    }
  }

  lemma ScaleReciprocal(v: Option<real>, r: ExchangeResult, q: ExchangeResult)
    requires r.Success? && r.value != 0.0 && q == Reciprocal(r)
    ensures q.Success? && Scale(Scale(v, r.value), q.value) == v
  {
    if v.Some? {
      TimesCancel(v.value, r.value, q.value);
    }
  }

  // ---------------------------------------------------------------------------
  // save
  // ---------------------------------------------------------------------------

  /** `save` as written, over the keys of the raw tables in the map's
      iteration order `order`: every table is written to its file, but the
      first empty table ends the loop, leaving the later tables unwritten. */
  function SaveAsWritten(raw: map<string, Series>, order: seq<string>, disk: Disk): Disk
    requires forall k :: k in order ==> k in raw
  {
    if |order| == 0 then disk
    else if |raw[order[0]]| == 0 then disk
    else SaveAsWritten(raw, order[1..], disk[order[0] := raw[order[0]]])
  }

  /** `save`: every non-empty table is written to its file; an empty table is
      skipped, so the file keeps what it held. */
  function Save(raw: map<string, Series>, order: seq<string>, disk: Disk): (r: Disk)
    requires forall k :: k in order ==> k in raw
    ensures forall k :: k in r <==> k in disk || (k in order && |raw[k]| > 0)
    ensures forall k :: k in r ==> r[k] == if k in order && |raw[k]| > 0 then raw[k] else disk[k]
  {
    if |order| == 0 then disk
    else if |raw[order[0]]| == 0 then Save(raw, order[1..], disk)
    else Save(raw, order[1..], disk[order[0] := raw[order[0]]])
  }

  /** Finding: an empty table met first keeps a non-empty one from being saved. */
  lemma SaveStopsEarly()
    ensures var raw := map["USDEUR" := [], "GBPEUR" := [Row(1, Some(1.25))]];
      && SaveAsWritten(raw, ["USDEUR", "GBPEUR"], map[]) == map[]
      && Save(raw, ["USDEUR", "GBPEUR"], map[]) == map["GBPEUR" := [Row(1, Some(1.25))]]
  {
    var raw: map<string, Series> := map["USDEUR" := [], "GBPEUR" := [Row(1, Some(1.25))]];
    var order := ["USDEUR", "GBPEUR"];
    assert order[1..] == ["GBPEUR"] && order[1..][1..] == [];
    var saved := Save(raw, order, map[]);
    assert saved.Keys == {"GBPEUR"};
  }

  /** When no table is empty, the two agree. */
  lemma {:induction false} SaveAgrees(raw: map<string, Series>, order: seq<string>, disk: Disk)
    requires forall k :: k in order ==> k in raw && |raw[k]| > 0
    ensures SaveAsWritten(raw, order, disk) == Save(raw, order, disk)
    decreases |order|
  {
    if |order| > 0 {
      SaveAgrees(raw, order[1..], disk[order[0] := raw[order[0]]]);
    }
  }

  /** `order` lists every key of `raw`, as a map's iteration does. */
  ghost predicate Enumerates(order: seq<string>, raw: map<string, Series>)
  {
    forall k :: k in order <==> k in raw
  }

  /** Saving the raw tables of an initialised engine writes every one of
      them, the loop as written included. */
  lemma InitSaveComplete(e: Engine, currencies: seq<Currency>, disk: Disk, feed: Feed, today: int, order: seq<string>)
    requires FeedNonZero(feed)
    requires Initialized(e, currencies, disk, feed, today) && Enumerates(order, e.raw)
    ensures SaveAsWritten(e.raw, order, disk) == Save(e.raw, order, disk)
    ensures forall k :: k in e.raw ==> k in Save(e.raw, order, disk) && Save(e.raw, order, disk)[k] == e.raw[k]
  {
    forall k | k in order
      ensures k in e.raw && |e.raw[k]| > 0
    {
      var c :| c in currencies && c != Base && k == Key(c, Base);
      var p := PreparedAt(e, currencies, disk, feed, today, c);
    }
    SaveAgrees(e.raw, order, disk);
  }

  /** Loading a saved table on a day it already covers gives it back. */
  lemma SaveLoadRoundTrip(raw: map<string, Series>, order: seq<string>, disk: Disk, feed: Feed, c: Currency, today: int)
    requires FeedNonZero(feed) && Enumerates(order, raw)
    requires Key(c, Base) in raw && |raw[Key(c, Base)]| > 0 && today <= Latest(raw[Key(c, Base)])
    ensures LoadAsWritten(Save(raw, order, disk), feed, c, today) == Success(raw[Key(c, Base)])
  {
  }

  /** Saving sorted tables over a sorted cache leaves it sorted. */
  lemma SaveSorted(raw: map<string, Series>, order: seq<string>, disk: Disk)
    requires forall k :: k in order ==> k in raw
    requires DiskSorted(disk) && forall k :: k in raw ==> Sorted(raw[k])
    ensures DiskSorted(Save(raw, order, disk))
  {
  }

  /** The save after `init`, as written, leaves a sorted cache sorted, so
      that the next run starts again from a sorted cache: with a feed that
      honours the start day, `PrepareSucceeds` and `InitDayRate` hold run
      after run, although the table written may repeat a date. */
  lemma InitSaveSorted(e: Engine, currencies: seq<Currency>, disk: Disk, feed: Feed, today: int, order: seq<string>)
    requires FeedNonZero(feed) && DiskSorted(disk)
    requires Initialized(e, currencies, disk, feed, today) && Enumerates(order, e.raw)
    ensures DiskSorted(SaveAsWritten(e.raw, order, disk))
  {
    forall k | k in e.raw
      ensures Sorted(e.raw[k])
    {
      var c :| c in currencies && c != Base && k == Key(c, Base);
      var p := PreparedAt(e, currencies, disk, feed, today, c);
    }
    InitSaveComplete(e, currencies, disk, feed, today, order);
    SaveSorted(e.raw, order, disk);
  }
}
