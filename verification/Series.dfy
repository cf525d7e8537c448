/** Daily rate series of the exchange-rate engine: the date-column extremum,
    upsampling to one row per calendar day, forward filling, and `expand`,
    which chains them (currency_exchange.rs, `expand` and `extreme_date`). */
module RateSeries {
  import opened Wrappers

  /** One row of a rate table: a day number and a nullable rate. */
  datatype Row = Row(date: int, value: Option<real>)

  type Series = seq<Row>

  datatype Extremum = Min | Max

  datatype SeriesError =
    | EmptyColumn     // "Column is empty or contains no valid dates!"
    | UnsortedDates   // the upsampling step refuses a date column out of order

  /** The date column as the dataframe exposes it, every entry nullable. */
  function DateColumn(s: Series): seq<Option<int>>
  {
    seq(|s|, i requires 0 <= i < |s| => Some(s[i].date))
  }

  // ---------------------------------------------------------------------------
  // extreme_date
  // ---------------------------------------------------------------------------

  /** Rust's ordering on `Option`: `None` sorts below every `Some`. */
  function OptionMin(a: Option<int>, b: Option<int>): Option<int>
  {
    if a.None? || b.None? then None
    else if a.value <= b.value then a else b
  }

  function OptionMax(a: Option<int>, b: Option<int>): Option<int>
  {
    if a.None? then b
    else if b.None? then a
    else if a.value >= b.value then a else b
  }

  /** `Iterator::min` / `Iterator::max` over a non-empty column of nullable dates. */
  function FoldExtremum(col: seq<Option<int>>, which: Extremum): Option<int>
    requires |col| > 0
  {
    if |col| == 1 then col[0]
    else if which == Min then OptionMin(col[0], FoldExtremum(col[1..], which))
    else OptionMax(col[0], FoldExtremum(col[1..], which))
  }

  /** `extreme_date` as written: the iterator's extremum under Rust's
      `Option` ordering, flattened, with `None` turned into an error. */
  function ExtremeDateAsWritten(col: seq<Option<int>>, which: Extremum): Result<int, SeriesError>
  {
    if |col| == 0 then Failure(EmptyColumn)
    else
      match FoldExtremum(col, which)
      case None => Failure(EmptyColumn)
      case Some(d) => Success(d)
  }

  /** `extreme_date` as its error message describes it: the least or greatest
      date present, failing only when the column holds no date at all. */
  function ExtremeDate(col: seq<Option<int>>, which: Extremum): (r: Result<int, SeriesError>)
    ensures r.Success? <==> exists i :: 0 <= i < |col| && col[i].Some?
    ensures r.Failure? ==> r.error == EmptyColumn
    ensures r.Success? ==> exists i :: 0 <= i < |col| && col[i] == Some(r.value)
    ensures r.Success? && which == Min ==>
      forall i :: 0 <= i < |col| && col[i].Some? ==> r.value <= col[i].value
    ensures r.Success? && which == Max ==>
      forall i :: 0 <= i < |col| && col[i].Some? ==> col[i].value <= r.value
  {
    if |col| == 0 then Failure(EmptyColumn)
    else
      var rest := ExtremeDate(col[1..], which);
      assert forall i :: 0 < i < |col| ==> col[i] == col[1..][i - 1];
      if col[0].None? then
        rest
      else if rest.Failure? then
        Success(col[0].value)
      else if which == Min then
        Success(if col[0].value <= rest.value then col[0].value else rest.value)
      else
        Success(if col[0].value >= rest.value then col[0].value else rest.value)
  }

  /** Finding: one null date makes the minimum fail although valid dates exist. */
  lemma ExtremeDateNullMinimum()
    ensures ExtremeDateAsWritten([None, Some(5)], Min) == Failure(EmptyColumn)
    ensures ExtremeDate([None, Some(5)], Min) == Success(5)
  {
    assert [None, Some(5)][1..] == [Some(5)];
  }

  /** The maximum is unaffected by Rust's `Option` ordering: as written it
      always agrees with the corrected definition. */
  lemma {:induction false} ExtremeDateMaxAgrees(col: seq<Option<int>>)
    ensures ExtremeDateAsWritten(col, Max) == ExtremeDate(col, Max)
  {
    if |col| > 1 {
      ExtremeDateMaxAgrees(col[1..]);
      assert forall i :: 0 < i < |col| ==> col[i] == col[1..][i - 1];
    } else if |col| == 1 {
      assert ExtremeDate(col[1..], Max).Failure?;
    }
  }

  /** On a column without nulls the minimum as written agrees with the
      corrected definition, so every series of the model is unaffected. */
  lemma {:induction false} ExtremeDateMinAgreesWithoutNulls(col: seq<Option<int>>)
    requires forall i :: 0 <= i < |col| ==> col[i].Some?
    ensures ExtremeDateAsWritten(col, Min) == ExtremeDate(col, Min)
  {
    if |col| > 1 {
      ExtremeDateMinAgreesWithoutNulls(col[1..]);
      assert forall i :: 0 < i < |col| ==> col[i] == col[1..][i - 1];
    } else if |col| == 1 {
      assert ExtremeDate(col[1..], Min).Failure?;
    }
  }

  // ---------------------------------------------------------------------------
  // Order of the date column
  // ---------------------------------------------------------------------------

  /** Dates never decrease from one row to the next. */
  predicate Sorted(s: Series)
  {
    forall i, j :: 0 <= i < |s| && 0 <= j < |s| && j == i + 1 ==> s[i].date <= s[j].date
  }

  /** Dates strictly increase from one row to the next: one row per date. */
  predicate StrictlyIncreasing(s: Series)
  {
    forall i, j :: 0 <= i < |s| && 0 <= j < |s| && j == i + 1 ==> s[i].date < s[j].date
  }

  /** Consecutive rows lie on the same day or on consecutive days: no calendar
      day between the first and the last row is missing. */
  predicate GapFree(s: Series)
  {
    forall i, j :: 0 <= i < |s| && 0 <= j < |s| && j == i + 1 ==> s[i].date <= s[j].date <= s[i].date + 1
  }

  lemma {:induction false} SortedPairs(s: Series)
    requires Sorted(s)
    ensures forall i, j :: 0 <= i <= j < |s| ==> s[i].date <= s[j].date
  {
    if |s| > 1 {
      var t := s[1..];
      assert Sorted(t);
      SortedPairs(t);
      forall i, j | 0 <= i <= j < |s|
        ensures s[i].date <= s[j].date
      {
        if 0 < i {
          assert s[i] == t[i - 1] && s[j] == t[j - 1];
        } else if 0 < j {
          assert s[1] == t[0] && s[j] == t[j - 1];
        }
      }
    }
  }

  lemma {:induction false} StrictPairs(s: Series)
    requires StrictlyIncreasing(s)
    ensures forall i, j :: 0 <= i < j < |s| ==> s[i].date < s[j].date
  {
    if |s| > 1 {
      var t := s[1..];
      assert StrictlyIncreasing(t);
      StrictPairs(t);
      forall i, j | 0 <= i < j < |s|
        ensures s[i].date < s[j].date
      {
        if 0 < i {
          assert s[i] == t[i - 1] && s[j] == t[j - 1];
        } else if 1 < j {
          assert s[1] == t[0] && s[j] == t[j - 1];
        }
      }
    }
  }

  /** In a sorted series the extremes of the date column are its first and last dates. */
  lemma SortedExtremes(s: Series)
    requires Sorted(s) && |s| > 0
    ensures ExtremeDate(DateColumn(s), Min) == Success(s[0].date)
    ensures ExtremeDate(DateColumn(s), Max) == Success(s[|s| - 1].date)
  {
    SortedMinimum(s);
    SortedMaximum(s);
  }

  lemma SortedMinimum(s: Series)
    requires Sorted(s) && |s| > 0
    ensures ExtremeDate(DateColumn(s), Min) == Success(s[0].date)
  {
    var col := DateColumn(s);
    assert col[0] == Some(s[0].date);
    var lo := ExtremeDate(col, Min);
    var i :| 0 <= i < |col| && col[i] == Some(lo.value);
    SortedBetween(s, i);
    assert col[i] == Some(s[i].date);
  }

  lemma SortedMaximum(s: Series)
    requires Sorted(s) && |s| > 0
    ensures ExtremeDate(DateColumn(s), Max) == Success(s[|s| - 1].date)
  {
    var col := DateColumn(s);
    var n := |s| - 1;
    assert col[n] == Some(s[n].date);
    var hi := ExtremeDate(col, Max);
    assert col[n].value <= hi.value;
    var j :| 0 <= j < |col| && col[j] == Some(hi.value);
    SortedBetween(s, j);
    assert col[j] == Some(s[j].date);
  }

  /** Every date of a sorted series lies between its first and its last. */
  lemma SortedBetween(s: Series, i: int)
    requires Sorted(s) && 0 <= i < |s|
    ensures s[0].date <= s[i].date <= s[|s| - 1].date
  {
    SortedPairs(s);
  }

  // ---------------------------------------------------------------------------
  // upsample(every = "1d")
  // ---------------------------------------------------------------------------

  /** Null-valued rows for the `n` days starting at `from`. */
  function NullRows(from: int, n: nat): seq<Row>
  {
    seq(n, k requires 0 <= k < n => Row(from + k, None))
  }

  /** Number of calendar days strictly between two dates. */
  function DaysBetween(a: int, b: int): nat
  {
    if b - a - 1 > 0 then b - a - 1 else 0
  }

  /** Joining two gap-free runs where the second starts on the last day of
      the first or on the day after gives a gap-free run. */
  lemma GapFreeJoin(a: Series, b: Series)
    requires GapFree(a) && GapFree(b) && |a| > 0 && |b| > 0
    requires a[|a| - 1].date <= b[0].date <= a[|a| - 1].date + 1
    ensures GapFree(a + b)
  {
    var c := a + b;
    forall i | 0 <= i < |c| - 1
      ensures c[i].date <= c[i + 1].date <= c[i].date + 1
    {
      if i < |a| - 1 {
        assert c[i] == a[i] && c[i + 1] == a[i + 1];
      } else if i == |a| - 1 {
        assert c[i] == a[|a| - 1] && c[i + 1] == b[0];
      } else {
        assert c[i] == b[i - |a|] && c[i + 1] == b[i + 1 - |a|];
      }
    }
  }

  /** A row followed by the null rows for the days after it is gap-free. */
  lemma GapFreeRun(r: Row, n: nat)
    ensures GapFree([r] + NullRows(r.date + 1, n))
  {
    var c := [r] + NullRows(r.date + 1, n);
    forall i | 0 <= i < |c| - 1
      ensures c[i].date <= c[i + 1].date <= c[i].date + 1
    {
      assert c[i].date == r.date + i;
      assert c[i + 1].date == r.date + i + 1;
    }
  }

  /** The daily grid from the first to the last date, left-joined with the
      rows: every row is kept in place, and each missing day becomes a
      null-valued row. Rows sharing a date stay side by side. */
  function Upsample(s: Series): (u: Series)
    requires Sorted(s)
    ensures |s| > 0 ==> |u| > 0 && u[0] == s[0] && u[|u| - 1] == s[|s| - 1]
    ensures |u| >= |s|
    ensures GapFree(u)
  {
    if |s| <= 1 then s
    else
      assert Sorted(s[1..]);
      var rest := Upsample(s[1..]);
      var n := DaysBetween(s[0].date, s[1].date);
      var head := [s[0]] + NullRows(s[0].date + 1, n);
      GapFreeRun(s[0], n);
      assert head[|head| - 1].date == s[0].date + n;
      GapFreeJoin(head, rest);
      head + rest
  }

  /** A non-empty series is its first row followed by the rest. */
  lemma Recompose(s: Series)
    requires |s| > 0
    ensures [s[0]] + [] + s[1..] == s
  {}

  /** Upsampling a series that already has no missing day changes nothing. */
  lemma {:induction false} UpsampleGapFree(s: Series)
    requires Sorted(s) && GapFree(s)
    ensures Upsample(s) == s
  {
    if |s| > 1 {
      var t := s[1..];
      assert Sorted(t) && GapFree(t);
      UpsampleGapFree(t);
      assert DaysBetween(s[0].date, s[1].date) == 0;
      assert NullRows(s[0].date + 1, 0) == [];
      assert Upsample(s) == [s[0]] + NullRows(s[0].date + 1, 0) + Upsample(t);
      Recompose(s);
    }
  }

  /** The rate observed on day `d`: the value of the first row dated `d`
      (`None` when no row has that date or its rate is null). */
  function ObservedAt(s: Series, d: int): Option<real>
  {
    if |s| == 0 then None
    else if s[0].date == d then s[0].value
    else ObservedAt(s[1..], d)
  }

  /** `ObservedAt` reads the first row dated `d`, if there is one. */
  lemma {:induction false} ObservedAtFirst(s: Series, d: int)
    ensures ObservedAt(s, d).Some? ==>
      exists i :: 0 <= i < |s| && s[i].date == d && s[i].value == ObservedAt(s, d)
    ensures forall i :: 0 <= i < |s| && s[i].date == d ==>
      ObservedAt(s, d) == s[i].value || exists j :: 0 <= j < i && s[j].date == d
  {
    if |s| > 0 && s[0].date != d {
      ObservedAtFirst(s[1..], d);
      assert forall i :: 0 < i < |s| ==> s[i] == s[1..][i - 1];
      if ObservedAt(s, d).Some? {
        var i :| 0 <= i < |s[1..]| && s[1..][i].date == d && s[1..][i].value == ObservedAt(s, d);
        assert s[i + 1] == s[1..][i];
      }
      forall i | 0 <= i < |s| && s[i].date == d
        ensures ObservedAt(s, d) == s[i].value || exists j :: 0 <= j < i && s[j].date == d
      {
        if ObservedAt(s, d) != s[i].value {
          var j :| 0 <= j < i - 1 && s[1..][j].date == d;
          assert s[j + 1] == s[1..][j];
        }
      }
    }
  }

  /** Row `i` is the first row of `s` dated `d`. */
  predicate FirstRowOn(s: Series, d: int, i: int)
  {
    0 <= i < |s| && s[i].date == d && forall j :: 0 <= j < i ==> s[j].date != d
  }

  lemma {:induction false} ObservedAtIndex(s: Series, d: int, i: int)
    requires FirstRowOn(s, d, i)
    ensures ObservedAt(s, d) == s[i].value
  {
    if i > 0 {
      assert FirstRowOn(s[1..], d, i - 1);
      ObservedAtIndex(s[1..], d, i - 1);
    }
  }

  /** In a series whose row `k` is dated `first + k`, the observation of a
      day in range is the value of its row. */
  lemma ObservedAtDaily(s: Series, first: int, d: int)
    requires forall k :: 0 <= k < |s| ==> s[k].date == first + k
    requires first <= d < first + |s|
    ensures ObservedAt(s, d) == s[d - first].value
  {
    ObservedAtFirst(s, d);
    assert s[d - first].date == d;
    assert forall j :: 0 <= j < d - first ==> s[j].date != d;
  }

  lemma {:induction false} ObservedOutside(s: Series, d: int)
    requires forall i :: 0 <= i < |s| ==> s[i].date != d
    ensures ObservedAt(s, d) == None
  {
    if |s| > 0 {
      ObservedOutside(s[1..], d);
    }
  }

  /** With one row per date, the upsampled series has exactly one row per day
      from the first to the last date, carrying that day's observation. */
  lemma {:induction false} UpsampleCoverage(s: Series)
    requires StrictlyIncreasing(s) && |s| > 0
    ensures Sorted(s)
    ensures |Upsample(s)| == s[|s| - 1].date - s[0].date + 1
    ensures forall k :: 0 <= k < |Upsample(s)| ==>
      Upsample(s)[k] == Row(s[0].date + k, ObservedAt(s, s[0].date + k))
  {
    if |s| > 1 {
      var tail := s[1..];
      assert StrictlyIncreasing(tail);
      UpsampleCoverage(tail);
      var rest := Upsample(tail);
      var g := DaysBetween(s[0].date, s[1].date);
      assert g == s[1].date - s[0].date - 1;
      var gap := NullRows(s[0].date + 1, g);
      var u := Upsample(s);
      assert u == [s[0]] + gap + rest;
      forall k | 0 <= k < |u|
        ensures u[k] == Row(s[0].date + k, ObservedAt(s, s[0].date + k))
      {
        var d := s[0].date + k;
        if k == 0 {
        } else if k <= g {
          assert u[k] == gap[k - 1];
          forall i | 0 <= i < |tail|
            ensures tail[i].date != d
          {
            if i > 0 {
              StrictPairs(tail);
              assert tail[0].date < tail[i].date;
            }
          }
          ObservedOutside(tail, d);
        } else {
          assert u[k] == rest[k - 1 - g];
        }
      }
    }
  }

  // ---------------------------------------------------------------------------
  // fill_null(FillNullStrategy::Forward(None))
  // ---------------------------------------------------------------------------

  /** Replaces each null by the latest earlier non-null value; `last` is the
      value carried in from before the first row. Dates are untouched. */
  function FillFrom(s: Series, last: Option<real>): (f: Series)
    ensures |f| == |s|
    ensures forall i :: 0 <= i < |s| ==> f[i].date == s[i].date
  {
    if |s| == 0 then []
    else
      var v := if s[0].value.Some? then s[0].value else last;
      var rest := FillFrom(s[1..], v);
      var f := [Row(s[0].date, v)] + rest;
      assert forall i :: 0 < i < |s| ==> f[i] == rest[i - 1] && s[i] == s[1..][i - 1];
      f
  }

  /** Forward filling keeps every present rate, gives a null the value of the
      row before it, and gives a leading null the carried-in value. */
  lemma {:induction false} FillFromValues(s: Series, last: Option<real>)
    ensures var f := FillFrom(s, last);
      && (forall i :: 0 <= i < |s| && s[i].value.Some? ==> f[i].value == s[i].value)
      && (forall i, j :: 0 <= i < |s| && 0 <= j < |s| && j == i + 1 && s[j].value.None? ==>
            f[j].value == f[i].value)
      && (|s| > 0 && s[0].value.None? ==> f[0].value == last)
  {
    if |s| > 0 {
      var v := if s[0].value.Some? then s[0].value else last;
      FillFromValues(s[1..], v);
      var rest := FillFrom(s[1..], v);
      var f := FillFrom(s, last);
      assert f == [Row(s[0].date, v)] + rest;
      forall i | 0 < i < |s|
        ensures f[i] == rest[i - 1] && s[i] == s[1..][i - 1]
      {
      }
    }
  }

  function FillForward(s: Series): Series
  {
    FillFrom(s, None)
  }

  /** Forward filling twice is forward filling once. */
  lemma {:induction false} FillFromIdempotent(s: Series, last: Option<real>)
    ensures FillFrom(FillFrom(s, last), last) == FillFrom(s, last)
  {
    if |s| > 0 {
      var f := FillFrom(s, last);
      var v := if s[0].value.Some? then s[0].value else last;
      assert f[0].value == v;
      assert f[1..] == FillFrom(s[1..], v);
      FillFromIdempotent(s[1..], v);
    }
  }

  // ---------------------------------------------------------------------------
  // expand
  // ---------------------------------------------------------------------------

  /** Appends a null-valued row dated `today` when the latest date is earlier. */
  function AddToday(raw: Series, today: int): Result<Series, SeriesError>
  {
    var latest :- ExtremeDate(DateColumn(raw), Max);
    if latest < today then Success(raw + [Row(today, None)]) else Success(raw)
  }

  lemma AddTodayFacts(raw: Series, today: int)
    ensures |raw| == 0 ==> AddToday(raw, today) == Failure(EmptyColumn)
    ensures |raw| > 0 ==> AddToday(raw, today).Success?
    ensures |raw| > 0 ==>
      var s := AddToday(raw, today).value;
      && |s| > 0 && s[0] == raw[0]
      && (Sorted(s) <==> Sorted(raw))
      && (Sorted(raw) ==>
            s[|s| - 1].date == if raw[|raw| - 1].date < today then today else raw[|raw| - 1].date)
  {
    if |raw| > 0 {
      LatestAtLeastLast(raw);
      var latest := ExtremeDate(DateColumn(raw), Max).value;
      if Sorted(raw) {
        SortedMaximum(raw);
      }
      if latest < today {
        SortedSnoc(raw, Row(today, None));
      }
    }
  }

  /** The latest date of a non-empty series is defined and not before its last row's. */
  lemma LatestAtLeastLast(raw: Series)
    requires |raw| > 0
    ensures ExtremeDate(DateColumn(raw), Max).Success?
    ensures raw[|raw| - 1].date <= ExtremeDate(DateColumn(raw), Max).value
  {
    var col := DateColumn(raw);
    assert col[|raw| - 1] == Some(raw[|raw| - 1].date);
  }

  /** A row dated no earlier than the last one keeps a series sorted, and an
      unsorted series stays unsorted. */
  lemma SortedSnoc(raw: Series, r: Row)
    requires |raw| > 0 && raw[|raw| - 1].date <= r.date
    ensures Sorted(raw + [r]) <==> Sorted(raw)
  {
    var s := raw + [r];
    assert forall i :: 0 <= i < |raw| ==> s[i] == raw[i];
    if !Sorted(raw) {
      var i :| 0 <= i < |raw| - 1 && raw[i].date > raw[i + 1].date;
      assert s[i].date > s[i + 1].date;
    }
  }

  /** Gap-freeness depends on the dates alone. */
  lemma GapFreeSameDates(u: Series, f: Series)
    requires GapFree(u) && |f| == |u|
    requires forall i :: 0 <= i < |u| ==> f[i].date == u[i].date
    ensures GapFree(f)
  {
    forall i | 0 <= i < |f| - 1
      ensures f[i].date <= f[i + 1].date <= f[i].date + 1
    {
      assert f[i].date == u[i].date;
      assert f[i + 1].date == u[i + 1].date;
    }
  }

  /** `expand`: optionally adds today's null row, then upsamples to one row per
      day and forward-fills the nulls. */
  function Expand(raw: Series, addToday: bool, today: int): (r: Result<Series, SeriesError>)
    ensures r.Success? <==> |raw| > 0 && Sorted(raw)
    ensures r.Failure? && |raw| == 0 ==> r.error == EmptyColumn
    ensures r.Failure? && |raw| > 0 ==> r.error == UnsortedDates
    ensures r.Success? ==> |r.value| > 0 && GapFree(r.value)
    ensures r.Success? ==> r.value[0].date == raw[0].date
    ensures r.Success? && !addToday ==> r.value[|r.value| - 1].date == raw[|raw| - 1].date
    ensures r.Success? && addToday ==>
      r.value[|r.value| - 1].date ==
        if raw[|raw| - 1].date < today then today else raw[|raw| - 1].date
  {
    AddTodayFacts(raw, today);
    var s :- if addToday then AddToday(raw, today) else Success(raw);
    if |s| == 0 then Failure(EmptyColumn)
    else if !Sorted(s) then Failure(UnsortedDates)
    else
      var u := Upsample(s);
      var f := FillForward(u);
      GapFreeSameDates(u, f);
      Success(f)
  }

  /** Expanding an expanded series with `add_today = false` returns it unchanged. */
  lemma ExpandIdempotent(raw: Series, addToday: bool, today: int)
    requires Expand(raw, addToday, today).Success?
    ensures Expand(Expand(raw, addToday, today).value, false, today)
         == Expand(raw, addToday, today)
  {
    var u := ExpandFilled(raw, addToday, today);
    ExpandOfGapFree(FillForward(u), today);
    FillFromIdempotent(u, None);
  }

  /** An expanded series is the forward fill of an upsampled one. */
  lemma ExpandFilled(raw: Series, addToday: bool, today: int) returns (u: Series)
    requires Expand(raw, addToday, today).Success?
    ensures Expand(raw, addToday, today) == Success(FillForward(u))
  {
    AddTodayFacts(raw, today);
    var s := (if addToday then AddToday(raw, today) else Success(raw)).value;
    u := Upsample(s);
  }

  /** Expanding a gap-free series without today's row only forward-fills it. */
  lemma ExpandOfGapFree(e: Series, today: int)
    requires |e| > 0 && GapFree(e)
    ensures Expand(e, false, today) == Success(FillForward(e))
  {
    assert Sorted(e);
    UpsampleGapFree(e);
  }

  /** Expanding with `add_today` a second time on the same day changes nothing. */
  lemma ExpandTodayTwice(raw: Series, today: int)
    requires Expand(raw, true, today).Success?
    ensures Expand(Expand(raw, true, today).value, true, today) == Expand(raw, true, today)
  {
    var e := Expand(raw, true, today).value;
    SortedExtremes(e);
    assert AddToday(e, today) == Success(e);
    ExpandIdempotent(raw, true, today);
  }

  /** `add_today` has no effect on a series that already reaches today. */
  lemma ExpandCurrent(raw: Series, today: int)
    requires |raw| > 0 && Sorted(raw) && today <= raw[|raw| - 1].date
    ensures Expand(raw, true, today) == Expand(raw, false, today)
  {
    SortedExtremes(raw);
  }

  /** Upsampling and filling a series with one row per date. */
  lemma FilledCoverage(raw: Series)
    requires StrictlyIncreasing(raw) && |raw| > 0
    ensures Sorted(raw)
    ensures var e := FillForward(Upsample(raw));
      var first := raw[0].date;
      && |e| == raw[|raw| - 1].date - first + 1
      && (forall k :: 0 <= k < |e| ==> e[k].date == first + k)
      && (forall k :: 0 <= k < |e| && ObservedAt(raw, first + k).Some? ==>
            e[k].value == ObservedAt(raw, first + k))
  {
    UpsampleCoverage(raw);
    var u := Upsample(raw);
    UpsampledValues(raw);
    FilledValues(u, FillForward(u));
  }

  /** A day of the filled series without an observation repeats the day before. */
  lemma FilledCarry(raw: Series)
    requires StrictlyIncreasing(raw) && |raw| > 0
    ensures Sorted(raw)
    ensures var e := FillForward(Upsample(raw));
      forall k, k' ::
        0 <= k < |e| && 0 <= k' < |e| && k' == k + 1 && ObservedAt(raw, raw[0].date + k').None?
        ==> e[k'].value == e[k].value
  {
    UpsampleCoverage(raw);
    var u := Upsample(raw);
    FilledValues(u, FillForward(u));
    forall k, k' {:trigger u[k], u[k']}
      | 0 <= k < |u| && 0 <= k' < |u| && k' == k + 1 && ObservedAt(raw, raw[0].date + k').None?
      ensures u[k'].value.None?
    {
      assert u[k'] == Row(raw[0].date + k', ObservedAt(raw, raw[0].date + k'));
    }
  }

  /** Gap filling on a series with one row per date: one row for every day from
      the first to the last date; an observed value is kept on its day; a day
      without an observation (a gap or a null) takes the previous day's value. */
  lemma ExpandCoverage(raw: Series, today: int)
    requires StrictlyIncreasing(raw) && |raw| > 0
    ensures Expand(raw, false, today).Success?
    ensures var e := Expand(raw, false, today).value;
      var first := raw[0].date;
      && |e| == raw[|raw| - 1].date - first + 1
      && (forall k :: 0 <= k < |e| ==> e[k].date == first + k)
      && (forall k :: 0 <= k < |e| && ObservedAt(raw, first + k).Some? ==>
            e[k].value == ObservedAt(raw, first + k))
      && (forall k, k' ::
            0 <= k < |e| && 0 <= k' < |e| && k' == k + 1 && ObservedAt(raw, first + k').None?
            ==> e[k'].value == e[k].value)
  {
    FilledCoverage(raw);
    FilledCarry(raw);
    assert Expand(raw, false, today) == Success(FillForward(Upsample(raw)));
  }

  /** The worked example of gap filling: observations on days 1 and 5 give
      days 1 to 5, with days 2 to 4 carrying day 1's rate. */
  lemma ExpandExample(today: int)
    ensures Expand([Row(1, Some(1.10)), Row(5, Some(1.20))], false, today)
         == Success([Row(1, Some(1.10)), Row(2, Some(1.10)), Row(3, Some(1.10)),
                     Row(4, Some(1.10)), Row(5, Some(1.20))])
  {
    var raw := [Row(1, Some(1.10)), Row(5, Some(1.20))];
    assert StrictlyIncreasing(raw);
    ExpandCoverage(raw, today);
    var e := Expand(raw, false, today).value;
    assert ObservedAt(raw, 1) == Some(1.10);
    assert ObservedAt(raw, 2) == None && ObservedAt(raw, 3) == None && ObservedAt(raw, 4) == None;
    assert ObservedAt(raw, 5) == Some(1.20);
    assert |e| == 5;
    assert e[0] == Row(1, Some(1.10));
    assert e[1] == Row(2, Some(1.10));
    assert e[2] == Row(3, Some(1.10));
    assert e[3] == Row(4, Some(1.10));
    assert e[4] == Row(5, Some(1.20));
    assert e == [Row(1, Some(1.10)), Row(2, Some(1.10)), Row(3, Some(1.10)),
                 Row(4, Some(1.10)), Row(5, Some(1.20))];
  }

  // ---------------------------------------------------------------------------
  // Reference meaning of an expanded series
  // ---------------------------------------------------------------------------

  /** The latest non-null rate among the rows dated on or before day `d`. */
  function LastKnown(s: Series, d: int): Option<real>
  {
    if |s| == 0 then None
    else if s[|s| - 1].date <= d && s[|s| - 1].value.Some? then s[|s| - 1].value
    else LastKnown(s[..|s| - 1], d)
  }

  lemma {:induction false} LastKnownBefore(s: Series, d: int)
    requires forall i :: 0 <= i < |s| ==> s[i].date < d
    ensures LastKnown(s, d) == LastKnown(s, d - 1)
  {
    if |s| > 0 {
      LastKnownBefore(s[..|s| - 1], d);
    }
  }

  lemma {:induction false} LastKnownAfter(s: Series, d: int)
    requires forall i :: 0 <= i < |s| ==> d < s[i].date
    ensures LastKnown(s, d) == None
  {
    if |s| > 0 {
      LastKnownAfter(s[..|s| - 1], d);
    }
  }

  lemma {:induction false} ObservedAtSnoc(s: Series, r: Row, d: int)
    requires r.date != d
    ensures ObservedAt(s + [r], d) == ObservedAt(s, d)
  {
    if |s| > 0 {
      assert (s + [r])[1..] == s[1..] + [r];
      ObservedAtSnoc(s[1..], r, d);
    }
  }

  /** With one row per date, the last known rate of a day is that day's
      observation if there is one, and the previous day's otherwise. */
  lemma {:induction false} LastKnownStep(s: Series, d: int)
    requires StrictlyIncreasing(s)
    ensures LastKnown(s, d) ==
      if ObservedAt(s, d).Some? then ObservedAt(s, d) else LastKnown(s, d - 1)
  {
    if |s| > 0 {
      var n := |s| - 1;
      var init := s[..n];
      var t := s[n];
      assert s == init + [t];
      StrictPairs(s);
      if t.date == d {
        ObservedAtFirst(s, d);
        assert ObservedAt(s, d) == t.value;
        LastKnownBefore(init, d);
      } else if t.date < d {
        ObservedOutside(s, d);
        LastKnownBefore(s, d);
      } else {
        assert StrictlyIncreasing(init);
        ObservedAtSnoc(init, t, d);
        LastKnownStep(init, d);
      }
    }
  }

  /** Forward filling of the per-day observations of a strictly increasing
      `s`: row `k` of the filled values `f` of the upsampled rows `u` holds
      the last known rate of day `first + k`. */
  lemma {:induction false} FilledAt(s: Series, u: Series, f: Series, k: nat)
    requires StrictlyIncreasing(s) && |s| > 0
    requires |f| == |u| && k < |u|
    requires forall j :: 0 <= j < |u| ==> u[j].value == ObservedAt(s, s[0].date + j)
    requires forall j :: 0 <= j < |u| && u[j].value.Some? ==> f[j].value == u[j].value
    requires u[0].value.None? ==> f[0].value == None
    requires forall i, j :: 0 <= i < |u| && 0 <= j < |u| && j == i + 1 && u[j].value.None? ==>
      f[j].value == f[i].value
    ensures f[k].value == LastKnown(s, s[0].date + k)
    decreases k
  {
    var d := s[0].date + k;
    assert u[k].value == ObservedAt(s, d);
    LastKnownStep(s, d);
    if u[k].value.None? {
      if k == 0 {
        StrictPairs(s);
        LastKnownAfter(s, d - 1);
      } else {
        FilledAt(s, u, f, k - 1);
        assert f[k].value == f[k - 1].value;
      }
    }
  }

  /** The upsampled rows of a strictly increasing series, day by day. */
  lemma UpsampledValues(s: Series)
    requires StrictlyIncreasing(s) && |s| > 0
    ensures |Upsample(s)| > 0
    ensures forall j :: 0 <= j < |Upsample(s)| ==> Upsample(s)[j].date == s[0].date + j
    ensures forall j :: 0 <= j < |Upsample(s)| ==> Upsample(s)[j].value == ObservedAt(s, s[0].date + j)
  {
    UpsampleCoverage(s);
  }

  /** What forward filling keeps of `u`, stated over plain sequences. */
  lemma FilledValues(u: Series, f: Series)
    requires f == FillForward(u) && |u| > 0
    ensures |f| == |u|
    ensures forall j :: 0 <= j < |u| ==> f[j].date == u[j].date
    ensures forall j :: 0 <= j < |u| && u[j].value.Some? ==> f[j].value == u[j].value
    ensures u[0].value.None? ==> f[0].value == None
    ensures forall i, j :: 0 <= i < |u| && 0 <= j < |u| && j == i + 1 && u[j].value.None? ==>
      f[j].value == f[i].value
  {
    FillFromValues(u, None);
  }

  lemma FilledLength(s: Series)
    requires StrictlyIncreasing(s) && |s| > 0
    ensures |FillForward(Upsample(s))| == s[|s| - 1].date - s[0].date + 1
  {
    UpsampleCoverage(s);
  }

  lemma FilledIsLastKnown(s: Series)
    requires StrictlyIncreasing(s) && |s| > 0
    ensures Sorted(s)
    ensures var f := FillForward(Upsample(s));
      && |f| == s[|s| - 1].date - s[0].date + 1
      && forall k :: 0 <= k < |f| ==> f[k] == Row(s[0].date + k, LastKnown(s, s[0].date + k))
  {
    UpsampleCoverage(s);
    var f := FillForward(Upsample(s));
    forall k | 0 <= k < |f|
      ensures f[k] == Row(s[0].date + k, LastKnown(s, s[0].date + k))
    {
      FilledRow(s, k);
    }
  }

  /** Row `k` of the filled series, dated from `first` and holding the
      last-known rate `v` of that day. */
  lemma FilledRowFrom(s: Series, first: int, k: int, v: Option<real>)
    requires StrictlyIncreasing(s) && |s| > 0 && s[0].date == first
    requires 0 <= k < |FillForward(Upsample(s))|
    requires LastKnown(s, first + k) == v
    ensures FillForward(Upsample(s))[k] == Row(first + k, v)
  {
    FilledRow(s, k);
  }

  lemma FilledRow(s: Series, k: int)
    requires StrictlyIncreasing(s) && |s| > 0 && 0 <= k < |FillForward(Upsample(s))|
    ensures FillForward(Upsample(s))[k] == Row(s[0].date + k, LastKnown(s, s[0].date + k))
  {
    var u := Upsample(s);
    var f := FillForward(u);
    UpsampledValues(s);
    FilledValues(u, f);
    FilledAt(s, u, f, k);
  }

  /** Appending a null row changes no last known rate. */
  lemma LastKnownNullSnoc(raw: Series, r: Row, d: int)
    requires r.value.None?
    ensures LastKnown(raw + [r], d) == LastKnown(raw, d)
  {
    assert (raw + [r])[..|raw|] == raw;
  }

  lemma StrictSnoc(raw: Series, r: Row)
    requires StrictlyIncreasing(raw) && |raw| > 0 && raw[|raw| - 1].date < r.date
    ensures StrictlyIncreasing(raw + [r])
  {
    var s := raw + [r];
    assert forall i :: 0 <= i < |raw| ==> s[i] == raw[i];
  }

  /** The last day an expanded series covers. */
  function LastDay(raw: Series, addToday: bool, today: int): int
    requires |raw| > 0
  {
    var last := raw[|raw| - 1].date;
    if addToday && last < today then today else last
  }

  /** The series `expand` upsamples: the input, with today's null row when
      `add_today` is set and the input ends earlier. */
  function Extended(raw: Series, addToday: bool, today: int): Series
    requires |raw| > 0
  {
    if addToday && raw[|raw| - 1].date < today then raw + [Row(today, None)] else raw
  }

  lemma ExpandExtended(raw: Series, addToday: bool, today: int)
    requires Sorted(raw) && |raw| > 0
    ensures Expand(raw, addToday, today) == Success(FillForward(Upsample(Extended(raw, addToday, today))))
  {
    AddTodayFacts(raw, today);
    SortedExtremes(raw);
  }

  /** The meaning of `expand` on a series with one row per date: one row for
      every day from the first date to the last (or today), each holding the
      latest rate observed on or before that day. */
  lemma ExpandIsLastKnown(raw: Series, addToday: bool, today: int)
    requires StrictlyIncreasing(raw) && |raw| > 0
    ensures Expand(raw, addToday, today).Success?
    ensures var e := Expand(raw, addToday, today).value;
      && |e| == LastDay(raw, addToday, today) - raw[0].date + 1
      && forall k :: 0 <= k < |e| ==> e[k] == Row(raw[0].date + k, LastKnown(raw, raw[0].date + k))
  {
    StrictPairs(raw);
    ExpandExtended(raw, addToday, today);
    if addToday && raw[|raw| - 1].date < today {
      var r := Row(today, None);
      assert Extended(raw, addToday, today) == raw + [r];
      SnocIsLastKnown(raw, r);
    } else {
      assert Extended(raw, addToday, today) == raw;
      FilledIsLastKnown(raw);
    }
  }

  /** Filling a series extended by a later null row: one row per day up to
      the new row's date, each holding the original series' last-known rate. */
  lemma SnocIsLastKnown(raw: Series, r: Row)
    requires StrictlyIncreasing(raw) && |raw| > 0 && raw[|raw| - 1].date < r.date && r.value.None?
    ensures var e := FillForward(Upsample(raw + [r]));
      && |e| == r.date - raw[0].date + 1
      && forall k :: 0 <= k < |e| ==> e[k] == Row(raw[0].date + k, LastKnown(raw, raw[0].date + k))
  {
    StrictSnoc(raw, r);
    FilledLength(raw + [r]);
    assert (raw + [r])[0] == raw[0] && (raw + [r])[|raw|] == r;
    forall k | 0 <= k < |FillForward(Upsample(raw + [r]))|
      ensures FillForward(Upsample(raw + [r]))[k] == Row(raw[0].date + k, LastKnown(raw, raw[0].date + k))
    {
      SnocRow(raw, r, k);
    }
  }

  /** A trailing null row adds days to the filled series but changes no
      last-known rate. */
  lemma SnocRow(raw: Series, r: Row, k: int)
    requires StrictlyIncreasing(raw) && |raw| > 0 && raw[|raw| - 1].date < r.date && r.value.None?
    requires 0 <= k < |FillForward(Upsample(raw + [r]))|
    ensures FillForward(Upsample(raw + [r]))[k] == Row(raw[0].date + k, LastKnown(raw, raw[0].date + k))
  {
    var first := raw[0].date;
    StrictSnoc(raw, r);
    LastKnownNullSnoc(raw, r, first + k);
    assert (raw + [r])[0] == raw[0];
    FilledRowFrom(raw + [r], first, k, LastKnown(raw, first + k));
  }

  // ---------------------------------------------------------------------------
  // Reference meaning with dates that repeat
  // ---------------------------------------------------------------------------

  /** The rate the first row of day `d` holds in the expansion of a sorted
      series: the rate of the day's first row when it has one, and otherwise
      the latest rate known on the day before. */
  function DayRate(s: Series, d: int): Option<real>
  {
    if ObservedAt(s, d).Some? then ObservedAt(s, d) else LastKnown(s, d - 1)
  }

  /** With one row per date the day's rate is its last known rate. */
  lemma DayRateStrict(s: Series, d: int)
    requires StrictlyIncreasing(s)
    ensures DayRate(s, d) == LastKnown(s, d)
  {
    LastKnownStep(s, d);
  }

  /** A value, or `last` when there is none. */
  function KnownOr(v: Option<real>, last: Option<real>): Option<real>
  {
    if v.Some? then v else last
  }

  /** The last known rate of a series with a row in front. */
  lemma {:induction false} LastKnownCons(r: Row, t: Series, d: int)
    ensures LastKnown([r] + t, d) ==
      KnownOr(LastKnown(t, d), if r.date <= d && r.value.Some? then r.value else None)
    decreases |t|
  {
    var s := [r] + t;
    if |t| > 0 {
      assert s[|s| - 1] == t[|t| - 1];
      assert s[..|s| - 1] == [r] + t[..|t| - 1];
      LastKnownCons(r, t[..|t| - 1], d);
    } else {
      assert s[..|s| - 1] == [];
    }
  }

  /** `n` rows from day `from` on, all holding `v`. */
  function FilledRows(from: int, n: nat, v: Option<real>): seq<Row>
  {
    seq(n, k requires 0 <= k < n => Row(from + k, v))
  }

  /** Forward filling the null rows of a gap carries the value in. */
  lemma {:induction false} FillFromNulls(from: int, n: nat, v: Option<real>, rest: Series)
    ensures FillFrom(NullRows(from, n) + rest, v) == FilledRows(from, n, v) + FillFrom(rest, v)
    decreases n
  {
    if n > 0 {
      var s := NullRows(from, n) + rest;
      assert s[0] == Row(from, None);
      assert s[1..] == NullRows(from + 1, n - 1) + rest;
      FillFromNulls(from + 1, n - 1, v, rest);
      assert FilledRows(from, n, v) == [Row(from, v)] + FilledRows(from + 1, n - 1, v);
    } else {
      assert NullRows(from, n) + rest == rest;
    }
  }

  /** The rate of day `d` in a filled series with `last` carried in: the
      day's first rate if it has one, else the latest rate known the day
      before, else `last`. */
  function DayRateFrom(s: Series, d: int, last: Option<real>): Option<real>
  {
    if ObservedAt(s, d).Some? then ObservedAt(s, d) else KnownOr(LastKnown(s, d - 1), last)
  }

  /** Upsampling a sorted series of two rows or more: its first row, the null
      rows of the gap after it, and the upsampled rest. */
  lemma UpsampleSplit(s: Series)
    requires Sorted(s) && |s| > 1
    ensures Sorted(s[1..])
    ensures Upsample(s) == [s[0]] + NullRows(s[0].date + 1, DaysBetween(s[0].date, s[1].date)) + Upsample(s[1..])
  {
    assert Sorted(s[1..]);
  }

  /** Forward filling a series with a row in front. */
  lemma FillFromCons(r: Row, x: Series, last: Option<real>)
    ensures FillFrom([r] + x, last) == [Row(r.date, KnownOr(r.value, last))] + FillFrom(x, KnownOr(r.value, last))
  {
    assert ([r] + x)[0] == r && ([r] + x)[1..] == x;
  }

  /** The filled upsampled series `f` of a sorted `s`, with `last` carried
      in, split at its first row: the first row with its rate `v`, the `g`
      days of the gap filled with `v`, and the filled rest `rest`. */
  lemma FilledSplit(s: Series, last: Option<real>, f: Series, v: Option<real>, g: nat, rest: Series)
    requires Sorted(s) && |s| > 1
    requires v == KnownOr(s[0].value, last) && g == DaysBetween(s[0].date, s[1].date)
    requires f == FillFrom(Upsample(s), last)
    requires Sorted(s[1..]) && rest == FillFrom(Upsample(s[1..]), v)
    ensures f == [Row(s[0].date, v)] + FilledRows(s[0].date + 1, g, v) + rest
  {
    UpsampleSplit(s);
    var n := NullRows(s[0].date + 1, g);
    var u := Upsample(s[1..]);
    SeqAssoc([s[0]], n, u);
    FillFromCons(s[0], n + u, last);
    FillFromNulls(s[0].date + 1, g, v, u);
    SeqAssoc([Row(s[0].date, v)], FilledRows(s[0].date + 1, g, v), rest);
  }

  lemma SeqAssoc(a: seq<Row>, b: seq<Row>, c: seq<Row>)
    ensures a + (b + c) == a + b + c
  {
  }

  /** The forward fill of the upsampled rows of `s`, built row by row: each
      row with its rate (or the rate carried in), then the days of the gap
      up to the next row, carrying that rate. */
  function FilledDays(s: Series, last: Option<real>): Series
    decreases |s|
  {
    if |s| == 0 then []
    else
      var v := KnownOr(s[0].value, last);
      if |s| == 1 then [Row(s[0].date, v)]
      else [Row(s[0].date, v)] + FilledRows(s[0].date + 1, DaysBetween(s[0].date, s[1].date), v) + FilledDays(s[1..], v)
  }

  /** Upsampling a sorted series and forward filling it gives `FilledDays`. */
  lemma {:induction false} FilledDaysAgree(s: Series, last: Option<real>)
    requires Sorted(s)
    ensures FillFrom(Upsample(s), last) == FilledDays(s, last)
    decreases |s|
  {
    if |s| == 1 {
      FillFromCons(s[0], [], last);
      assert [s[0]] + [] == s;
    } else if |s| > 1 {
      var v := KnownOr(s[0].value, last);
      assert Sorted(s[1..]);
      FilledDaysAgree(s[1..], v);
      FilledSplit(s, last, FillFrom(Upsample(s), last), v, DaysBetween(s[0].date, s[1].date),
                  FillFrom(Upsample(s[1..]), v));
    }
  }

  /** The first row of the filled series is the first day's first row. */
  lemma FirstDayRow(s: Series, last: Option<real>)
    requires Sorted(s) && |s| > 0
    ensures FirstRowOn(FilledDays(s, last), s[0].date, 0)
    ensures FilledDays(s, last)[0].value == DayRateFrom(s, s[0].date, last)
  {
    SortedPairs(s);
    LastKnownAfter(s, s[0].date - 1);
  }

  /** After the first date, the rate of a day is the rate of the rest with
      the first row's rate carried in. */
  lemma DayRateCons(s: Series, last: Option<real>, d: int)
    requires |s| > 0 && s[0].date < d
    ensures DayRateFrom(s, d, last) == DayRateFrom(s[1..], d, KnownOr(s[0].value, last))
  {
    assert s == [s[0]] + s[1..];
    LastKnownCons(s[0], s[1..], d - 1);
  }

  /** A day strictly between the first two dates takes the first row's rate. */
  lemma GapDayRate(s: Series, last: Option<real>, d: int)
    requires Sorted(s) && |s| > 1 && s[0].date < d < s[1].date
    ensures DayRateFrom(s[1..], d, KnownOr(s[0].value, last)) == KnownOr(s[0].value, last)
  {
    var t := s[1..];
    assert Sorted(t);
    SortedPairs(t);
    ObservedOutside(t, d);
    LastKnownAfter(t, d - 1);
  }

  /** In the filled days of a sorted series, with `last` carried in, every
      day from the first to the last date has a first row, which holds the
      day's rate (or `last` when none is known). */
  lemma {:induction false} FilledFirstRow(s: Series, last: Option<real>, d: int) returns (i: int)
    requires Sorted(s) && |s| > 0 && s[0].date <= d <= s[|s| - 1].date
    ensures FirstRowOn(FilledDays(s, last), d, i)
    ensures FilledDays(s, last)[i].value == DayRateFrom(s, d, last)
    decreases |s|
  {
    if d == s[0].date {
      i := 0;
      FirstDayRow(s, last);
    } else if d < s[1].date {
      i := d - s[0].date;
      FilledGap(s, last, d);
    } else {
      var t := s[1..];
      assert Sorted(t) && t[0] == s[1] && t[|t| - 1] == s[|s| - 1];
      var v := KnownOr(s[0].value, last);
      var j := FilledFirstRow(t, v, d);
      i := 1 + DaysBetween(s[0].date, s[1].date) + j;
      FilledLater(s, last, d, j, i);
      DayRateCons(s, last, d);
    }
  }

  /** A day strictly between the first two dates is first met in the gap
      after the first row, and takes the first row's rate. */
  lemma FilledGap(s: Series, last: Option<real>, d: int)
    requires Sorted(s) && |s| > 1 && s[0].date < d < s[1].date
    ensures FirstRowOn(FilledDays(s, last), d, d - s[0].date)
    ensures FilledDays(s, last)[d - s[0].date].value == DayRateFrom(s, d, last)
  {
    var v := KnownOr(s[0].value, last);
    var g := DaysBetween(s[0].date, s[1].date);
    GapRow(FilledDays(s, last), s[0].date, v, g, FilledDays(s[1..], v), d);
    DayRateCons(s, last, d);
    GapDayRate(s, last, d);
  }

  /** A day on or after the second date is first met after the first gap. */
  lemma FilledLater(s: Series, last: Option<real>, d: int, j: int, i: int)
    requires |s| > 1 && s[0].date < d && s[1].date <= d
    requires FirstRowOn(FilledDays(s[1..], KnownOr(s[0].value, last)), d, j)
    requires i == 1 + DaysBetween(s[0].date, s[1].date) + j
    ensures FirstRowOn(FilledDays(s, last), d, i)
    ensures FilledDays(s, last)[i] == FilledDays(s[1..], KnownOr(s[0].value, last))[j]
  {
    var v := KnownOr(s[0].value, last);
    LaterRow(FilledDays(s, last), s[0].date, v, DaysBetween(s[0].date, s[1].date), FilledDays(s[1..], v), d, j);
  }

  /** A day inside the gap after the first row is first met in the gap. */
  lemma GapRow(f: Series, first: int, v: Option<real>, g: nat, rest: Series, d: int)
    requires f == [Row(first, v)] + FilledRows(first + 1, g, v) + rest
    requires first < d <= first + g
    ensures FirstRowOn(f, d, d - first)
    ensures f[d - first].value == v
  {
    var gap := FilledRows(first + 1, g, v);
    assert forall k :: 1 <= k <= g ==> f[k] == gap[k - 1];
  }

  /** A day after the gap is first met where it is first met in the rest. */
  lemma LaterRow(f: Series, first: int, v: Option<real>, g: nat, rest: Series, d: int, j: int)
    requires f == [Row(first, v)] + FilledRows(first + 1, g, v) + rest
    requires first + g < d && FirstRowOn(rest, d, j)
    ensures FirstRowOn(f, d, 1 + g + j)
    ensures f[1 + g + j] == rest[j]
  {
    var gap := FilledRows(first + 1, g, v);
    assert forall k :: 1 <= k <= g ==> f[k] == gap[k - 1];
    assert forall k :: 0 <= k < |rest| ==> f[1 + g + k] == rest[k];
  }

  /** The meaning of `expand` on any sorted series, dates repeating or not:
      every day from the first date to the last (or today) has a first row
      in the expansion, and it holds the day's rate. */
  lemma ExpandFirstRow(raw: Series, addToday: bool, today: int, d: int) returns (i: int)
    requires Sorted(raw) && |raw| > 0 && raw[0].date <= d <= LastDay(raw, addToday, today)
    ensures Expand(raw, addToday, today).Success?
    ensures FirstRowOn(Expand(raw, addToday, today).value, d, i)
    ensures Expand(raw, addToday, today).value[i].value == DayRate(raw, d)
  {
    ExpandExtended(raw, addToday, today);
    ExtendedDayRate(raw, addToday, today, d);
    FilledDaysAgree(Extended(raw, addToday, today), None);
    i := FilledFirstRow(Extended(raw, addToday, today), None, d);
  }

  /** The extended series is sorted, spans the days `expand` covers, and
      gives every such day the rate of `raw` on it. */
  lemma ExtendedDayRate(raw: Series, addToday: bool, today: int, d: int)
    requires Sorted(raw) && |raw| > 0 && raw[0].date <= d <= LastDay(raw, addToday, today)
    ensures var s := Extended(raw, addToday, today);
      && Sorted(s) && |s| > 0 && s[0].date <= d <= s[|s| - 1].date
      && DayRateFrom(s, d, None) == DayRate(raw, d)
  {
    var s := Extended(raw, addToday, today);
    if addToday && raw[|raw| - 1].date < today {
      var r := Row(today, None);
      SortedSnoc(raw, r);
      assert s == raw + [r] && s[0] == raw[0] && s[|s| - 1] == r;
      LastKnownNullSnoc(raw, r, d - 1);
      SortedPairs(raw);
      if d == today {
        assert FirstRowOn(s, d, |raw|);
        ObservedAtIndex(s, d, |raw|);
        ObservedOutside(raw, d);
      } else {
        ObservedAtSnoc(raw, r, d);
      }
    }
  }

  // ---------------------------------------------------------------------------
  // Nonzero rates
  // ---------------------------------------------------------------------------

  /** Every present rate is nonzero, so it can be inverted. */
  predicate NonZeroValues(s: Series)
  {
    forall i :: 0 <= i < |s| && s[i].value.Some? ==> s[i].value.value != 0.0
  }

  lemma {:induction false} UpsampleNonZero(s: Series)
    requires Sorted(s) && NonZeroValues(s)
    ensures NonZeroValues(Upsample(s))
  {
    if |s| > 1 {
      var t := s[1..];
      assert Sorted(t) && NonZeroValues(t);
      UpsampleNonZero(t);
      var n := DaysBetween(s[0].date, s[1].date);
      var u := [s[0]] + NullRows(s[0].date + 1, n) + Upsample(t);
      assert Upsample(s) == u;
      forall i | 0 <= i < |u| && u[i].value.Some?
        ensures u[i].value.value != 0.0
      {
        if 1 + n <= i {
          assert u[i] == Upsample(t)[i - 1 - n];
        }
      }
    }
  }

  lemma {:induction false} FillFromNonZero(s: Series, last: Option<real>)
    requires NonZeroValues(s)
    requires last.Some? ==> last.value != 0.0
    ensures NonZeroValues(FillFrom(s, last))
  {
    if |s| > 0 {
      var v := if s[0].value.Some? then s[0].value else last;
      assert NonZeroValues(s[1..]);
      FillFromNonZero(s[1..], v);
      var f := FillFrom(s, last);
      assert f == [Row(s[0].date, v)] + FillFrom(s[1..], v);
      forall i | 0 < i < |f| && f[i].value.Some?
        ensures f[i].value.value != 0.0
      {
        assert f[i] == FillFrom(s[1..], v)[i - 1];
      }
    }
  }

  /** Gap filling introduces no rate that was not already present. */
  lemma ExpandNonZero(raw: Series, addToday: bool, today: int)
    requires NonZeroValues(raw)
    requires Expand(raw, addToday, today).Success?
    ensures NonZeroValues(Expand(raw, addToday, today).value)
  {
    AddTodayFacts(raw, today);
    var s := (if addToday then AddToday(raw, today) else Success(raw)).value;
    assert NonZeroValues(s) by {
      if s != raw {
        assert s == raw + [Row(today, None)];
        assert forall i :: 0 <= i < |raw| ==> s[i] == raw[i];
      }
    }
    UpsampleNonZero(s);
    FillFromNonZero(Upsample(s), None);
  }
}
