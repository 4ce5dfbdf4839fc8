/**
 * The historical-weather trip predictor: it expands a trip into its days,
 * expands each day into the same month and day of every year from 2015 up
 * to (excluding) the current year, turns the fetched historical records into
 * samples, and aggregates the pooled samples into a prediction.
 *
 * The HTTP fetch and the clock are parameters: `fetch` stands for the single
 * batched weatherstack request of one trip day, `currentYear` for
 * `datetime.now().year`, and `stdev` for `statistics.stdev`.
 */
module WeatherPredictor {
  import opened Wrappers
  import opened Calendar
  import opened Statistics

  /** The first historical year the predictor analyses. */
  const StartYear: int := 2015

  /** The description reported when no sample has an hourly description. */
  const NoPrediction: string := "No prediction available"

  /**
   * The exceptions that leave `predict_trip_weather`:
   * InvalidDate is the ValueError of `replace(year=...)` (29 February in a
   * year that is not a leap year), DateOverflow the OverflowError of adding a
   * day to 9999-12-31, NoHistoricalData the exception raised for an empty pool.
   */
  datatype Error = InvalidDate | DateOverflow | NoHistoricalData

  /** One hourly entry; an absent `weather_descriptions` key reads as an empty list. */
  datatype Hour = Hour(weatherDescriptions: seq<string>)

  /** The record fetched for one date; an absent `hourly` key reads as an empty list. */
  datatype DayRecord = DayRecord(mintemp: real, maxtemp: real, avgtemp: real, uvIndex: real, hourly: seq<Hour>)

  /** The decoded response body; `historical` is None when the key is absent. */
  datatype Response = Response(historical: Option<map<Date, DayRecord>>)

  /** The outcome of one batched request: a non-200 status or transport error, or a body. */
  datatype FetchOutcome = FetchFailed | Fetched(response: Response)

  /** A training sample: the training-sample dictionary of `get_training_data`. */
  datatype Sample = Sample(date: Date, minTemp: real, maxTemp: real, avgTemp: real,
                           uvIndex: real, descriptions: seq<string>, year: int)

  datatype TemperaturePrediction = TemperaturePrediction(min: Option<real>, max: Option<real>)

  /** The dictionary `predict_trip_weather` returns (rounding left out). */
  datatype TripWeatherPrediction = TripWeatherPrediction(
    tripStart: Date, tripEnd: Date,
    predictedMinTemp: real, predictedMaxTemp: real, predictedUvIndex: real,
    predictedDescription: string, confidenceScore: real,
    yearsAnalyzed: seq<int>, daysAnalyzed: nat)

  // ---------------------------------------------------------------------------
  // Result plumbing
  // ---------------------------------------------------------------------------

  function PrependAll<T>(p: seq<T>, r: Result<seq<T>, Error>): Result<seq<T>, Error> {
    match r
    case Ok(s) => Ok(p + s)
    case Err(e) => Err(e)
  }

  lemma PrependAllAppend<T>(p: seq<T>, q: seq<T>, r: Result<seq<T>, Error>)
    ensures PrependAll([], r) == r
    ensures PrependAll(p, PrependAll(q, r)) == PrependAll(p + q, r)
  {
    if r.Ok? {
      assert [] + r.value == r.value;
      assert p + (q + r.value) == (p + q) + r.value;
    }
  }

  // ---------------------------------------------------------------------------
  // Trip-span expansion (generate_trip_dates)
  // ---------------------------------------------------------------------------

  /** The day-by-day walk from `start` while the day is not after `end`. */
  function TripDates(start: Date, end: Date): Result<seq<Date>, Error>
    requires Valid(start) && Valid(end)
    decreases DayNumber(end) - DayNumber(start)
  {
    if !LessEq(start, end) then Ok([])
    else
      match NextDay(start)
      case None => Err(DateOverflow)
      case Some(next) =>
        DayNumberOrder(start, end);
        PrependAll([start], TripDates(next, end))
  }

  method GenerateTripDates(start: Date, end: Date) returns (r: Result<seq<Date>, Error>)
    requires Valid(start) && Valid(end)
    ensures r == TripDates(start, end)
  {
    var dates := [];
    var current := start;
    PrependAllAppend(dates, dates, TripDates(start, end));
    while LessEq(current, end)
      invariant Valid(current)
      invariant TripDates(start, end) == PrependAll(dates, TripDates(current, end))
      decreases DayNumber(end) - DayNumber(current)
    {
      DayNumberOrder(current, end);
      var next := NextDay(current);
      if next.Some? {
        PrependAllAppend(dates, [current], TripDates(next.value, end));
      }
      assert TripDates(current, end) == PrependAll([current], if next.Some? then TripDates(next.value, end) else Err(DateOverflow));
      dates := dates + [current];
      if next.None? {
        return Err(DateOverflow);
      }
      current := next.value;
    }
    assert dates + [] == dates;
    r := Ok(dates);
  }

  /** The walk overflows exactly when it must step past 9999-12-31; otherwise it
      yields the consecutive days from start to end, and nothing when start > end. */
  lemma {:induction false} TripDatesSpec(start: Date, end: Date)
    requires Valid(start) && Valid(end)
    ensures TripDates(start, end).Err? <==> LessEq(start, end) && end == LastDate
    ensures TripDates(start, end).Err? ==> TripDates(start, end).error == DateOverflow
    ensures TripDates(start, end).Ok? ==>
      var ds := TripDates(start, end).value;
      && |ds| == (if DayNumber(start) <= DayNumber(end) then DayNumber(end) - DayNumber(start) + 1 else 0)
      && forall i :: 0 <= i < |ds| ==> Valid(ds[i]) && DayNumber(ds[i]) == DayNumber(start) + i
    decreases DayNumber(end) - DayNumber(start)
  {
    DayNumberOrder(start, end);
    if LessEq(start, end) {
      match NextDay(start)
      case None =>
        DayNumberOrder(end, LastDate);
      case Some(next) =>
        DayNumberOrder(next, end);
        DayNumberOrder(start, LastDate);
        DayNumberOrder(end, LastDate);
        TripDatesSpec(next, end);
    }
  }

  /** The trip days are strictly ascending, begin at start, end at end, and
      include every date in between. */
  lemma TripDatesOrdered(start: Date, end: Date)
    requires Valid(start) && Valid(end)
    requires TripDates(start, end).Ok?
    ensures var ds := TripDates(start, end).value;
      && (forall i, j :: 0 <= i < j < |ds| ==> Less(ds[i], ds[j]))
      && (ds != [] <==> LessEq(start, end))
      && (ds != [] ==> ds[0] == start && ds[|ds| - 1] == end)
      && (forall d :: Valid(d) && LessEq(start, d) && LessEq(d, end) ==> d in ds)
  {
    TripDatesSpec(start, end);
    var ds := TripDates(start, end).value;
    DayNumberOrder(start, end);
    ConsecutiveDaysAscend(ds, DayNumber(start));
    if ds != [] {
      DayNumberOrder(ds[0], start);
      DayNumberOrder(ds[|ds| - 1], end);
    }
    forall d | Valid(d) && LessEq(start, d) && LessEq(d, end) ensures d in ds {
      ConsecutiveDaysCover(ds, start, end, d);
    }
  }

  /** Dates with consecutive ordinals are strictly ascending. */
  lemma ConsecutiveDaysAscend(ds: seq<Date>, first: int)
    requires forall i :: 0 <= i < |ds| ==> Valid(ds[i]) && DayNumber(ds[i]) == first + i
    ensures forall i, j :: 0 <= i < j < |ds| ==> Less(ds[i], ds[j])
  {
    forall i, j | 0 <= i < j < |ds| ensures Less(ds[i], ds[j]) {
      DayNumberOrder(ds[i], ds[j]);
    }
  }

  /** The dates with the consecutive ordinals from start's to end's include
      every date between start and end. */
  lemma ConsecutiveDaysCover(ds: seq<Date>, start: Date, end: Date, d: Date)
    requires Valid(start) && Valid(end) && Valid(d) && LessEq(start, d) && LessEq(d, end)
    requires |ds| == DayNumber(end) - DayNumber(start) + 1
    requires forall i :: 0 <= i < |ds| ==> Valid(ds[i]) && DayNumber(ds[i]) == DayNumber(start) + i
    ensures d in ds
  {
    DayNumberOrder(start, d);
    DayNumberOrder(d, end);
    var i := DayNumber(d) - DayNumber(start);
    DayNumberOrder(ds[i], d);
  }

  // ---------------------------------------------------------------------------
  // Historical-year expansion (generate_historical_dates)
  // ---------------------------------------------------------------------------

  /** `target.replace(year=y)` for y = year .. currentYear-1, stopping at the first failure. */
  function HistoricalDatesFrom(target: Date, year: int, currentYear: int): Result<seq<Date>, Error>
    decreases currentYear - year
  {
    if year >= currentYear then Ok([])
    else
      match ReplaceYear(target, year)
      case None => Err(InvalidDate)
      case Some(d) => PrependAll([d], HistoricalDatesFrom(target, year + 1, currentYear))
  }

  function HistoricalDates(target: Date, currentYear: int): Result<seq<Date>, Error> {
    HistoricalDatesFrom(target, StartYear, currentYear)
  }

  method GenerateHistoricalDates(target: Date, currentYear: int) returns (r: Result<seq<Date>, Error>)
    ensures r == HistoricalDates(target, currentYear)
  {
    var dates := [];
    var year := StartYear;
    PrependAllAppend(dates, dates, HistoricalDates(target, currentYear));
    while year < currentYear
      invariant HistoricalDates(target, currentYear) == PrependAll(dates, HistoricalDatesFrom(target, year, currentYear))
      decreases currentYear - year
    {
      var historical := ReplaceYear(target, year);
      if historical.Some? {
        PrependAllAppend(dates, [historical.value], HistoricalDatesFrom(target, year + 1, currentYear));
      }
      if historical.None? {
        return Err(InvalidDate);
      }
      dates := dates + [historical.value];
      year := year + 1;
    }
    // `sorted(dates)` at the end of the source leaves this list as it is: see HistoricalDatesSpec.
    assert dates + [] == dates;
    r := Ok(dates);
  }

  /** One date per year in [year, currentYear), with the target's month and day,
      in ascending order; the expansion fails exactly when one of those years
      has no such date. */
  lemma {:induction false} HistoricalDatesFromSpec(target: Date, year: int, currentYear: int)
    ensures HistoricalDatesFrom(target, year, currentYear).Err? <==>
      exists y :: year <= y < currentYear && !Valid(Date(y, target.month, target.day))
    ensures HistoricalDatesFrom(target, year, currentYear).Err? ==>
      HistoricalDatesFrom(target, year, currentYear).error == InvalidDate
    ensures HistoricalDatesFrom(target, year, currentYear).Ok? ==>
      var ds := HistoricalDatesFrom(target, year, currentYear).value;
      && |ds| == (if year <= currentYear then currentYear - year else 0)
      && forall i :: 0 <= i < |ds| ==> ds[i] == Date(year + i, target.month, target.day) && Valid(ds[i])
    decreases currentYear - year
  {
    if year < currentYear {
      HistoricalDatesFromSpec(target, year + 1, currentYear);
      if Valid(Date(year, target.month, target.day)) {
        var r := HistoricalDatesFrom(target, year + 1, currentYear);
        if r.Ok? {
          var ds := [Date(year, target.month, target.day)] + r.value;
          forall i | 0 <= i < |ds| ensures ds[i] == Date(year + i, target.month, target.day) {
            if i > 0 {
              assert ds[i] == r.value[i - 1];
            }
          }
        }
      }
    }
  }

  lemma HistoricalDatesSpec(target: Date, currentYear: int)
    ensures HistoricalDates(target, currentYear).Err? <==>
      exists y :: StartYear <= y < currentYear && !Valid(Date(y, target.month, target.day))
    ensures HistoricalDates(target, currentYear).Err? ==> HistoricalDates(target, currentYear).error == InvalidDate
    ensures HistoricalDates(target, currentYear).Ok? ==>
      var ds := HistoricalDates(target, currentYear).value;
      && |ds| == (if StartYear <= currentYear then currentYear - StartYear else 0)
      && (forall i :: 0 <= i < |ds| ==> ds[i] == Date(StartYear + i, target.month, target.day) && Valid(ds[i]))
      && (forall i, j :: 0 <= i < j < |ds| ==> Less(ds[i], ds[j]))
  {
    HistoricalDatesFromSpec(target, StartYear, currentYear);
  }

  /** For a 29 February target the expansion fails at once, 2015 not being a
      leap year; every other valid target expands without failure as long as
      the years stay within `datetime`'s range. */
  lemma LeapDayExpansion(target: Date, currentYear: int)
    requires Valid(target)
    ensures target.month == 2 && target.day == 29 && currentYear > StartYear ==>
      HistoricalDates(target, currentYear) == Err(InvalidDate)
    ensures !(target.month == 2 && target.day == 29) && currentYear <= MaxYear + 1 ==>
      HistoricalDates(target, currentYear).Ok?
  {
    HistoricalDatesSpec(target, currentYear);
    if target.month == 2 && target.day == 29 && currentYear > StartYear {
      assert !Valid(Date(StartYear, 2, 29));
    }
  }

  // ---------------------------------------------------------------------------
  // Record shaping (get_training_data)
  // ---------------------------------------------------------------------------

  /** The first description of every hour whose description list is non-empty, in hour order. */
  function Descriptions(hours: seq<Hour>): seq<string> {
    if hours == [] then []
    else
      (if hours[0].weatherDescriptions != [] then [hours[0].weatherDescriptions[0]] else [])
      + Descriptions(hours[1..])
  }

  /** Descriptions works hour by hour: it distributes over concatenation. */
  lemma {:induction false} DescriptionsAppend(a: seq<Hour>, b: seq<Hour>)
    ensures Descriptions(a + b) == Descriptions(a) + Descriptions(b)
  {
    if a == [] {
      assert a + b == b;
    } else {
      assert (a + b)[1..] == a[1..] + b;
      DescriptionsAppend(a[1..], b);
    }
  }

  /** One hour contributes its first description, or nothing when it has none. */
  lemma DescriptionsOfHour(h: Hour)
    ensures Descriptions([h]) == if h.weatherDescriptions == [] then [] else [h.weatherDescriptions[0]]
  {
    assert [h][1..] == [];
  }

  /** Every collected description is the first description of some hour, and
      there is at most one per hour. */
  lemma {:induction false} DescriptionsSource(a: seq<Hour>)
    ensures |Descriptions(a)| <= |a|
    ensures forall k :: 0 <= k < |Descriptions(a)| ==>
      exists j :: 0 <= j < |a| && a[j].weatherDescriptions != [] && Descriptions(a)[k] == a[j].weatherDescriptions[0]
  {
    if a != [] {
      DescriptionsSource(a[1..]);
      var head := if a[0].weatherDescriptions != [] then [a[0].weatherDescriptions[0]] else [];
      var rest := Descriptions(a[1..]);
      assert Descriptions(a) == head + rest;
      forall k | 0 <= k < |Descriptions(a)|
        ensures exists j :: 0 <= j < |a| && a[j].weatherDescriptions != [] && Descriptions(a)[k] == a[j].weatherDescriptions[0]
      {
        if k < |head| {
          assert Descriptions(a)[k] == a[0].weatherDescriptions[0];
        } else {
          var j' :| 0 <= j' < |a[1..]| && a[1..][j'].weatherDescriptions != [] && rest[k - |head|] == a[1..][j'].weatherDescriptions[0];
          assert a[j' + 1] == a[1..][j'];
        }
      }
    }
  }

  /** The sample built for one fetched date; `year` is the date's year, which
      is what `int(date[:4])` reads back from a YYYY-MM-DD string. */
  function MakeSample(date: Date, rec: DayRecord): Sample {
    Sample(date, rec.mintemp, rec.maxtemp, rec.avgtemp, rec.uvIndex, Descriptions(rec.hourly), date.year)
  }

  function RecordFor(date: Date, historical: Option<map<Date, DayRecord>>): seq<Sample> {
    if historical.Some? && date in historical.value then [MakeSample(date, historical.value[date])] else []
  }

  /** The samples for the requested dates present under `historical`, in request order. */
  function ShapeRecords(dates: seq<Date>, historical: Option<map<Date, DayRecord>>): seq<Sample> {
    if dates == [] then []
    else ShapeRecords(dates[..|dates| - 1], historical) + RecordFor(dates[|dates| - 1], historical)
  }

  /** Exactly the requested dates present in the response yield a sample,
      each carrying that date's record; there are at most as many samples as
      requested dates. A repeated date yields one sample per occurrence; for
      strictly ascending dates `ShapeRecordsOrdered` gives distinct samples. */
  lemma {:induction false} ShapeRecordsSpec(dates: seq<Date>, historical: Option<map<Date, DayRecord>>)
    ensures var rs := ShapeRecords(dates, historical);
      && |rs| <= |dates|
      && (historical.None? ==> rs == [])
      && (forall k :: 0 <= k < |rs| ==>
            && rs[k].date in dates && historical.Some? && rs[k].date in historical.value
            && rs[k] == MakeSample(rs[k].date, historical.value[rs[k].date])
            && rs[k].year == rs[k].date.year)
      && (forall d :: d in dates && historical.Some? && d in historical.value ==>
            exists k :: 0 <= k < |rs| && rs[k].date == d)
  {
    ShapeRecordsSound(dates, historical);
    ShapeRecordsComplete(dates, historical);
  }

  lemma {:induction false} ShapeRecordsSound(dates: seq<Date>, historical: Option<map<Date, DayRecord>>)
    ensures var rs := ShapeRecords(dates, historical);
      && |rs| <= |dates|
      && (historical.None? ==> rs == [])
      && (forall k :: 0 <= k < |rs| ==>
            && rs[k].date in dates && historical.Some? && rs[k].date in historical.value
            && rs[k] == MakeSample(rs[k].date, historical.value[rs[k].date])
            && rs[k].year == rs[k].date.year)
  {
    if dates != [] {
      var init := dates[..|dates| - 1];
      ShapeRecordsSound(init, historical);
      var rs := ShapeRecords(dates, historical);
      var prev := ShapeRecords(init, historical);
      assert rs == prev + RecordFor(dates[|dates| - 1], historical);
      forall k | 0 <= k < |rs| ensures rs[k].date in dates {
        if k < |prev| {
          assert rs[k] == prev[k];
          assert prev[k].date in init;
        }
      }
    }
  }

  lemma {:induction false} ShapeRecordsComplete(dates: seq<Date>, historical: Option<map<Date, DayRecord>>)
    ensures forall d :: d in dates && historical.Some? && d in historical.value ==>
      exists k :: 0 <= k < |ShapeRecords(dates, historical)| && ShapeRecords(dates, historical)[k].date == d
  {
    if dates != [] {
      var init := dates[..|dates| - 1];
      ShapeRecordsComplete(init, historical);
      assert dates == init + [dates[|dates| - 1]];
      var rs := ShapeRecords(dates, historical);
      var prev := ShapeRecords(init, historical);
      assert rs == prev + RecordFor(dates[|dates| - 1], historical);
      forall d | d in dates && historical.Some? && d in historical.value
        ensures exists k :: 0 <= k < |rs| && rs[k].date == d
      {
        if d in init {
          var k :| 0 <= k < |prev| && prev[k].date == d;
          assert rs[k] == prev[k];
        } else {
          assert d == dates[|dates| - 1];
          assert RecordFor(d, historical) == [MakeSample(d, historical.value[d])];
          assert rs[|prev|].date == d;
        }
      }
      assert rs == ShapeRecords(dates, historical);
    }
  }

  /** Samples keep the order of the requested dates: ascending dates give
      strictly ascending sample dates. */
  lemma {:induction false} ShapeRecordsOrdered(dates: seq<Date>, historical: Option<map<Date, DayRecord>>)
    requires forall i, j :: 0 <= i < j < |dates| ==> Less(dates[i], dates[j])
    ensures var rs := ShapeRecords(dates, historical);
      forall i, j :: 0 <= i < j < |rs| ==> Less(rs[i].date, rs[j].date)
  {
    if dates != [] {
      var init := dates[..|dates| - 1];
      ShapeRecordsOrdered(init, historical);
      ShapeRecordsSpec(init, historical);
      var prev := ShapeRecords(init, historical);
      var rs := ShapeRecords(dates, historical);
      forall i, j | 0 <= i < j < |rs| ensures Less(rs[i].date, rs[j].date) {
        if j < |prev| {
          assert rs[i] == prev[i] && rs[j] == prev[j];
        } else {
          assert rs[i] == prev[i];
          assert rs[j].date == dates[|dates| - 1];
          var p :| 0 <= p < |init| && init[p] == prev[i].date;
          assert dates[p] == init[p];
        }
      }
    }
  }

  /** `get_training_data`: the historical dates (which may raise), one fetch, then the samples. */
  function TrainingData(location: string, target: Date, currentYear: int,
                        fetch: (string, seq<Date>) -> FetchOutcome): Result<seq<Sample>, Error>
  {
    match HistoricalDates(target, currentYear)
    case Err(e) => Err(e)
    case Ok(dates) =>
      match fetch(location, dates)
      case FetchFailed => Ok([])
      case Fetched(response) => Ok(ShapeRecords(dates, response.historical))
  }

  method GetTrainingData(location: string, target: Date, currentYear: int,
                         fetch: (string, seq<Date>) -> FetchOutcome)
    returns (r: Result<seq<Sample>, Error>)
    ensures r == TrainingData(location, target, currentYear, fetch)
  {
    var historicalDates := GenerateHistoricalDates(target, currentYear);
    if historicalDates.Err? {
      return Err(historicalDates.error);
    }
    var dates := historicalDates.value;
    var data := fetch(location, dates);
    if data.FetchFailed? {
      return Ok([]);
    }
    var historical := data.response.historical;
    var trainingData := [];
    for i := 0 to |dates|
      invariant trainingData == ShapeRecords(dates[..i], historical)
    {
      assert dates[..i + 1][..i] == dates[..i];
      var date := dates[i];
      if historical.Some? && date in historical.value {
        var rec := historical.value[date];
        trainingData := trainingData + [Sample(date, rec.mintemp, rec.maxtemp, rec.avgtemp,
                                               rec.uvIndex, Descriptions(rec.hourly), date.year)];
      }
    }
    assert dates[..|dates|] == dates;
    r := Ok(trainingData);
  }

  /** A fetch failure yields no samples; otherwise every sample belongs to one
      of the target's historical dates, so there are at most as many samples
      as years analysed, each in [StartYear, currentYear) with the target's
      month and day, in ascending date order. */
  lemma TrainingDataSpec(location: string, target: Date, currentYear: int,
                         fetch: (string, seq<Date>) -> FetchOutcome)
    requires TrainingData(location, target, currentYear, fetch).Ok?
    ensures var hd := HistoricalDates(target, currentYear);
      var samples := TrainingData(location, target, currentYear, fetch).value;
      && hd.Ok?
      && (fetch(location, hd.value).FetchFailed? ==> samples == [])
      && |samples| <= |hd.value|
      && (forall k :: 0 <= k < |samples| ==>
            && StartYear <= samples[k].year < currentYear
            && samples[k].year == samples[k].date.year
            && samples[k].date == Date(samples[k].year, target.month, target.day))
      && (forall i, j :: 0 <= i < j < |samples| ==> Less(samples[i].date, samples[j].date))
  {
    HistoricalDatesSpec(target, currentYear);
    var dates := HistoricalDates(target, currentYear).value;
    match fetch(location, dates)
    case FetchFailed =>
    case Fetched(response) =>
      ShapeRecordsSpec(dates, response.historical);
      ShapeRecordsOrdered(dates, response.historical);
      var samples := ShapeRecords(dates, response.historical);
      forall k | 0 <= k < |samples|
        ensures StartYear <= samples[k].year < currentYear
        ensures samples[k].date == Date(samples[k].year, target.month, target.day)
      {
        var i :| 0 <= i < |dates| && dates[i] == samples[k].date;
      }
  }

  // ---------------------------------------------------------------------------
  // Aggregation
  // ---------------------------------------------------------------------------

  function MinTemps(samples: seq<Sample>): (xs: seq<real>)
    ensures |xs| == |samples| && forall i :: 0 <= i < |xs| ==> xs[i] == samples[i].minTemp
  {
    seq(|samples|, i requires 0 <= i < |samples| => samples[i].minTemp)
  }

  function MaxTemps(samples: seq<Sample>): (xs: seq<real>)
    ensures |xs| == |samples| && forall i :: 0 <= i < |xs| ==> xs[i] == samples[i].maxTemp
  {
    seq(|samples|, i requires 0 <= i < |samples| => samples[i].maxTemp)
  }

  function AvgTemps(samples: seq<Sample>): (xs: seq<real>)
    ensures |xs| == |samples| && forall i :: 0 <= i < |xs| ==> xs[i] == samples[i].avgTemp
  {
    seq(|samples|, i requires 0 <= i < |samples| => samples[i].avgTemp)
  }

  function UvIndexes(samples: seq<Sample>): (xs: seq<real>)
    ensures |xs| == |samples| && forall i :: 0 <= i < |xs| ==> xs[i] == samples[i].uvIndex
  {
    seq(|samples|, i requires 0 <= i < |samples| => samples[i].uvIndex)
  }

  /** `_predict_temperatures`: no estimate without samples, else the means,
      each between the smallest and the largest sample value. */
  function PredictTemperatures(samples: seq<Sample>): (r: TemperaturePrediction)
    ensures r.min.None? <==> samples == []
    ensures r.max.None? <==> samples == []
    ensures samples != [] ==>
      && r.min.value * (|samples| as real) == Sum(MinTemps(samples))
      && r.max.value * (|samples| as real) == Sum(MaxTemps(samples))
  {
    if samples == [] then TemperaturePrediction(None, None)
    else TemperaturePrediction(Some(Mean(MinTemps(samples))), Some(Mean(MaxTemps(samples))))
  }

  /** Each estimate lies between the smallest and the largest sample value. */
  lemma PredictTemperaturesBounds(samples: seq<Sample>)
    requires samples != []
    ensures var r := PredictTemperatures(samples);
      && Min(MinTemps(samples)) <= r.min.value <= Max(MinTemps(samples))
      && Min(MaxTemps(samples)) <= r.max.value <= Max(MaxTemps(samples))
  {
    MeanBounds(MinTemps(samples));
    MeanBounds(MaxTemps(samples));
  }

  /** `_predict_uv_index`: no estimate without samples, else the mean UV index. */
  function PredictUvIndex(samples: seq<Sample>): (r: Option<real>)
    ensures r.None? <==> samples == []
    ensures samples != [] ==> r.value * (|samples| as real) == Sum(UvIndexes(samples))
  {
    if samples == [] then None else Some(Mean(UvIndexes(samples)))
  }

  /** The UV estimate lies between the smallest and the largest sample value. */
  lemma PredictUvIndexBounds(samples: seq<Sample>)
    requires samples != []
    ensures Min(UvIndexes(samples)) <= PredictUvIndex(samples).value <= Max(UvIndexes(samples))
  {
    MeanBounds(UvIndexes(samples));
  }

  /** All descriptions of all samples, sample by sample. */
  function Flatten(samples: seq<Sample>): seq<string> {
    if samples == [] then [] else Flatten(samples[..|samples| - 1]) + samples[|samples| - 1].descriptions
  }

  lemma {:induction false} FlattenMember(samples: seq<Sample>, d: string)
    requires d in Flatten(samples)
    ensures exists i :: 0 <= i < |samples| && d in samples[i].descriptions
  {
    var init := samples[..|samples| - 1];
    if d in Flatten(init) {
      FlattenMember(init, d);
      var i :| 0 <= i < |init| && d in init[i].descriptions;
      assert samples[i] == init[i];
    }
  }

  function Count(xs: seq<string>, x: string): nat {
    multiset(xs)[x]
  }

  /**
   * `Counter(xs).most_common(1)[0][0]`: a value of maximal count whose first
   * occurrence is earliest. Counter keeps first-occurrence order and
   * `most_common(1)` returns the first maximal entry, so xs[k] is the value at
   * the first position of xs holding a value of maximal count.
   */
  ghost predicate IsMostCommon(xs: seq<string>, d: string) {
    exists k :: 0 <= k < |xs| && xs[k] == d
      && (forall j :: 0 <= j < |xs| ==> Count(xs, xs[j]) <= Count(xs, d))
      && (forall j :: 0 <= j < k ==> Count(xs, xs[j]) < Count(xs, d))
  }

  /** The scan of `max` over the counted items, from position i with the best so far at `best`. */
  function ModalIndex(xs: seq<string>, i: nat, best: nat): (k: nat)
    requires best < i <= |xs|
    requires forall j :: 0 <= j < i ==> Count(xs, xs[j]) <= Count(xs, xs[best])
    requires forall j :: 0 <= j < best ==> Count(xs, xs[j]) < Count(xs, xs[best])
    ensures k < |xs|
    ensures forall j :: 0 <= j < |xs| ==> Count(xs, xs[j]) <= Count(xs, xs[k])
    ensures forall j :: 0 <= j < k ==> Count(xs, xs[j]) < Count(xs, xs[k])
    decreases |xs| - i
  {
    if i == |xs| then best
    else if Count(xs, xs[i]) > Count(xs, xs[best]) then ModalIndex(xs, i + 1, i)
    else ModalIndex(xs, i + 1, best)
  }

  function MostCommon(xs: seq<string>): (d: string)
    requires xs != []
    ensures IsMostCommon(xs, d)
  {
    xs[ModalIndex(xs, 1, 0)]
  }

  /** The tie-break pins the modal value down: there is only one. */
  lemma MostCommonUnique(xs: seq<string>, a: string, b: string)
    requires IsMostCommon(xs, a) && IsMostCommon(xs, b)
    ensures a == b
  {
    var ka :| 0 <= ka < |xs| && xs[ka] == a
      && (forall j :: 0 <= j < |xs| ==> Count(xs, xs[j]) <= Count(xs, a))
      && (forall j :: 0 <= j < ka ==> Count(xs, xs[j]) < Count(xs, a));
    var kb :| 0 <= kb < |xs| && xs[kb] == b
      && (forall j :: 0 <= j < |xs| ==> Count(xs, xs[j]) <= Count(xs, b))
      && (forall j :: 0 <= j < kb ==> Count(xs, xs[j]) < Count(xs, b));
    assert Count(xs, a) == Count(xs, b);
  }

  /** `_predict_description`: the sentinel when no sample has a description,
      else the most common description, which some sample reported. */
  method PredictDescription(samples: seq<Sample>) returns (d: string)
    ensures Flatten(samples) == [] ==> d == NoPrediction
    ensures Flatten(samples) != [] ==>
      IsMostCommon(Flatten(samples), d) && exists i :: 0 <= i < |samples| && d in samples[i].descriptions
  {
    var allDescriptions := [];
    for i := 0 to |samples|
      invariant allDescriptions == Flatten(samples[..i])
    {
      assert samples[..i + 1][..i] == samples[..i];
      allDescriptions := allDescriptions + samples[i].descriptions;
    }
    assert samples[..|samples|] == samples;
    if allDescriptions == [] {
      return NoPrediction;
    }
    d := MostCommon(allDescriptions);
    FlattenMember(samples, d);
  }

  /** The damping factor 1 / (1 + sigma/10): in (0, 1], and 1 exactly when sigma is 0. */
  function Damping(sigma: real): (c: real)
    requires sigma >= 0.0
    ensures 0.0 < c <= 1.0
    ensures c == 1.0 <==> sigma == 0.0
  {
    1.0 / (1.0 + sigma / 10.0)
  }

  lemma MulCancel(a: real, b: real, c: real)
    requires c > 0.0 && a * c > b * c
    ensures a > b
  {
  }

  lemma MulStrict(a: real, b: real, c: real)
    requires a > 0.0 && b < c
    ensures a * b < a * c
  {
  }

  lemma Reciprocal(d: real)
    requires d > 0.0
    ensures (1.0 / d) * d == 1.0
  {
  }

  /** A larger spread of the average temperatures gives strictly less confidence. */
  lemma DampingStrictlyDecreasing(s1: real, s2: real)
    requires 0.0 <= s1 < s2
    ensures Damping(s2) < Damping(s1)
  {
    var d1, d2 := 1.0 + s1 / 10.0, 1.0 + s2 / 10.0;
    assert 0.0 < d1 < d2;
    var c1, c2 := Damping(s1), Damping(s2);
    assert c1 == 1.0 / d1 && c2 == 1.0 / d2;
    Reciprocal(d1);
    Reciprocal(d2);
    assert c1 * d1 == 1.0 && c2 * d2 == 1.0;
    MulStrict(c1, d1, d2);
    assert c1 * d2 > c2 * d2;
    MulCancel(c1, c2, d2);
  }

  /** The standard deviations the injected `stdev` may return, on the two or
      more values it is called on: never negative, and 0 when the sample
      variance, whose square root `statistics.stdev` is, is 0. */
  ghost predicate IsSpread(stdev: seq<real> -> real) {
    forall xs :: |xs| >= 2 ==> stdev(xs) >= 0.0 && (SampleVariance(xs) == 0.0 ==> stdev(xs) == 0.0)
  }

  /** `_calculate_confidence`: 0 for no samples, 1 for one sample (whose spread
      is taken as 0), otherwise the damping factor of the spread of the
      average temperatures. */
  function Confidence(samples: seq<Sample>, stdev: seq<real> -> real): (c: real)
    requires IsSpread(stdev)
    ensures samples == [] ==> c == 0.0
    ensures |samples| == 1 ==> c == 1.0
    ensures |samples| >= 2 ==> 0.0 < c <= 1.0 && (c == 1.0 <==> stdev(AvgTemps(samples)) == 0.0)
  {
    if samples == [] then 0.0
    else
      var variation := if |samples| > 1 then stdev(AvgTemps(samples)) else 0.0;
      Damping(variation)
  }

  /** With the same number of samples, a larger spread gives strictly less confidence. */
  lemma ConfidenceDecreasesWithSpread(a: seq<Sample>, b: seq<Sample>, stdev: seq<real> -> real)
    requires IsSpread(stdev)
    requires |a| == |b| >= 2
    requires stdev(AvgTemps(a)) < stdev(AvgTemps(b))
    ensures Confidence(b, stdev) < Confidence(a, stdev)
  {
    DampingStrictlyDecreasing(stdev(AvgTemps(a)), stdev(AvgTemps(b)));
  }

  /** Identical average temperatures have sample variance 0, so their
      standard deviation is 0 and the confidence is 1. */
  lemma ConstantTemperaturesGiveFullConfidence(samples: seq<Sample>, stdev: seq<real> -> real)
    requires IsSpread(stdev)
    requires |samples| >= 2
    requires forall i :: 0 <= i < |samples| ==> samples[i].avgTemp == samples[0].avgTemp
    ensures SampleVariance(AvgTemps(samples)) == 0.0
    ensures Confidence(samples, stdev) == 1.0
  {
    var xs := AvgTemps(samples);
    ConstantHasZeroVariance(xs);
  }

  // ---------------------------------------------------------------------------
  // years_analyzed: sorted(set(...))
  // ---------------------------------------------------------------------------

  predicate StrictlyIncreasing(s: seq<int>) {
    forall i, j :: 0 <= i < j < |s| ==> s[i] < s[j]
  }

  function InsertSorted(s: seq<int>, x: int): (r: seq<int>)
    requires StrictlyIncreasing(s)
    ensures StrictlyIncreasing(r)
    ensures forall y :: y in r <==> y in s || y == x
  {
    if s == [] then [x]
    else if x < s[0] then
      assert forall k :: 0 <= k < |s| ==> x < s[k];
      [x] + s
    else if x == s[0] then s
    else
      var tail := s[1..];
      assert StrictlyIncreasing(tail) by {
        assert forall k :: 0 <= k < |tail| ==> tail[k] == s[k + 1];
      }
      assert forall k :: 0 <= k < |tail| ==> s[0] < tail[k];
      var rest := InsertSorted(tail, x);
      assert forall k :: 0 <= k < |rest| ==> s[0] < rest[k] by {
        assert forall k :: 0 <= k < |rest| ==> rest[k] in tail || rest[k] == x;
      }
      assert s == [s[0]] + tail;
      [s[0]] + rest
  }

  /** `sorted(set(xs))`: the distinct values of xs in ascending order. */
  function SortedDistinct(xs: seq<int>): (r: seq<int>)
    ensures StrictlyIncreasing(r)
    ensures forall y :: y in r <==> y in xs
  {
    if xs == [] then []
    else InsertSorted(SortedDistinct(xs[..|xs| - 1]), xs[|xs| - 1])
  }

  /** A strictly increasing sequence is determined by its values, so the
      contract of SortedDistinct fixes its result. */
  lemma {:induction false} StrictlyIncreasingUnique(a: seq<int>, b: seq<int>)
    requires StrictlyIncreasing(a) && StrictlyIncreasing(b)
    requires forall y :: y in a <==> y in b
    ensures a == b
  {
    if a != [] || b != [] {
      assert a != [] && b != [] by {
        assert a != [] ==> a[0] in a;
        assert b != [] ==> b[0] in b;
      }
      assert a[0] == b[0] by {
        assert a[0] in a && b[0] in b;
        var i :| 0 <= i < |b| && b[i] == a[0];
        var j :| 0 <= j < |a| && a[j] == b[0];
        assert b[0] <= b[i] && a[0] <= a[j];
      }
      assert forall y :: y in a[1..] <==> y in b[1..] by {
        forall y ensures y in a[1..] <==> y in b[1..] {
          if y in a[1..] {
            assert y in b && y != b[0];
          }
          if y in b[1..] {
            assert y in a && y != a[0];
          }
        }
      }
      StrictlyIncreasingUnique(a[1..], b[1..]);
    }
  }

  function Years(samples: seq<Sample>): (ys: seq<int>)
    ensures |ys| == |samples| && forall i :: 0 <= i < |ys| ==> ys[i] == samples[i].year
  {
    seq(|samples|, i requires 0 <= i < |samples| => samples[i].year)
  }

  // ---------------------------------------------------------------------------
  // Facade (predict_trip_weather)
  // ---------------------------------------------------------------------------

  /** The trip's days: `[start_date]` without an end date, else the walk. */
  function TripSpan(start: Date, end: Option<Date>): Result<seq<Date>, Error>
    requires Valid(start) && (end.Some? ==> Valid(end.value))
  {
    if end.None? then Ok([start]) else TripDates(start, end.value)
  }

  /** The pooled samples of the first |days| trip days, in trip-day order; the
      first day whose expansion raises aborts the pool. */
  function Pool(location: string, days: seq<Date>, currentYear: int,
                fetch: (string, seq<Date>) -> FetchOutcome): Result<seq<Sample>, Error>
  {
    if days == [] then Ok([])
    else
      match Pool(location, days[..|days| - 1], currentYear, fetch)
      case Err(e) => Err(e)
      case Ok(pool) =>
        match TrainingData(location, days[|days| - 1], currentYear, fetch)
        case Err(e) => Err(e)
        case Ok(samples) => Ok(pool + samples)
  }

  lemma {:induction false} PoolErrorPersists(location: string, days: seq<Date>, i: nat, currentYear: int,
                                            fetch: (string, seq<Date>) -> FetchOutcome)
    requires i <= |days|
    requires Pool(location, days[..i], currentYear, fetch).Err?
    ensures Pool(location, days, currentYear, fetch) == Pool(location, days[..i], currentYear, fetch)
    decreases |days| - i
  {
    if i < |days| {
      assert days[..i + 1][..i] == days[..i];
      PoolErrorPersists(location, days, i + 1, currentYear, fetch);
    } else {
      assert days[..i] == days;
    }
  }

  /** The loop of `predict_trip_weather` over the trip days: each day's
      training data is appended, and the first expansion error is raised. */
  method PoolTrainingData(location: string, tripDates: seq<Date>, currentYear: int,
                          fetch: (string, seq<Date>) -> FetchOutcome) returns (r: Result<seq<Sample>, Error>)
    requires forall i :: 0 <= i < |tripDates| ==> Valid(tripDates[i])
    ensures r == Pool(location, tripDates, currentYear, fetch)
  {
    var allTrainingData := [];
    for i := 0 to |tripDates|
      invariant Pool(location, tripDates[..i], currentYear, fetch) == Ok(allTrainingData)
    {
      assert tripDates[..i + 1][..i] == tripDates[..i];
      var trainingData := GetTrainingData(location, tripDates[i], currentYear, fetch);
      if trainingData.Err? {
        PoolErrorPersists(location, tripDates, i + 1, currentYear, fetch);
        return Err(trainingData.error);
      }
      allTrainingData := allTrainingData + trainingData.value;
    }
    assert tripDates[..|tripDates|] == tripDates;
    return Ok(allTrainingData);
  }

  /** Everything the prediction reports about a non-empty pool. */
  ghost predicate Reports(p: TripWeatherPrediction, start: Date, end: Option<Date>, days: seq<Date>,
                          pool: seq<Sample>, stdev: seq<real> -> real)
    requires pool != [] && IsSpread(stdev)
  {
    && p.tripStart == start
    && p.tripEnd == (if end.Some? then end.value else start)
    && p.predictedMinTemp == Mean(MinTemps(pool))
    && p.predictedMaxTemp == Mean(MaxTemps(pool))
    && p.predictedUvIndex == Mean(UvIndexes(pool))
    && (Flatten(pool) == [] ==> p.predictedDescription == NoPrediction)
    && (Flatten(pool) != [] ==> IsMostCommon(Flatten(pool), p.predictedDescription))
    && p.confidenceScore == Confidence(pool, stdev)
    && p.yearsAnalyzed == SortedDistinct(Years(pool))
    && p.daysAnalyzed == |days|
  }

  /** `predict_trip_weather`. The exceptions of the date expansions propagate;
      an empty pool raises NoHistoricalData; otherwise the prediction reports
      the pooled samples and the number of trip days, whether or not a day
      yielded data. */
  method PredictTripWeather(location: string, start: Date, end: Option<Date>, currentYear: int,
                            fetch: (string, seq<Date>) -> FetchOutcome, stdev: seq<real> -> real)
    returns (r: Result<TripWeatherPrediction, Error>)
    requires Valid(start) && (end.Some? ==> Valid(end.value))
    requires IsSpread(stdev)
    ensures TripSpan(start, end).Err? ==> r == Err(TripSpan(start, end).error)
    ensures TripSpan(start, end).Ok? ==>
      var days := TripSpan(start, end).value;
      match Pool(location, days, currentYear, fetch)
      case Err(e) => r == Err(e)
      case Ok(pool) =>
        if pool == [] then r == Err(NoHistoricalData)
        else r.Ok? && Reports(r.value, start, end, days, pool, stdev)
  {
    var tripDates: seq<Date>;
    if end.None? {
      tripDates := [start];
    } else {
      var span := GenerateTripDates(start, end.value);
      if span.Err? {
        return Err(span.error);
      }
      tripDates := span.value;
      TripDatesSpec(start, end.value);
    }
    assert forall i :: 0 <= i < |tripDates| ==> Valid(tripDates[i]);
    var pooled := PoolTrainingData(location, tripDates, currentYear, fetch);
    if pooled.Err? {
      return Err(pooled.error);
    }
    var allTrainingData := pooled.value;
    if allTrainingData == [] {
      return Err(NoHistoricalData);
    }
    var tempPredictions := PredictTemperatures(allTrainingData);
    var uvPrediction := PredictUvIndex(allTrainingData);
    var weatherDescription := PredictDescription(allTrainingData);
    r := Ok(TripWeatherPrediction(
      start,
      if end.Some? then end.value else start,
      tempPredictions.min.value,
      tempPredictions.max.value,
      uvPrediction.value,
      weatherDescription,
      Confidence(allTrainingData, stdev),
      SortedDistinct(Years(allTrainingData)),
      |tripDates|));
  }

  // ---------------------------------------------------------------------------
  // Properties of the facade's specification
  // ---------------------------------------------------------------------------

  /** Without an end date the trip is the start day alone; with an end date
      before the start it has no days, so the prediction fails for lack of data. */
  lemma TripSpanSpec(start: Date, end: Option<Date>)
    requires Valid(start) && (end.Some? ==> Valid(end.value))
    ensures end.None? ==> TripSpan(start, end) == Ok([start])
    ensures end.Some? && Less(end.value, start) ==> TripSpan(start, end) == Ok([])
    ensures end.Some? && end.value == start && start != LastDate ==> TripSpan(start, end) == Ok([start])
  {
    if end.Some? && end.value == start && start != LastDate {
      TripDatesSpec(start, start);
      var ds := TripDates(start, start).value;
      assert ds[0] == start by {
        DayNumberOrder(ds[0], start);
      }
      assert ds == [start];
    }
  }

  /** The errors the pool can raise come from the historical expansion. */
  lemma {:induction false} PoolError(location: string, days: seq<Date>, currentYear: int,
                                     fetch: (string, seq<Date>) -> FetchOutcome)
    ensures Pool(location, days, currentYear, fetch).Err? ==>
      Pool(location, days, currentYear, fetch).error == InvalidDate
  {
    if days != [] {
      PoolError(location, days[..|days| - 1], currentYear, fetch);
      HistoricalDatesSpec(days[|days| - 1], currentYear);
    }
  }

  /** A 29 February anywhere in the trip makes the whole prediction raise,
      once 2015 is among the years analysed: the ValueError is not caught. */
  lemma {:induction false} LeapDayAbortsPool(location: string, days: seq<Date>, currentYear: int,
                                             fetch: (string, seq<Date>) -> FetchOutcome, k: nat)
    requires k < |days| && Valid(days[k]) && days[k].month == 2 && days[k].day == 29
    requires currentYear > StartYear
    ensures Pool(location, days, currentYear, fetch) == Err(InvalidDate)
  {
    var init := days[..|days| - 1];
    PoolError(location, init, currentYear, fetch);
    if k < |init| {
      assert init[k] == days[k];
      LeapDayAbortsPool(location, init, currentYear, fetch, k);
    } else {
      LeapDayExpansion(days[k], currentYear);
    }
  }

  /** One trip day yields at most one sample per historical year. */
  lemma TrainingDataCount(location: string, target: Date, currentYear: int,
                          fetch: (string, seq<Date>) -> FetchOutcome, years: nat)
    requires years == if StartYear <= currentYear then currentYear - StartYear else 0
    requires TrainingData(location, target, currentYear, fetch).Ok?
    ensures |TrainingData(location, target, currentYear, fetch).value| <= years
  {
    TrainingDataSpec(location, target, currentYear, fetch);
    HistoricalDatesSpec(target, currentYear);
  }

  lemma MulStep(n: nat, y: nat)
    ensures (n + 1) * y == n * y + y
  {
  }

  /** The pool holds at most one sample per trip day and historical year. */
  lemma {:induction false} PoolSize(location: string, days: seq<Date>, currentYear: int,
                                    fetch: (string, seq<Date>) -> FetchOutcome, years: nat)
    requires years == if StartYear <= currentYear then currentYear - StartYear else 0
    requires Pool(location, days, currentYear, fetch).Ok?
    ensures |Pool(location, days, currentYear, fetch).value| <= |days| * years
  {
    if days != [] {
      var init := days[..|days| - 1];
      PoolSize(location, init, currentYear, fetch, years);
      TrainingDataCount(location, days[|days| - 1], currentYear, fetch, years);
      MulStep(|init|, years);
    }
  }

  /** Every pooled sample comes from a year in [StartYear, currentYear) and
      falls on some trip day's month and day. */
  lemma {:induction false} PoolSamples(location: string, days: seq<Date>, currentYear: int,
                                       fetch: (string, seq<Date>) -> FetchOutcome)
    requires Pool(location, days, currentYear, fetch).Ok?
    ensures var pool := Pool(location, days, currentYear, fetch).value;
      forall k :: 0 <= k < |pool| ==>
        && StartYear <= pool[k].year < currentYear
        && exists i :: 0 <= i < |days| && pool[k].date == Date(pool[k].year, days[i].month, days[i].day)
  {
    if days != [] {
      var init := days[..|days| - 1];
      var last := days[|days| - 1];
      PoolSamples(location, init, currentYear, fetch);
      TrainingDataSpec(location, last, currentYear, fetch);
      var prev := Pool(location, init, currentYear, fetch).value;
      var more := TrainingData(location, last, currentYear, fetch).value;
      var pool := prev + more;
      forall k | 0 <= k < |pool|
        ensures StartYear <= pool[k].year < currentYear
        ensures exists i :: 0 <= i < |days| && pool[k].date == Date(pool[k].year, days[i].month, days[i].day)
      {
        if k < |prev| {
          assert pool[k] == prev[k];
          var i :| 0 <= i < |init| && prev[k].date == Date(prev[k].year, init[i].month, init[i].day);
          assert days[i] == init[i];
        } else {
          assert pool[k] == more[k - |prev|];
          assert pool[k].date == Date(pool[k].year, days[|days| - 1].month, days[|days| - 1].day);
        }
      }
    }
  }
}
