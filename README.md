# Trip weather prediction and packing recommendations, modelled in Dafny

This project models the two computational parts of a travel-planning backend.

- **The historical-weather trip predictor** (`WeatherPredictor`, with
  `Calendar` and `Statistics`).
  - It expands a trip into its days (an inclusive day-by-day walk).
  - It expands each day into the same month and day of every year from 2015 up
    to, but not including, the current year.
  - It makes one batched fetch per trip day and turns the records found under
    `historical` into samples.
  - It pools the samples of all trip days, in trip order, and predicts from them:
    - mean minimum and maximum temperature and mean UV index;
    - the most common hourly description, the first one met among ties, with a
      sentinel when there are none;
    - a confidence damping factor `1 / (1 + σ/10)`;
    - the sorted distinct years analysed and the number of trip days.
- **The packing-recommendation statistics** (`PackingRecommender`, with `Text`
  and `Json`).
  - It builds the `LIKE` pattern from a weather description.
  - It reads the normalised item names out of a decoded packing-list document.
  - It merges the names per trip id.
  - It counts on how many similar trips each item was packed.
  - It recommends the items the user lacks that were packed on at least two
    trips: sorted by share, highest first, and cut to 30.
  - It places each recommendation in the first keyword category matching its
    lower-cased name, or in "Other", and drops empty buckets.

The source's loops are Dafny methods with loop invariants.

- These methods are proved equal to a specification function, and lemmas
  state what that function guarantees: `GenerateTripDates`,
  `GenerateHistoricalDates`, `GetTrainingData`, `PoolTrainingData`,
  `ExtractItems`, `MergePackingLists`, `CountTrips`, `FindCategory` and
  `Categorize`.
- `PredictDescription` is proved to return the sentinel or a most common
  description in the sense of the predicate `IsMostCommon`.
- `PredictTripWeather` is proved to give the errors of the expansions and,
  for a non-empty pool, a result satisfying the predicate `Reports`, which
  fixes every field.
- `CollectRecommendations` is proved to return exactly the qualifying items,
  each once, with their counts.

A Python set is iterated in an unspecified order. The model chooses the next
element with `:|`, so every proof holds whatever order the runtime picks. The
injected parts are function parameters:

- the weatherstack HTTP request of one trip day is `fetch`;
- `datetime.now().year` is `currentYear`;
- `statistics.stdev` is `stdev`. The model assumes two things of it on two or
  more values: it is never negative, and it is 0 when the sample variance is 0.

A trip day on 29 February makes the whole prediction raise whenever the
current year is after 2015. `get_training_data` calls `generate_historical_dates` (line 55) before its
`try` (line 57). There, `replace(year=...)` (line 34) raises `ValueError` for
2015, which is not a leap year. The model follows this: `HistoricalDates`
fails with `InvalidDate`, and `LeapDayAbortsPool` shows that the failure
reaches `PredictTripWeather`.

## Model

| member | source | states |
|---|---|---|
| `Calendar.NextDay` | app/services/weather_predictor.py:23 | Adding one day fails exactly at 9999-12-31 (Python's OverflowError); otherwise it gives a valid date whose ordinal is one more. |
| `Calendar.ReplaceYear` | app/services/weather_predictor.py:34 | For a valid date, `replace(year=y)` fails exactly when y is outside 1..9999, or when the date is 29 February and y is not a leap year. Otherwise it gives the date with year y and the same month and day. |
| `Calendar.DayNumberOrder` | app/services/weather_predictor.py:21 | `datetime` comparison, which compares year, then month, then day, agrees with comparing day ordinals; equal ordinals mean equal dates. |
| `WeatherPredictor.GenerateTripDates` | app/services/weather_predictor.py:14-25 | The while loop returns exactly the day walk `TripDates`, including its overflow error. |
| `WeatherPredictor.TripDatesSpec` | app/services/weather_predictor.py:14-25 | The walk fails exactly when start <= end and end is 9999-12-31. Otherwise it has (end - start) + 1 days, or none when start > end, and day i has ordinal start + i. |
| `WeatherPredictor.TripDatesOrdered` | app/services/weather_predictor.py:14-25 | The trip days are strictly ascending. They are non-empty exactly when start <= end, they begin at start and end at end, and every date in between occurs. |
| `WeatherPredictor.ConsecutiveDaysCover` | app/services/weather_predictor.py:21-23 | A run of dates with consecutive ordinals from start to end contains every date between them. |
| `WeatherPredictor.GenerateHistoricalDates` | app/services/weather_predictor.py:27-37 | The for loop returns exactly `HistoricalDates`, which fails with the first `replace` failure. |
| `WeatherPredictor.HistoricalDatesSpec` | app/services/weather_predictor.py:27-37 | The expansion fails exactly when some year in [2015, currentYear) lacks the target's month and day. Otherwise it gives one date per year, with the target's month and day, strictly ascending, so `sorted` leaves it unchanged. |
| `WeatherPredictor.HistoricalDatesFromSpec` | app/services/weather_predictor.py:33-35 | Starting the same expansion from any year gives the same result: failure exactly at a missing date, else one date per remaining year. |
| `WeatherPredictor.LeapDayExpansion` | app/services/weather_predictor.py:33-34 | A 29 February target fails at once, because 2015 is not a leap year. Any other valid target expands without failure while the years stay within 9999. |
| `WeatherPredictor.DescriptionsSource` | app/services/weather_predictor.py:69-73 | Each collected description is the first description of some hour that has one, and there is at most one per hour. |
| `WeatherPredictor.DescriptionsAppend` | app/services/weather_predictor.py:69-73 | Descriptions are collected hour by hour, in hour order: collecting from concatenated hours concatenates the results. |
| `WeatherPredictor.DescriptionsOfHour` | app/services/weather_predictor.py:70-72 | One hour contributes its first description, or nothing when its list is empty or missing. |
| `WeatherPredictor.ShapeRecordsSpec` | app/services/weather_predictor.py:63-85 | There are at most as many samples as requested dates, and none when the response has no `historical` key. Each sample is the record of a requested date present in the response, with `year` equal to the date's year. Every requested date present in the response yields a sample. |
| `WeatherPredictor.ShapeRecordsSound` | app/services/weather_predictor.py:64-83 | Every sample comes from a requested date that the response holds, and it carries that date's record. |
| `WeatherPredictor.ShapeRecordsComplete` | app/services/weather_predictor.py:64-83 | Every requested date that the response holds yields a sample. |
| `WeatherPredictor.ShapeRecordsOrdered` | app/services/weather_predictor.py:64-83 | Samples follow the order of the requested dates: ascending dates give strictly ascending sample dates. |
| `WeatherPredictor.GetTrainingData` | app/services/weather_predictor.py:53-85 | The method returns exactly `TrainingData`. It raises the expansion error, gives no samples when the fetch fails, and otherwise shapes the response. |
| `WeatherPredictor.TrainingDataSpec` | app/services/weather_predictor.py:55-85 | A failed fetch gives []. Otherwise there are at most as many samples as historical dates, each from a year in [2015, currentYear) with the target's month and day, in ascending date order. |
| `WeatherPredictor.PredictTemperatures` | app/services/weather_predictor.py:87-98 | There is no estimate exactly when there are no samples. Otherwise each estimate times the number of samples equals the sum of that field. |
| `WeatherPredictor.PredictTemperaturesBounds` | app/services/weather_predictor.py:92-97 | Both temperature means lie between the smallest and the largest sample value. |
| `WeatherPredictor.PredictUvIndex` | app/services/weather_predictor.py:100-106 | There is no UV estimate exactly when there are no samples. Otherwise the estimate times the number of samples is the sum of the UV indexes. |
| `WeatherPredictor.PredictUvIndexBounds` | app/services/weather_predictor.py:105-106 | The UV mean lies between the smallest and the largest sample value. |
| `Statistics.MeanBounds` | app/services/weather_predictor.py:96-97 | `mean` of a non-empty list lies between its minimum and maximum. |
| `Statistics.MeanBetween` | app/services/weather_predictor.py:96-97 | `mean` of values that are all between lo and hi is itself between lo and hi. |
| `WeatherPredictor.FlattenMember` | app/services/weather_predictor.py:110-112 | Every description in the flattened list belongs to some sample. |
| `WeatherPredictor.MostCommon` | app/services/weather_predictor.py:117-118 | `Counter(...).most_common(1)[0][0]` gives a value with maximal count; every value occurring before its first occurrence has a strictly smaller count. |
| `WeatherPredictor.MostCommonUnique` | app/services/weather_predictor.py:117-118 | The first-occurrence tie-break fixes a single most common value. |
| `WeatherPredictor.PredictDescription` | app/services/weather_predictor.py:108-118 | The result is the sentinel "No prediction available" when there is no description. Otherwise it is the most common description, which some sample reported. A sample may itself report the sentinel text, so the sentinel does not imply that there was no description. |
| `WeatherPredictor.Damping` | app/services/weather_predictor.py:126 | `1 / (1 + σ/10)` lies in (0, 1] for σ >= 0, and equals 1 exactly when σ is 0. |
| `WeatherPredictor.DampingStrictlyDecreasing` | app/services/weather_predictor.py:126 | A larger σ gives a strictly smaller damping factor. |
| `WeatherPredictor.Confidence` | app/services/weather_predictor.py:120-128 | The confidence is 0 without samples and 1 with one sample. With two or more it lies in (0, 1] and is 1 exactly when the spread is 0. |
| `WeatherPredictor.ConfidenceDecreasesWithSpread` | app/services/weather_predictor.py:125-126 | For the same number of samples, a larger spread of average temperatures gives strictly lower confidence. |
| `WeatherPredictor.ConstantTemperaturesGiveFullConfidence` | app/services/weather_predictor.py:125-126 | Identical average temperatures, two or more, have sample variance 0, so their standard deviation is 0 and the confidence is 1. |
| `Statistics.ConstantHasZeroVariance` | app/services/weather_predictor.py:125 | Identical values have sample variance 0, the square of `stdev`. |
| `WeatherPredictor.InsertSorted` | app/services/weather_predictor.py:157 | Inserting one year into a strictly ascending list keeps it strictly ascending and adds exactly that year. |
| `WeatherPredictor.SortedDistinct` | app/services/weather_predictor.py:157 | `sorted(set(years))` is strictly ascending and holds exactly the years that occur. |
| `WeatherPredictor.StrictlyIncreasingUnique` | app/services/weather_predictor.py:157 | Two strictly ascending lists with the same values are equal, so the contract of `SortedDistinct` determines its result. |
| `WeatherPredictor.PoolTrainingData` | app/services/weather_predictor.py:134-139 | The loop over trip days returns exactly `Pool`: each day's samples are appended in trip order, and the first expansion error is raised. |
| `WeatherPredictor.PoolErrorPersists` | app/services/weather_predictor.py:137-139 | Once one trip day raises, the rest of the trip cannot undo it. |
| `WeatherPredictor.PredictTripWeather` | app/services/weather_predictor.py:130-158 | Errors of the day walk and of the expansions propagate, and an empty pool raises. Otherwise the result has: the trip start; the end date, or the start without one; the means of the pool; the modal description or the sentinel; the confidence; the sorted distinct years; and the number of trip days, even days that yielded nothing. |
| `WeatherPredictor.TripSpanSpec` | app/services/weather_predictor.py:133 | Without an end date the trip is `[start]`. An end before the start gives no days, so the prediction raises for lack of data. An end equal to the start gives `[start]`, except at 9999-12-31, where the walk raises OverflowError. |
| `WeatherPredictor.PoolError` | app/services/weather_predictor.py:137-139 | The only error pooling can raise is the invalid-date error of the historical expansion. |
| `WeatherPredictor.LeapDayAbortsPool` | app/services/weather_predictor.py:137-138 | A 29 February anywhere in the trip makes pooling, and so the prediction, raise `InvalidDate` whenever 2015 is analysed. The error is not caught. |
| `WeatherPredictor.TrainingDataCount` | app/services/weather_predictor.py:63-85 | One trip day yields at most one sample per historical year. |
| `WeatherPredictor.PoolSize` | app/services/weather_predictor.py:137-139 | The pool holds at most (trip days) x (historical years) samples. |
| `WeatherPredictor.PoolSamples` | app/services/weather_predictor.py:137-139 | Every pooled sample is from a year in [2015, currentYear) and falls on the month and day of some trip day. |
| `Text.LowerIdempotent` | app/api/packing_recommender.py:126 | `lower()` leaves no upper-case letter, is idempotent, and changes nothing in a string without upper-case letters. |
| `Text.StripSpec` | app/api/packing_recommender.py:126 | `strip()` gives the piece of the string with only whitespace around it and no whitespace at either end. |
| `Text.StripIdempotent` | app/api/packing_recommender.py:126 | Stripping a stripped string changes nothing. |
| `Text.SplitSpec` | app/api/packing_recommender.py:92 | `split()` gives non-empty whitespace-free words. There are none exactly for an all-whitespace string, and together, in order, they hold every non-whitespace character. |
| `Text.SplitLayout` | app/api/packing_recommender.py:92 | The words of `split()` are laid out in the string: whitespace before the first and after the last, at least one whitespace character between two words, and nothing else. |
| `Text.SplitUnique` | app/api/packing_recommender.py:92 | Any such layout of a string has exactly the words `split()` gives, so each word is a maximal run of non-whitespace characters. |
| `Text.SplitOnJoin` | app/api/packing_recommender.py:93 | Cutting `c.join(words) + c` at every c gives back the words, followed by one empty piece, when no word contains c. |
| `Text.RemoveFromJoin` | app/api/packing_recommender.py:93 | Deleting the separator from a join of separator-free words leaves their concatenation. |
| `PackingRecommender.DescriptionPattern` | app/api/packing_recommender.py:92-93 | The pattern starts and ends with `%`, and is `%` alone exactly when the description has no words. |
| `PackingRecommender.PatternHoldsTheWords` | app/api/packing_recommender.py:92-93 | For a description without `%`, removing the wildcards from the pattern leaves exactly the description's non-whitespace characters: the words, in order, and nothing else. |
| `PackingRecommender.PatternSplitsIntoWords` | app/api/packing_recommender.py:92-93 | For a description without `%`, cutting the pattern at every `%` gives an empty piece, the words of `split()` in order, and an empty piece. So the pattern is one wildcard before, between and after the words. |
| `PackingRecommender.WordsWithoutWildcard` | app/api/packing_recommender.py:92 | The words of a description without `%` contain no `%`. |
| `PackingRecommender.ExtractItems` | app/api/packing_recommender.py:114-134 | The result is empty for an undecodable, falsy or category-less document. Otherwise it is the normalised, non-empty name of every item of every category. Every name is lower-case, stripped and non-empty. |
| `PackingRecommender.ExtractedNamesAreNormal` | app/api/packing_recommender.py:125-128 | Every extracted name is non-empty and unchanged by `lower()` and by `strip()`. |
| `PackingRecommender.MergePackingLists` | app/api/packing_recommender.py:136-169 | An empty id list gives `{}`. Otherwise the loop returns the per-trip merge of the names of every row. |
| `PackingRecommender.MergeKeys` | app/api/packing_recommender.py:157-167 | The merged keys are exactly the trip ids of the rows. |
| `PackingRecommender.MergeValues` | app/api/packing_recommender.py:163-167 | A trip's merged set is the union of the sets of all its rows. |
| `PackingRecommender.MergedItemsSpec` | app/api/packing_recommender.py:142-167 | For a non-empty id list, the keys are the rows' trip ids, and a trip's set holds x exactly when one of its rows lists x. |
| `PackingRecommender.Tally` | app/api/packing_recommender.py:191-192 | Counting one trip's items raises exactly those items' counts by one. A missing key counts as 0, as in a `Counter`. |
| `PackingRecommender.CountTrips` | app/api/packing_recommender.py:186-192 | `all_items` is the union of all trips' items, and each item's count is the number of trips whose set holds it. |
| `PackingRecommender.CollectRecommendations` | app/api/packing_recommender.py:197-209 | The recommendations are exactly the items of `all_items` that are not on the user's list and were counted more than once. Each carries its count, its share and the total, and no item appears twice. |
| `PackingRecommender.CountsDecide` | app/api/packing_recommender.py:198-209 | With the counting loop's counts, the loop's test is eligibility and its entry is the item's trip-count recommendation. |
| `PackingRecommender.FoundSpec` | app/api/packing_recommender.py:197-209 | Recommendations are collected for exactly the eligible items, each with its own trip count and share. |
| `PackingRecommender.SortByPercentage` | app/api/packing_recommender.py:212 | Sorting only rearranges the recommendations. |
| `PackingRecommender.SortSpec` | app/api/packing_recommender.py:212 | The sort orders by non-increasing percentage and is a permutation. |
| `PackingRecommender.InsertKeepsOrder` | app/api/packing_recommender.py:212 | One insertion step keeps the list ordered by non-increasing percentage. |
| `PackingRecommender.InsertBound` | app/api/packing_recommender.py:212 | Insertion adds no share above a bound that holds for the list and the inserted entry. |
| `PackingRecommender.SortDistinct` | app/api/packing_recommender.py:212 | Sorting keeps item names distinct. |
| `PackingRecommender.CutKeepsBest` | app/api/packing_recommender.py:214 | The `[:30]` cut keeps at most 30 entries of the sorted list. An entry it drops is beaten by 30 kept entries, each with at least its share. |
| `PackingRecommender.SurvivesCut` | app/api/packing_recommender.py:212-214 | After sorting and cutting, a recommendation is kept, or 30 kept ones each have at least its share. |
| `PackingRecommender.RankedSound` | app/api/packing_recommender.py:212-214 | Sorting and cutting keep only eligible items, each with its own trip count and share. |
| `PackingRecommender.RankedComplete` | app/api/packing_recommender.py:212-214 | Every eligible item is kept, or is cut behind 30 items each with at least its share. |
| `PackingRecommender.RankedOrdered` | app/api/packing_recommender.py:212-214 | The ranked list has at most 30 entries with distinct names, highest share first. |
| `PackingRecommender.GenerateItemStatistics` | app/api/packing_recommender.py:171-214 | An empty map gives []. Otherwise the result: has at most 30 entries; holds only eligible items (not on the user's list, on at least two trips) with their trip count, share and total; names no item twice; is sorted by non-increasing share; and every eligible item is listed or cut behind 30 entries each with at least its share. |
| `PackingRecommender.PercentageOrder` | app/api/packing_recommender.py:201 | For a fixed number of trips, the share orders items exactly as their trip count does. |
| `PackingRecommender.RecommendationBounds` | app/api/packing_recommender.py:200-203 | A recommended item has 1 < trip count <= total trips, so its share lies in (0, 100]. |
| `PackingRecommender.RankedByTripCount` | app/api/packing_recommender.py:201-212 | A list sorted by share is sorted by non-increasing trip count. |
| `PackingRecommender.AnyKeywordSpec` | app/api/packing_recommender.py:248 | `any(keyword in name for keyword in keywords)` holds exactly when some keyword is a substring of the name. |
| `PackingRecommender.FirstMatch` | app/api/packing_recommender.py:247-251 | The category chosen is the first, in declared order, whose keywords match, or "Other" when none does. |
| `PackingRecommender.FindCategory` | app/api/packing_recommender.py:245-253 | The inner loop with its `break` sets `categorized_flag` exactly when some category matches, and then stops at the first match. |
| `PackingRecommender.Categorize` | app/api/packing_recommender.py:216-257 | The method returns exactly `Categorized`: each recommendation is added to its first matching category or to "Other", and empty buckets are dropped. |
| `PackingRecommender.InCategorySpec` | app/api/packing_recommender.py:243-254 | A recommendation is in bucket k exactly when it is one of the input whose first matching category is k. |
| `PackingRecommender.InCategoryAppend` | app/api/packing_recommender.py:243-254 | Within a bucket the input order is kept: the bucket of a concatenation is the concatenation of the buckets. |
| `PackingRecommender.CategorizedDistinct` | app/api/packing_recommender.py:239-257 | No bucket in the result is empty. Each is named after one of the seven categories or "Other", and none occurs twice. |
| `PackingRecommender.CategorizedSound` | app/api/packing_recommender.py:243-257 | A bucket holds only input recommendations whose first matching category is its own. |
| `PackingRecommender.CategorizedComplete` | app/api/packing_recommender.py:243-257 | Every recommendation is in the bucket of its first matching category, or in "Other". |
| `PackingRecommender.CategorizedPartition` | app/api/packing_recommender.py:243-257 | Taken together, the buckets hold every recommendation exactly once: their combined multiset is the input's. |
| `PackingRecommender.CategoryListsPartition` | app/api/packing_recommender.py:239-254 | Before filtering, the eight lists hold every recommendation exactly once. |
| `PackingRecommender.KeepNonEmptyPooled` | app/api/packing_recommender.py:257 | Dropping the empty buckets loses no recommendation. |

## Left out

- The weatherstack request (app/services/weather_predictor.py:39-51) is the parameter `fetch`. It returns either a failure or the decoded body.
  - A failure covers a non-200 status, a transport error and a body that `response.json()` cannot decode. The `except Exception` at line 59 catches all three, and `get_training_data` then returns [].
  - Building the query parameters and the HTTP call are not modelled.
  - `fetch` is a function of the location and the dates, so two trip days with the same dates to fetch get the same outcome. The source sends two independent requests, which may differ. This can only happen for the same month and day in a trip longer than a year. No proved property depends on it.
- `datetime.now()` is the parameter `currentYear`, and `statistics.stdev` is the parameter `stdev`. The model assumes that `stdev` is non-negative on two or more values and is 0 when the sample variance is 0.
  - `generate_historical_dates` reads `datetime.now().year` on every call (app/services/weather_predictor.py:30), once per trip day. The single `currentYear` assumes the same year for the whole trip; only a call running across New Year's Eve would differ.
- Dates are (year, month, day) values. Parsing with `strptime` and formatting with `strftime` are not modelled, and `int(date[:4])` becomes the date's year.
- Floating point is modelled by exact reals. `round(..., 1)` and `round(..., 2)` are left out, in the predictor's result and confidence and in the recommendation percentage.
  - Rounding is monotone, and for at most 50 similar trips distinct trip counts give shares at least 2 points apart. So rounding changes neither the ranking nor which items tie.
  - Because rounding is left out, `WeatherPredictor.ConfidenceDecreasesWithSpread` is stated for the unrounded factor; with rounding, two close spreads can round to the same confidence.
- A fetched record missing `mintemp`, `maxtemp`, `avgtemp` or `uv_index` raises `KeyError` in the source. The model's records always have these fields.
- `PackingRecommender.ExtractItems` requires the document to be one the source reads without raising. Undecodable JSON is modelled; JSON decoding itself is not, so documents arrive already decoded. Documents on which `.get` or `in` would raise `AttributeError` or `TypeError` are excluded by the precondition rather than modelled as errors.
- `lower()` changes only ASCII letters, and `isspace()` uses a fixed table of whitespace characters. Unicode case mapping beyond ASCII is not modelled.
- Set iteration order is not fixed. The order of equal-share recommendations and of the loops over `all_items` and over the trips therefore depends on the choices made, and the contracts are stated to hold for every such order.
- The warehouse queries are replaced by their results:
  - the trip lookup of `get_packing_list_trip_info` (app/api/packing_recommender.py:21-45);
  - the similarity SQL of `find_similar_trips` (app/api/packing_recommender.py:59-89, 95-112);
  - the packing-list query (app/api/packing_recommender.py:145-155), whose result rows are the input of `MergePackingLists`;
  - the module-level clients and environment (app/api/packing_recommender.py:10-19).
- The FastAPI endpoint (app/api/packing_recommender.py:259-329) and the logging `print` calls are left out; they are response shaping and I/O.
