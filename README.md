# Weather forecast normaliser and activity advisory

A Dafny model of the two decision-making parts of the weather pipeline in `Weather_forecast.py`:

- **the normaliser**, `preprocess_hourly_weather`. It builds a DataFrame from the fetched hourly rows (time, description, temperature, humidity, wind speed) and drops every row with a missing cell. It then rounds temperature to two decimals and truncates humidity and wind speed to integers. Surviving rows keep their order.
- **the advisory classifier**, `suggest_activity`. It chooses one of four fixed suggestions by a first-match-wins rule chain. The chain looks at whether some description contains "clear sky", "rain" or "snow" (case-insensitively) and at the mean temperature.

Modules:

| file | module | what it holds |
|---|---|---|
| wrappers.dfy | `Wrappers` | `Option` (a missing DataFrame cell) and `Result` (an operation that raises) |
| numeric.dfy | `Numeric` | rounding to hundredths (ties to even) and truncation toward zero, on exact reals |
| text.dfy | `Text` | substring search and its ASCII case-insensitive form |
| forecast_data.dfy | `ForecastData` | the raw row (every field optional), the normalised record, `Complete` |
| normalizer.dfy | `Normalizer` | the specification function `Normalize`, the loop `Preprocess`, and their properties |
| advisory.dfy | `Advisory` | the four suggestions and their texts, the rule chain, the mean, and the rule properties |
| scenarios.dfy | `Scenarios` | worked cases: rule priority, and one row end to end |

Temperatures are exact `real`s, not floats. `Round2` therefore rounds to the nearest multiple of 0.01 exactly. A value exactly halfway between two hundredths goes to the even one, which is the rule numpy documents for `round`. Humidity and wind speed arrive as reals and are truncated toward zero, as `astype(int)` does. A missing DataFrame cell (None or NaN) is `None`.

`Preprocess` is a method with a loop that builds the output row by row. It is proved equal to the recursive filter-and-map `Normalize`, and every property of the normaliser is proved about `Normalize`. The classifier is a pure function. `Classify` computes the three `.any()` flags and the mean, then applies the if/elif chain (`Rules`). `SuggestActivity` returns that suggestion's text. The mean is `Option<real>`: `None` stands for pandas' NaN on an empty column, and every comparison with it is false.

### Expected behaviour vs. what the code does (the model follows the code)

- Empty input to the normaliser. One might expect an empty list to give an empty record set. In the code, `pd.DataFrame([])` has no columns, so `df['time']` (Weather_forecast.py:46) raises `KeyError`. `Preprocess` returns `Failure(MissingColumn("time"))` for it. The only caller never passes an empty list (Weather_forecast.py:115).
- Empty record set in the classifier. One might expect an error, since the mean of no temperatures is undefined. In the code the mean is NaN, no test holds and the generic text is returned (`EmptyGivesPleasant`). This happens when every row was dropped.
- Ties in rounding. One might expect 22.345 to round up to 22.35. Exact 22.345 is a tie, and the code's round-half-to-even gives 22.34 (`OneRowEndToEnd`). The float program agrees: 22.345 * 100.0 is exactly 2234.5 in IEEE doubles, and `rint` gives 2234.
- Persistence. One might expect each store write to replace the earlier content. `push_to_mongodb` calls `insert_many`, which appends. Persistence is not part of this model.

## Model

| member | source | states |
|---|---|---|
| Numeric.RoundHalfEven | Weather_forecast.py:48 | the result is within 1/2 of its input, strictly closer unless the input is a tie, and even on a tie |
| Numeric.Round2 | Weather_forecast.py:48 | the rounded temperature is a whole number of hundredths and lies within 0.005 of the input |
| Numeric.Round2Nearest | Weather_forecast.py:48 | no multiple of 0.01 is closer to the input than the rounded value |
| Numeric.Round2Tie | Weather_forecast.py:48 | an input exactly halfway between two hundredths rounds to the even one |
| Numeric.Round2OfHundredth | Weather_forecast.py:48 | a value already in hundredths is unchanged by rounding |
| Numeric.Round2Idempotent | Weather_forecast.py:48 | rounding a rounded temperature again changes nothing |
| Numeric.Trunc | Weather_forecast.py:50-51 | truncation toward zero: for x >= 0, 0 <= x - n < 1; for x < 0, -1 < x - n <= 0 |
| Numeric.TruncUnique | Weather_forecast.py:50-51 | those two bounds determine the truncated value uniquely |
| Text.Contains | Weather_forecast.py:62-64 | substring search is true exactly when the pattern occurs at some position |
| Text.ContainsIgnoringCase | Weather_forecast.py:62-64 | `str.contains(p, case=False)` is true exactly when p matches at some position with characters compared after ASCII lower-casing |
| ForecastData.Complete | Weather_forecast.py:44 | the test `dropna` applies: no field of the row is missing; its property is `Normalizer.NormalizeSelectsCompleteRowsInOrder` (exactly the complete rows are kept) |
| Normalizer.NormalizeRow | Weather_forecast.py:46-51 | a complete row keeps its time and description; its temperature becomes a hundredth within 0.005; non-negative humidity and wind lose less than 1 and never go up |
| Normalizer.Normalize | Weather_forecast.py:42-51 | normalisation never adds rows |
| Normalizer.Preprocess | Weather_forecast.py:41-53 | on non-empty input the loop returns exactly `Normalize(rows)`; on empty input it fails with the missing `time` column |
| Normalizer.CompleteIndicesFrom | Weather_forecast.py:44 | the positions of the rows `dropna` keeps: strictly increasing, each a complete row, and every complete row among them |
| Normalizer.NormalizeSelectsCompleteRowsInOrder | Weather_forecast.py:44-51 | output row k is the conversion of input row idx[k]; the idx are increasing and are exactly the complete rows, so surviving rows keep their relative order |
| Normalizer.NormalizeKeepsCompleteRows | Weather_forecast.py:44 | when no row has a missing field, every row is kept, position for position |
| Normalizer.NormalizeDropsIncompleteRows | Weather_forecast.py:44 | when every row has a missing field, nothing is kept |
| Normalizer.NormalizeRowOfRecord | Weather_forecast.py:48-51 | a normalised record read back as a raw row converts to itself |
| Normalizer.NormalizeIdempotent | Weather_forecast.py:44-51 | normalising the normaliser's own output gives that output back |
| Advisory.MessageInjective | Weather_forecast.py:69-76 | the four suggestion texts are pairwise different |
| Advisory.Message | Weather_forecast.py:70-76 | the four fixed texts, character for character; its property is `Advisory.MessageInjective` |
| Advisory.Matches | Weather_forecast.py:62-64 | the boolean column `str.contains(pattern, case=False)`, one entry per record; its property is `Advisory.AnyMatches` through `Text.ContainsIgnoringCase` |
| Advisory.AnyMatches | Weather_forecast.py:62-64 | `.any()` of a condition column holds exactly when some record's description contains the pattern, ignoring ASCII case |
| Advisory.Any | Weather_forecast.py:69-73 | `.any()` is true exactly when some entry is true |
| Advisory.Total | Weather_forecast.py:65 | the sum behind `.mean()`; its properties are `Advisory.MeanAtLeast`, `Advisory.MeanAtMost` and `Advisory.TotalPermutation` |
| Advisory.MeanTemperature | Weather_forecast.py:65 | the mean is undefined (NaN) exactly when there are no records |
| Advisory.IsWarm | Weather_forecast.py:66 | `(avg >= 20) & (avg <= 30)`, false on NaN; used by `Advisory.SunnyWarmExactly` |
| Advisory.IsCold | Weather_forecast.py:67 | `avg < 0`, false on NaN; used by `Advisory.ColdExactly` |
| Advisory.Rules | Weather_forecast.py:69-76 | the first-match-wins if/elif chain; its properties are `Advisory.SunnyWarmExactly`, `Advisory.RainyExactly`, `Advisory.ColdExactly` and `Advisory.PleasantExactly` |
| Advisory.Classify | Weather_forecast.py:61-76 | the three `.any()` flags and the mean fed to `Rules`; `Advisory.ClassifyByMentions` restates it over "some description mentions", and the four rule lemmas give each outcome exactly |
| Advisory.SuggestActivity | Weather_forecast.py:61-76 | the result is always one of the four fixed texts |
| Advisory.ClassifyByMentions | Weather_forecast.py:62-76 | the chosen suggestion is the rule chain applied to "some description mentions clear sky / rain / snow" and the mean |
| Advisory.SunnyWarmExactly | Weather_forecast.py:61-70 | the sunny and warm text exactly when some description contains "clear sky" and the mean temperature lies in [20, 30] |
| Advisory.RainyExactly | Weather_forecast.py:61-72 | the rain text exactly when the sunny/warm test fails and some description contains "rain" |
| Advisory.ColdExactly | Weather_forecast.py:61-74 | the cold text exactly when the first two tests fail and some description contains "snow" or the mean is below 0 |
| Advisory.PleasantExactly | Weather_forecast.py:61-76 | the generic text exactly when none of the first three tests holds |
| Advisory.EmptyGivesPleasant | Weather_forecast.py:65-76 | with no records (mean NaN) the generic text is returned |
| Advisory.MeanAtLeast | Weather_forecast.py:65 | the mean of temperatures all at least lo is at least lo |
| Advisory.MeanAtMost | Weather_forecast.py:65 | the mean of temperatures all at most hi is at most hi |
| Advisory.ClearAndWarmThroughout | Weather_forecast.py:65-70 | a clear-sky forecast with every temperature in [20, 30] gets the sunny and warm text |
| Advisory.FreezingThroughout | Weather_forecast.py:67-74 | a forecast without rain whose every temperature is at most a negative bound gets the cold text |
| Advisory.TotalPermutation | Weather_forecast.py:65 | the temperature total does not depend on the order of the records |
| Advisory.SuggestionIgnoresOrder | Weather_forecast.py:61-76 | the suggestion depends only on which records there are, not on their order |
| Scenarios.ClearSkyBeatsRain | Weather_forecast.py:69-72 | a "clear sky" row and a "light rain" row, both at 25, give the sunny and warm text, not the rain text |
| Scenarios.SnowShowerIsCold | Weather_forecast.py:73-74 | "snow shower" at 5 degrees gives the cold text (the snow test alone suffices) |
| Scenarios.SleetIsRainy | Weather_forecast.py:71-74 | "light rain and snow" at -3 gives the rain text: the rain rule comes before the cold rule |
| Scenarios.OneRowEndToEnd | Weather_forecast.py:41-76 | a row at 22.345 / 55.7 / 3.9 next to a row with no temperature normalises to one record at 22.34 / 55 / 3, whose suggestion is sunny and warm |

## Left out

- `get_hourly_weather` (Weather_forecast.py:11-39): the HTTP request, JSON decoding, `datetime.strptime` and Streamlit caching are I/O and library calls. Rows enter the model already decoded, with the time already a `DateTime`. The fetch returns `None` on a non-200 status (line 39), and the caller then skips normalisation.
- `push_to_mongodb` (Weather_forecast.py:55-59): a MongoDB client call (`insert_many`, which appends).
- `plot_weather_distribution`, `plot_temperature_trend`, `plot_weather_map` and `main` (Weather_forecast.py:79-146): plotting, maps and Streamlit UI wiring.
- Tall_Buildings.py: HTTP scraping and a SQLite write, outside the weather pipeline.
- Normalize: the DataFrame that `preprocess_hourly_weather` returns keeps the original index labels of the surviving rows, because `dropna(inplace=True)` (Weather_forecast.py:44) does not renumber. `st.write(df)` (line 119) shows those labels. The model returns a sequence numbered from 0. The labels are exactly `CompleteIndicesFrom(rows, 0)` in `NormalizeSelectsCompleteRowsInOrder`. Nothing else in the pipeline reads them.
- `pd.to_datetime` (Weather_forecast.py:46) is the identity on values that are already `datetime`s, so the model keeps the time unchanged. Its coercion of other values is not modelled.
- Floating point: temperatures, humidity and wind speed are exact reals. The exact result of float rounding is not modelled: a binary float near a tie may land on either side of it. Rounding error in the float mean is not modelled either.
- NaN is modelled only as a missing cell (dropped by `dropna`) and as the mean of an empty column. NaN propagation elsewhere is not modelled.
- `astype(int)` converts to 64-bit integers. The model's integers are unbounded; weather values are far inside that range.
- Case-insensitive matching: `str.contains` with `case=False` compiles a regular expression with Unicode case folding. The model lower-cases ASCII letters only, and the three patterns are plain text with no regular-expression metacharacters.
