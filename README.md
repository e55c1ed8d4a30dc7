# Solar energy record store — a Dafny model

This project models the core of a small solar-energy logbook. The core is an
in-memory list of weekly records. Each record holds a free-form `week` label,
the `total_energy` produced that week (kWh) and the predominant `weather`
(Clear, Rainy or Cloudy). The model covers:

- the validation rules of the entry prompts;
- the two operations that change the list (bulk entry and edit by number);
- the read-only views computed over the list: daily averages keyed by week
  label, weather suggestions, statistics, text bars, efficiency ratings,
  seasonal buckets and the two filters.

Modules, one per component:

- `Records` (records.dfy): the `Weather` and `Record` datatypes, plus `Option` and `Result`.
- `Validation` (validation.dfy): `str.capitalize()` and the weather test, and the energy test.
- `Text` (text.dfy): `str.split(' ')`, `int()` on a token, and `str()` as its inverse.
- `RecordStore` (store.dfy): class `Store`, whose `records` field the entry and edit methods reassign.
- `Metrics` (metrics.dfy): daily averages, suggestions, statistics, bars, efficiency and filters.
- `Seasons` (seasons.dfy): reading the month from a label, the seasonal loop and its report.

Energies are mathematical reals. There is no floating-point rounding. The
`:.2f` display rounding is not modelled.

Behaviours of the code kept as written:

- Daily averages form a dictionary keyed by label. A later record with the
  same label overwrites an earlier one. The display then shows the later
  value on the row of every record with that label.
- The seasonal view reads the month from the second token of
  `week.split(' ')`. Any integer outside 3–11 is Winter, so under the
  "Week n" convention every week number above 11 lands in Winter. One label
  that does not yield an integer makes the whole analysis fail. The model has
  two error kinds: there is no second token (Python's IndexError), or the
  token is not an integer (ValueError). The first failing record decides which.
- Editing an empty store does nothing, and no entry number is read. A number
  outside 1..len leaves the store unchanged.
- A negative entry count in bulk entry collects nothing, as `range` does.
- The energy prompt accepts every number `float()` produces when no minimum
  is given. With `min_value=0` it accepts only values that are at least 0.
  The code tests only `value < min_value` (line 51). That comparison is false
  for `float('nan')`, so NaN passes as an energy even with `min_value=0`. The
  model follows the test but uses reals, so it has no NaN (see Left out).

Inputs from the console are parameters. `GetUserInput` takes the count and
the sequence of entries the prompts produce. `EditData` takes the entry
number and the replacement record. `AcceptEnergy` takes the result of
`float()` as `Option<real>`.

## Model

| member | source | states |
|---|---|---|
| `Validation.Capitalize` | SolarEnergy_DataManagement.py:63 | the result has the input's length, the first character upper-cased and every later character lower-cased |
| `Validation.CapitalizeIdempotent` | SolarEnergy_DataManagement.py:63 | capitalising an already capitalised text changes nothing |
| `Validation.CapitalizeIgnoresCase` | SolarEnergy_DataManagement.py:63 | two texts that differ only in letter case capitalise to the same text |
| `Validation.ParseWeather` | SolarEnergy_DataManagement.py:61-66 | a text is accepted iff its capitalised form is "Clear", "Rainy" or "Cloudy", and then the accepted condition's name is that capitalised form |
| `Validation.ParseWeatherCaseInsensitive` | SolarEnergy_DataManagement.py:61-66 | a text is accepted as condition w iff it spells w's name in any mixture of cases (both directions) |
| `Validation.ParseWeatherName` | SolarEnergy_DataManagement.py:61-66 | typing a stored condition's name is accepted as that same condition |
| `Validation.ParseWeatherAcceptsMixedCase` | SolarEnergy_DataManagement.py:63-66 | "cLOUDY" is accepted as Cloudy |
| `Validation.ParseWeatherRejectsSunny` | SolarEnergy_DataManagement.py:63-68 | "Sunny" is rejected |
| `Validation.AcceptEnergy` | SolarEnergy_DataManagement.py:49-54 | a value is accepted iff float() produced one and, when a minimum is given, the value is not below it; the accepted value is the parsed one |
| `Validation.EntryEnergyNonNegative` | SolarEnergy_DataManagement.py:51-52 | with minimum 0, as entry (line 76) and edit (line 100) use, accepted energies are at least 0 and negative ones are rejected |
| `Validation.ThresholdAcceptsAnyNumber` | SolarEnergy_DataManagement.py:261 | with no minimum, as the filter threshold uses, every parsed number is accepted |
| `Text.Split` | SolarEnergy_DataManagement.py:209 | `split(sep)` always returns at least one piece; its full meaning is stated by the split lemmas below |
| `Text.JoinSplit` | SolarEnergy_DataManagement.py:209 | joining the pieces of `split(sep)` with sep gives back the original text |
| `Text.SplitPiecesHaveNoSeparator` | SolarEnergy_DataManagement.py:209 | no piece of `split(sep)` contains the separator |
| `Text.SplitHasSecondPiece` | SolarEnergy_DataManagement.py:209 | `split(sep)` has an index 1 iff the text contains the separator |
| `Text.SplitTwoPieces` | SolarEnergy_DataManagement.py:209 | splitting head, separator, tail (neither holding the separator) gives exactly [head, tail] |
| `Text.SplitWithoutSeparator` | SolarEnergy_DataManagement.py:209 | a text without the separator splits into the single piece that is the text itself |
| `Text.SplitAfterHead` | SolarEnergy_DataManagement.py:209 | splitting a separator-free head, the separator, and any tail gives the head followed by the pieces of the tail |
| `Text.SplitFirstPiece` | SolarEnergy_DataManagement.py:209 | the first piece of a separator-free token followed by nothing or by a separator is that token |
| `Text.IndexOf` | SolarEnergy_DataManagement.py:209 | the position of the first separator, or the length when there is none: nothing before it is the separator |
| `Text.LabelTokens` | SolarEnergy_DataManagement.py:209 | a text holding the separator is head, separator, token, rest with head and token separator-free and rest empty or starting with the separator, and the token is piece 1 of `split(sep)` |
| `Text.ParseInt` | SolarEnergy_DataManagement.py:209 | a token is read as an integer iff it is an optional sign followed by at least one ASCII digit; the value is the digits' decimal value, negated iff the sign is '-' |
| `Text.DigitsValueLeadingZero` | SolarEnergy_DataManagement.py:209 | a leading zero does not change the decimal value of a digit string |
| `Text.ParseIntPlusAndLeadingZero` | SolarEnergy_DataManagement.py:209 | a leading '+' and a leading '0' change neither whether a digit string is read nor the value read |
| `Text.ParseIntUnconventionalSpellings` | SolarEnergy_DataManagement.py:209 | "04" and "+4" are both read as 4 |
| `Text.ParseIntToString` | SolarEnergy_DataManagement.py:209 | reading the decimal spelling of any integer gives that integer back |
| `Text.ParseIntRejectsEmpty` | SolarEnergy_DataManagement.py:209 | the empty token, a lone sign and a token with a non-digit are not integers |
| `RecordStore.Store.constructor` | SolarEnergy_DataManagement.py:268 | a session starts with an empty list |
| `RecordStore.Store.GetUserInput` | SolarEnergy_DataManagement.py:70-79 | the new list is the old list followed by the first max(n, 0) supplied entries in entry order; earlier records are unchanged; validity (energy at least 0) is preserved |
| `RecordStore.Store.EditData` | SolarEnergy_DataManagement.py:89-105 | the edit happens iff 1 ≤ number ≤ length; then the record at number − 1 is the replacement and every other record and the length are unchanged; otherwise the list is identical (also when empty); validity is preserved |
| `Metrics.DailyAverages` | SolarEnergy_DataManagement.py:107-113 | the keys are exactly the week labels (none for an empty store); each label maps to total_energy / 7 of the last record bearing it |
| `Metrics.LastWithSameLabelExists` | SolarEnergy_DataManagement.py:112 | every record has a last record sharing its label, so every key's value is determined |
| `Metrics.DailyAveragesDuplicateLabel` | SolarEnergy_DataManagement.py:112 | two "Week 1" records of 70 and 140 kWh give the single entry "Week 1" ↦ 20 |
| `Metrics.LookupShowsLastValue` | SolarEnergy_DataManagement.py:131-132 | the lookup `daily_avg[entry['week']]` never fails and yields the value of the last record with that label |
| `Metrics.AveragesAndSuggestions` | SolarEnergy_DataManagement.py:124-134 | one row per record in store order, with its label, weather and suggestion (never the fallback); a repeated label shows the last record's daily average on every row |
| `Metrics.SuggestImprovements` | SolarEnergy_DataManagement.py:115-122 | Rainy or Cloudy give the more-capacity advice, Clear gives the maintenance advice, and the fallback is given exactly for texts that name no condition |
| `Metrics.Max` | SolarEnergy_DataManagement.py:167 | the maximum is one of the values and no value exceeds it |
| `Metrics.Min` | SolarEnergy_DataManagement.py:168 | the minimum is one of the values and no value is below it |
| `Metrics.SumAppend` | SolarEnergy_DataManagement.py:166 | the sum of a concatenation is the sum of the parts |
| `Metrics.SumNonNegative` | SolarEnergy_DataManagement.py:166 | values that are all at least 0 have a sum of at least 0 |
| `Metrics.SumBounds` | SolarEnergy_DataManagement.py:166 | n values between lo and hi sum to between n·lo and n·hi |
| `Metrics.Mean` | SolarEnergy_DataManagement.py:169 | no mean for no values; otherwise as many copies of the mean as there are values add up to their sum, and the mean lies between the minimum and the maximum |
| `Metrics.SumOfCopies` | SolarEnergy_DataManagement.py:169 | n copies of x add up to n·x |
| `Metrics.QuotientBounds` | SolarEnergy_DataManagement.py:169 | values whose sum lies between count·lo and count·hi have their sum divided by their count between lo and hi |
| `Metrics.MeanBounds` | SolarEnergy_DataManagement.py:166-169 | the sum divided by the count lies between min() and max() |
| `Metrics.Statistics` | SolarEnergy_DataManagement.py:160-169 | none for an empty store; otherwise the total is the sum of energies, the maximum and minimum are attained by some record and bound all records, the average is total / count and lies between them |
| `Metrics.StatisticsExample` | SolarEnergy_DataManagement.py:166-169 | 10, 20 and 30 kWh give total 60, maximum 30, minimum 10, average 20 |
| `Metrics.Truncate` | SolarEnergy_DataManagement.py:184 | `int()` of a number rounds toward zero: the result lies between 0 and x, less than 1 away |
| `Metrics.ChartBar` | SolarEnergy_DataManagement.py:184 | the bar is all stars; for e ≥ 0 it has floor(e / 10) stars; below 10 kWh, negatives included, it is empty |
| `Metrics.EfficiencyAnalysis` | SolarEnergy_DataManagement.py:188-196 | one (week, rating) pair per record, in store order, with rating · 100 equal to the record's energy |
| `Metrics.Filter` | SolarEnergy_DataManagement.py:257 | every kept element satisfies the condition, and there are exactly as many kept elements as positions of the list whose element satisfies it |
| `Metrics.FilterMembership` | SolarEnergy_DataManagement.py:257 | an element is kept iff it is in the list and satisfies the condition |
| `Metrics.FilterIsSubsequence` | SolarEnergy_DataManagement.py:257 | the kept elements form a subsequence of the list, in the original order |
| `Metrics.FilterAppend` | SolarEnergy_DataManagement.py:262 | filtering a concatenation is the concatenation of the filtered parts, so each satisfying occurrence is kept once |
| `Metrics.FilterByWeather` | SolarEnergy_DataManagement.py:255-257 | the kept records are exactly those whose weather equals the condition, in store order, one per matching record |
| `Metrics.FilterByThreshold` | SolarEnergy_DataManagement.py:260-262 | the kept records are exactly those with energy at least the threshold, in store order, one per matching record |
| `Metrics.FilterByThresholdExample` | SolarEnergy_DataManagement.py:262 | 5, 15 and 25 kWh at threshold 15 keep the 15 and 25 records, in that order |
| `Seasons.SeasonOf` | SolarEnergy_DataManagement.py:210-217 | a month is Spring iff it is 3–5, Summer iff 6–8, Autumn iff 9–11, and Winter iff it is below 3 or above 11 |
| `Seasons.ThreeMonthsPerSeason` | SolarEnergy_DataManagement.py:210-217 | each season covers exactly three of the months 1–12 |
| `Seasons.MonthOf` | SolarEnergy_DataManagement.py:209 | the label has no second token iff it has no space; an invalid-month error carries a space-free token that is not an integer |
| `Seasons.MonthOfSecondToken` | SolarEnergy_DataManagement.py:209 | for any label head, space, token, rest (head and token space-free, rest empty or starting with a space), the month is the token read as an integer, or an invalid-month error carrying that token |
| `Seasons.MonthOfConventionalLabel` | SolarEnergy_DataManagement.py:209 | a label "Week n" yields month n, for every integer n |
| `Seasons.MonthOfWithoutSpace` | SolarEnergy_DataManagement.py:209 | "WeekOnly" has no second token |
| `Seasons.ExampleLabel` | SolarEnergy_DataManagement.py:209 | "Week 4" yields month 4 |
| `Seasons.ExampleLeadingZeroLabel` | SolarEnergy_DataManagement.py:209 | "Week 04" also yields month 4 |
| `Seasons.SeasonEnergies` | SolarEnergy_DataManagement.py:208-218 | a season's energies are no more than the records; their contents are stated by the two lemmas below |
| `Seasons.SeasonEnergiesAppend` | SolarEnergy_DataManagement.py:208-218 | a season's energies of a concatenation are those of the first part followed by those of the second |
| `Seasons.SeasonEnergiesSingle` | SolarEnergy_DataManagement.py:208-218 | a single record contributes its energy to its own season and nothing to the others |
| `Seasons.BucketsStep` | SolarEnergy_DataManagement.py:208-218 | appending record k's energy to the bucket of its month's season turns the buckets of the first k records into those of the first k + 1 |
| `Seasons.SeasonsPartitionRecords` | SolarEnergy_DataManagement.py:208-218 | when every label yields a month, the four buckets' sizes add up to the number of records |
| `Seasons.SeasonalAnalysis` | SolarEnergy_DataManagement.py:202-218 | no data iff the store is empty; failure iff some label yields no month, with the error of the first such record; otherwise four buckets, each holding the energies of its season's records in store order |
| `Seasons.SeasonalReport` | SolarEnergy_DataManagement.py:219-224 | one line per season in the order Spring, Summer, Autumn, Winter; no average iff the bucket is empty; otherwise as many copies of the average as the bucket has energies add up to the bucket's sum, and the average lies between the bucket's minimum and maximum |
| `Seasons.SeasonEnergiesExample` | SolarEnergy_DataManagement.py:208-218 | records in months 4, 7 and 1 fill Spring, Summer and Winter with one energy each and leave Autumn empty |

## Left out

- The menu loop and dispatch in `main`, `print_menu`, `show_data`, `help_menu` and `settings`: these are console output and control flow only.
- The choice between the two filters in `advanced_filter_view` (lines 253-263) is menu dispatch. Only the two filters are modelled.
- The re-prompt loops and `input()` calls of `get_integer_input`, `get_float_input` and `get_weather_input`. Only their acceptance tests are modelled. `int()` and `float()` on console text are results given as parameters.
- `save_data` and `load_data` are file I/O and JSON. Loaded data bypasses validation. So the validity facts proved for `GetUserInput` and `EditData` hold only for stores built by entry and edit.
- Logging is a process-wide side channel.
- Display formatting (f-strings, `:.2f`) and everything printed, including the "no data" messages. The guards appear as empty or `None` results.
- Weather values other than the three conditions: `load_data` (line 155) can bring in a record whose weather is any text. Weather is a three-valued datatype here, so such a record cannot be represented. The source would show the fallback advice for it (lines 121-122, used from line 133). This is why `Metrics.AveragesAndSuggestions` can state that the fallback is never shown.
- EfficiencyAnalysis: for an empty store the source returns before building the list. The model returns an empty list.
- AcceptEnergy: Python floats, including NaN and infinities, are not modelled; energies are reals. So the model has no counterpart of `float('nan')` passing the `value < min_value` test.
- Capitalize: only ASCII letters change case. Python's full Unicode case mapping, and title-casing of the first character, are not modelled.
- ParseInt: Python's `int()` also strips surrounding whitespace other than the split separator (such as a tab). It also accepts underscores between digits and non-ASCII decimal digits. None of these is modelled.
- RecordStore.Store.GetUserInput: the entries come from the prompts. The console supplies at least as many as were asked for. A closed console raising EOFError is not modelled.
- Aliasing: the source's records are mutable dictionaries shared between the store and a filtered list. The model stores records as values. No caller of the source mutates a filtered list, so nothing observable is lost.
