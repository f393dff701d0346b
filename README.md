# jolsa/scripts utilities in Dafny

This project models the JavaScript helper library by Johnny Olsa and proves properties of the model. It covers six files:

- **parsers.js**: `filledArray`; `numParser`, which reads the digit runs out of free text; `dateParser`, which places zero to three numbers into today's date; `numDigits`; `timeParser`, which turns up to four fields plus an am/pm marker into a millisecond count.
- **arrays.js**: the LINQ-like `Array.prototype` extensions:
  - `sortByType`, `firstOrDefault`, `lastOrDefault`;
  - `min`/`max` over the shared `minOrMax`;
  - `distinct`, `union`, `zip`;
  - `sum`/`average` over the shared `numericOps`;
  - `takeWhile`, `toDictionary`, `contains`.
- **stepTimer.js**: the step timer object, with its state (`start`, `totalStart`, `format`, `steps`) and its methods `addStep`, `reset`, `get_steps`, `getTotalTime`, `get_format` and `set_format`.
- **noRequire.js**: the `amdList` registry and `define`.
- **strings.js**: `String.prototype.repeat`, `in` and `fancify`.
- **numbers.js**: `Number.prototype.in`.

Modules:

- `JsValues` (`js_values.dfy`): the slice of JavaScript's value model the helpers rely on. It holds:
  - primitive values and truthiness;
  - `\s` and `\d`;
  - decimal rendering;
  - `String(v)` for property keys;
  - `some` and `filter`;
  - `Array.apply(null, arguments)`, including its single-number quirk.
- `Parsers`, `Arrays`, `StepTimer`, `NoRequire`, `Strings` and `Numbers`: one module per source file.

How the code is modelled:

- **Parsers and transformations** are functions over values. Where the source updates locals or an array step by step, there is also a method, proved equal to its function:
  - `dateParser` updates its locals in order;
  - `timeParser` updates the field array `a` in place;
  - the loops of `firstOrDefault`, `distinct`, `sum`, `average`, `zip`, `takeWhile` and `toDictionary` are methods too.
- **The step timer and the module registry** are classes whose methods modify their fields.
- **Ambient inputs are parameters.** This covers the clock (`new Date().getTime()`), today's date, the time-zone offset of `new Date(0)` and the callbacks that arrays and `define` receive.
- **What becomes a `Date` is a plain value.** `dateParser`'s result is the raw year/month/day handed to `new Date(y, m, d)`. `timeParser`'s result is the millisecond count handed to `new Date(ms)`. `None` stands for `NaN`.

The `timeParser` doc comment speaks of "1/1/1900 plus the time". The code builds `new Date(ms)` from a count since the 1970 epoch, with the time-zone offset folded into the minutes. The model follows the code: the count is since 1970-01-01 00:00 UTC and reads as local wall-clock time on 1 January 1970.

Read as a check on months 1-12, `dateParser("13/1")` would not be a date. The code accepts it, because its month check `m > 12` is applied to the 0-based month. The model follows the code (`Parsers.DateBoundsAccepted`). A month-checked variant sits beside it (see Findings).

## Model

| member | source | states |
|---|---|---|
| Parsers.FilledArray | parsers.js:12-26 | `Array(elements)` succeeds exactly when 0 <= elements < 2^32, and then the result has `elements` entries, each equal to `value`; otherwise it throws a RangeError |
| Parsers.DigitRuns | parsers.js:38-40 | the reference scan of `string.match(/\d+/g)` mapped through `parseInt`; no contract of its own, its meaning is stated by `DigitRunsEmpty`, `DigitRunsSplit` and `DigitRunsOfNumber` |
| Parsers.DigitRunLength | parsers.js:38 | the leading run `\d+` consumes is all digits, and the character after it is not a digit |
| Parsers.NumParser | parsers.js:37-40 | empty exactly when the argument is not a string or has no digit; otherwise the maximal digit runs left to right |
| Parsers.DigitRunsEmpty | parsers.js:38-39 | the text has no digit runs exactly when it has no digit |
| Parsers.DigitRunsSplit | parsers.js:38 | a non-digit separates the text into independent halves: runs(a + c + b) = runs(a) + runs(b) |
| Parsers.DigitRunsOfNumber | parsers.js:40 | the decimal rendering of n is a single run whose value is n |
| Parsers.DigitRunsOfJoin | parsers.js:38-40 | numbers written with a non-digit separator come back as exactly those numbers |
| Parsers.NumParserRoundTrip | parsers.js:37-40 | numParser is a left inverse of writing numbers with any non-digit separator |
| Parsers.NumParserExample | parsers.js:31 | "10-12,14 18" gives [10, 12, 14, 18] |
| Parsers.ExpandYear | parsers.js:77-82 | a year of 100 or more is kept; a two-digit year keeps its last two digits, lands in this century or the previous one, and is at most 20 years ahead |
| Parsers.ParseDateWith | parsers.js:55-84 | `dateParser` with the month bound as a parameter; no contract of its own, stated by `DateWithoutTokens`, `DateTokenPlacement` and `DateRoundTrip` |
| Parsers.ParseDate | parsers.js:55-84 | `dateParser` as written (month bound 12); stated by the same lemmas and `DateBoundsAccepted` |
| Parsers.DateParser | parsers.js:55-84 | the step-by-step update of `y`, `m`, `d` computes `ParseDate` |
| Parsers.DateWithoutTokens | parsers.js:55-62 | a falsy input is not a date; input without digits is today's date |
| Parsers.DateTokenPlacement | parsers.js:65-75 | one number sets the day; two set month (minus one) and day; three or more also set the year; the bounds check rejects raw month > 13 or day > 31 |
| Parsers.DateRoundTrip | parsers.js:65-84 | month/day/year with a four-digit year, written with any non-digit separator, parses back to that date |
| Parsers.DateExampleDay | parsers.js:46 | "12" on 12/3/1985 is 12/12/1985 |
| Parsers.DateExampleMonthDay | parsers.js:47 | "8.5" in 1985 is 8/5/1985 |
| Parsers.DateExampleTwoDigitYear | parsers.js:48 | "6-15-84" is 1984, whether today is in 1985 or in 2026 |
| Parsers.DateExampleTwentyYearsAhead | parsers.js:80-81 | in 2026, "6-15-46" is 2046 (exactly 20 years ahead is kept) |
| Parsers.DateExampleMoreThanTwentyYears | parsers.js:80-81 | in 2026, "6-15-47" is 1947 |
| Parsers.DateBoundsAccepted | parsers.js:74-75 | as written, "13/1" passes the check, with 0-based month 12 |
| Parsers.DateZerosAccepted | parsers.js:74-75 | "0/0" passes the check, with month -1 and day 0 |
| Parsers.DateBoundsRejected | parsers.js:74-75 | "14/1" and "1/32" are rejected |
| Parsers.MonthCheckedInRange | parsers.js:74 | with the 0-based bound of 11, no accepted month is past December, and the result differs from the source's only where the source gives month 12 |
| Parsers.MonthCheckedRejectsThirteen | parsers.js:74 | with the bound of 11, "13/1" is rejected |
| Parsers.NumDigits | parsers.js:95 | at least 1, and 10^(r-1) <= abs(num) < 10^r (0 has one digit) |
| Parsers.NumDigitsIsLength | parsers.js:95 | the digit count is the length of the decimal rendering |
| Parsers.ScaledMs | parsers.js:116-118 | the millisecond field after `a[3] *= Math.pow(10, 3 - numDigits(a[3]))`: from 0 to below 1000, and unchanged when it has at most three digits |
| Parsers.ScaledMsIsQuotient | parsers.js:117-118 | a field of d > 3 digits becomes exactly field / 10^(d-3), its fraction kept |
| Parsers.ScaledMsLongField | parsers.js:117-118 | a field of more than three digits scales to at least 100 |
| Parsers.ScaledMsRestores | parsers.js:117-118 | the scaled field times 10^(d-3) is the field again |
| Parsers.ScaledMsOver999 | parsers.js:117-121 | the scaled field is above 999 exactly when the field has more than three digits and is above 999 * 10^(d-3) |
| Parsers.ScaleCell | parsers.js:116-118 | the conditional update of the millisecond cell gives the scaled field |
| Parsers.TimeFields | parsers.js:112 | the fields padded with zeros to at least four, the given ones kept in order |
| Parsers.DigitsAndSeparatorHaveNoPm | parsers.js:111 | numbers written with a separator other than p/P contain no "pm" |
| Parsers.PmTokens | parsers.js:110-111 | "<n>pm" has the single field n and carries the pm marker |
| Parsers.ParseTimeWith | parsers.js:109-127 | `timeParser` with the pm rule as a parameter; no contract of its own, stated by `TimeRejection`, `TimeValue` and `NoonFixAgrees` |
| Parsers.ParseTime | parsers.js:109-127 | `timeParser` as written; stated by `TimeRejection`, `TimeValue`, `TimeRoundTrip` and `TimeWithFraction` |
| Parsers.TimeOf | parsers.js:112-127 | the checks and the sum on the padded fields; stated by `TimeRejection` and `TimeValue` |
| Parsers.TimeParser | parsers.js:109-127 | the falsy check, padding and hand-over to `TimeOfPadded` compute `ParseTime` |
| Parsers.TimeOfPadded | parsers.js:112-127 | the in-place updates of the field array `a` (pm shift, millisecond scaling, offset) and the sum compute `TimeOf` |
| Parsers.TimeOfTokens | parsers.js:109-127 | input with fields `ns`, no pm marker and valid hour, minute and second gives that time, or nothing when the scaled millisecond field is above 999 |
| Parsers.TimeRejection | parsers.js:109-121 | a time is rejected exactly when the input is falsy, the hour after the pm shift is above 23, the minute or second is above 59, or the millisecond field has d > 3 digits and is above 999 * 10^(d-3) |
| Parsers.TimeValue | parsers.js:116-127 | an accepted time has valid fields and a scaled millisecond field of at most 999, and is hour, minute and second combined, with the time-zone offset added to the minutes, plus the scaled millisecond field, fraction included |
| Parsers.TimeOfJoinedFields | parsers.js:101-102 | one to four valid fields, written with a separator, parse as that time of day, missing fields being zero |
| Parsers.TimeRoundTrip | parsers.js:109-127 | writing a valid h:m:s:ms and parsing it gives that time |
| Parsers.TimeWithFraction | parsers.js:116-121 | seconds with a decimal fraction: the fraction's digits form the millisecond field, scaled to three digits before the point with the rest kept as a fraction; rejected exactly when that is above 999 |
| Parsers.TimeOfDayDecodes | parsers.js:125 | removing the offset from an accepted time gives back hour, minute, second and millisecond by division |
| Parsers.TimeExtraFieldsIgnored | parsers.js:112-125 | fields after the fourth do not change the result |
| Parsers.TimeExampleHourMinute | parsers.js:101-102 | "13" is 13:00 and "10:30" is 10:30 |
| Parsers.TimeExampleRejected | parsers.js:120-121 | "25:00" is rejected |
| Parsers.TimeExamplePm | parsers.js:111-114 | "1pm" is 13:00 |
| Parsers.TimeExampleMilliseconds | parsers.js:106 | "14 32 14.587" is 14:32:14.587 |
| Parsers.TimeExampleLongMilliseconds | parsers.js:116-118 | "14:32:14.58712" gives 587.12 milliseconds |
| Parsers.TimeExampleLongMillisecondsRejected | parsers.js:116-121 | "0:0:0.9991" scales to 999.1 milliseconds and is rejected |
| Parsers.TwelvePmRejected | parsers.js:113-114 | as written, "12pm" becomes hour 24 and is rejected |
| Parsers.NoonParsesAsTwelve | parsers.js:113-114 | with the noon rule, "12pm" is 12:00 |
| Parsers.NoonFixAgrees | parsers.js:113-114 | the noon rule changes nothing except a pm time whose hour field is 12 |
| Arrays.TypeTag | arrays.js:29-39 | the type name the comparator uses, null's name depending on the direction; stated by `TypeTagOrder` |
| Arrays.Rank | arrays.js:29-39 | the group rank of a value; stated by `TypeTagOrder` |
| Arrays.Compare | arrays.js:29-50 | the comparator; no contract of its own, stated by `CompareMeaning`, `CompareAntisymmetric`, `CompareTransitive` and `CompareZero` |
| Arrays.TypeTagOrder | arrays.js:29-39 | the type names compare like their group ranks: boolean < number < string, with null's tag after all three ascending and before all three descending (the descending comparator reverses it, so nulls still sort last) |
| Arrays.CompareMeaning | arrays.js:31-50 | the comparator orders by type group, then by the (case-folded) value; nulls go last both ways; descending reverses the non-null order |
| Arrays.CompareAntisymmetric | arrays.js:31-50 | compare(a, b) = -compare(b, a) |
| Arrays.CompareTransitive | arrays.js:31-50 | "not after" is transitive, so the comparator is a total preorder |
| Arrays.CompareZero | arrays.js:42-49 | two values compare equal exactly when their folded values are equal |
| Arrays.Insert | arrays.js:51 | inserting into a sorted list gives a sorted list with one more occurrence of the element |
| Arrays.SortByType | arrays.js:19-52 | the result is a permutation of the array, sorted under the comparator |
| Arrays.FirstIndex | arrays.js:73-81 | the index found is the first that passes, and no index passes when none is found |
| Arrays.FirstOrDefaultOf | arrays.js:69-92 | falsy filter: the first element or null; callback: the first element it returns exactly `true` for, or null; any other value: that value if present, else null |
| Arrays.FirstOrDefault | arrays.js:54-93 | the scanning loops compute `FirstOrDefaultOf` |
| Arrays.Reversed | arrays.js:110 | the reversed copy has the same length, with element i taken from the other end |
| Arrays.LastOrDefaultOf | arrays.js:110-111 | `firstOrDefault` on the reversed copy; stated by `LastOrDefaultIsLast` and `LastOfReversedIsFirst` |
| Arrays.LastOrDefaultIsLast | arrays.js:95-112 | falsy filter: the last element; callback: the last selected element or null; value: that value if present |
| Arrays.LastOfReversedIsFirst | arrays.js:110-111 | lastOrDefault of the reversed array is firstOrDefault of the array |
| Arrays.FirstNonNullIsExtreme | arrays.js:120-121 | in a sorted list the first non-null element is not after any other non-null element; the result is null only when all elements are null |
| Arrays.MinOrMax | arrays.js:114-122 | the shared `minOrMax`; stated by `MinIsLeast`, `MaxIsGreatest` and `FirstNonNullIsExtreme` |
| Arrays.MinIsLeast | arrays.js:141-157 | min is null exactly when no candidate is non-null; otherwise it is a candidate not after any non-null candidate |
| Arrays.MaxIsGreatest | arrays.js:124-140 | max is null exactly when no candidate is non-null; otherwise it is a candidate no non-null candidate is after |
| Arrays.DedupFrom | arrays.js:170-184 | the kept elements of the loop with `prev`; stated by `DedupStep`, `DedupFromSubset`, `DedupFromCovers` and `DedupFromSorted` |
| Arrays.DistinctOf | arrays.js:166-185 | the sorted array, deduplicated; stated by `DistinctProperties` and `DistinctSameElements` |
| Arrays.Distinct | arrays.js:159-185 | the sort and then the loop compute `DistinctOf` |
| Arrays.KeepFirstOfEach | arrays.js:170-184 | the loop with its `prev` variable computes the kept elements |
| Arrays.DedupStep | arrays.js:173-182 | an element is kept exactly when its folded value differs from the last kept one |
| Arrays.DedupFromSubset | arrays.js:170-184 | the kept elements are a sub-multiset of the input |
| Arrays.DedupFromCovers | arrays.js:170-184 | every input element has a kept element with the same folded value (or matches `prev`) |
| Arrays.DedupFromSorted | arrays.js:170-184 | from a sorted list, the kept elements are strictly sorted and after `prev` |
| Arrays.DistinctProperties | arrays.js:159-185 | distinct is strictly sorted (no two elements compare equal), drawn from the input, and has an equal element for every input element |
| Arrays.DistinctSameElements | arrays.js:159-185 | case-sensitively, distinct holds exactly the values that occur, each once |
| Arrays.Union | arrays.js:195-197 | distinct of the concatenation with the other array; stated by `UnionIsDistinctOfConcat` and `UnionProperties` |
| Arrays.UnionIsDistinctOfConcat | arrays.js:195-197 | case-sensitively, union is distinct of the concatenation |
| Arrays.UnionProperties | arrays.js:187-198 | union is strictly sorted, drawn from both arrays, and covers every element of both by folded value |
| Arrays.Zip | arrays.js:200-217 | null without both an array and a callback; otherwise the callback applied pairwise, up to the shorter length |
| Arrays.NumbersOf | arrays.js:219-231 | numericOps hands on no more values than the array has |
| Arrays.NumbersOfSelects | arrays.js:225-230 | n is handed on exactly when Num(n) is in the array and passes the filter |
| Arrays.NumbersOfAppend | arrays.js:226-230 | numericOps over a concatenation is numericOps over each part |
| Arrays.Sum | arrays.js:233-249 | the accumulating loop gives the total of the qualifying numbers |
| Arrays.SumProperties | arrays.js:246-248 | the sum is 0 without qualifying numbers, and additive over concatenation |
| Arrays.Average | arrays.js:250-266 | null when no number qualifies, else their sum divided by their count |
| Arrays.TakeWhile | arrays.js:268-287 | null without a callback; otherwise the longest prefix on which `filterFn(element, index)` is truthy |
| Arrays.DictionaryOf | arrays.js:305-314 | the object the loop fills; stated by `DictionaryHasKey` and `DictionaryLastWins` |
| Arrays.DictionaryHasKey | arrays.js:305-314 | a property is present exactly when some element's non-null key names it |
| Arrays.DictionaryLastWins | arrays.js:305-314 | a property holds the value (or key) of the last element whose key names it |
| Arrays.ToDictionary | arrays.js:288-316 | null without a key selector; otherwise the loop builds `DictionaryOf` |
| Arrays.Contains | arrays.js:317-322 | true exactly when the item occurs in the array |
| StepTimer.Times | stepTimer.js:139 | the durations of the steps, in order |
| StepTimer.TimeSumAppend | stepTimer.js:79 | appending a step adds its duration to the sum of durations |
| StepTimer.Timer.constructor | stepTimer.js:18-21 | both clocks start now, with no steps and the format "mm:ss.fff" |
| StepTimer.Timer.AddStep | stepTimer.js:74-79 | appends the time since the last step (or start), read at the first clock read, and restarts the step clock at the second read; the durations plus the ticks between each step's two reads add up to the elapsed time |
| StepTimer.Timer.Reset | stepTimer.js:112-117 | no steps, and both clocks restart now; the format is kept |
| StepTimer.Timer.GetSteps | stepTimer.js:118-123 | returns the steps |
| StepTimer.Timer.GetTotalTime | stepTimer.js:124-141 | the sum of the durations, or the time since creation or reset; under the invariant, the sum is the time up to the last step less the ticks that fell between the two clock reads of each step |
| StepTimer.Timer.GetFormat | stepTimer.js:101-106 | returns the format |
| StepTimer.Timer.SetFormat | stepTimer.js:107-111 | sets the format and changes nothing else |
| StepTimer.StepsAreACopy | stepTimer.js:118-123 | steps read before a later `addStep` are unchanged by it, and the new step comes last |
| StepTimer.FormatRoundTrip | stepTimer.js:101-111 | `set_format(v)` followed by `get_format()` gives v |
| NoRequire.DepExports | noRequire.js:65 | the callback's arguments are the registered exports of the dependencies, in order |
| NoRequire.MissingDependency | noRequire.js:60 | true exactly when some dependency is not registered with a truthy entry |
| NoRequire.AnonymousRejected | noRequire.js:36-40 | a non-string or empty name throws "name required when using noRequire." and registers nothing |
| NoRequire.DuplicateRejected | noRequire.js:43-47 | a name already registered throws "<name> already loaded." and keeps the registry |
| NoRequire.MissingDependencyRejected | noRequire.js:58-64 | a dependency that is not registered throws "<name> dependencies must be loaded first." |
| NoRequire.NonArrayIsCallback | noRequire.js:50-54 | a second argument that is not an array is the callback, with no dependencies |
| NoRequire.SuccessRegistersName | noRequire.js:67-70 | a call that does not throw has a new name, registered dependencies and a callback that returned, and stores its result (or `true` if that is falsy) under the name only; a call that throws leaves the registry as it was |
| NoRequire.DefineStep | noRequire.js:19-71 | one `define` call on the registry; stated by `AnonymousRejected`, `DuplicateRejected`, `MissingDependencyRejected`, `NonArrayIsCallback` and `SuccessRegistersName` |
| NoRequire.RunModule | noRequire.js:56-70 | the dependency check, the callback call and the store; stated by `MissingDependencyRejected` and `SuccessRegistersName` |
| NoRequire.Store | noRequire.js:67-70 | the result, or `true` when it is falsy, stored under the name; stated by `SuccessRegistersName` and `RegisterKeepsInvariant` |
| NoRequire.Registry.constructor | noRequire.js:18 | the registry starts empty |
| NoRequire.Registry.Define | noRequire.js:19-71 | `define` as the source runs it computes `DefineStep`, and keeps every entry truthy and every module registered after its dependencies |
| NoRequire.Registry.Run | noRequire.js:56-70 | the dependency check, the callback call and the store compute `RunModule` and keep the registry invariant |
| NoRequire.RegisterKeepsInvariant | noRequire.js:67-70 | storing a truthy export for a new module whose dependencies are registered keeps the registry invariant |
| NoRequire.RegisterAfterDependencies | noRequire.js:58-67 | a module registered once its dependencies are keeps "dependencies first" true |
| Strings.Repeat | strings.js:13-14 | `repeat`; no contract of its own, stated by `RepeatMeaning` and `RepeatedBlocks` |
| Strings.Repeated | strings.js:13-14 | the repetition has n times the length of s |
| Strings.RepeatedBlock | strings.js:13-14 | every block of the repetition as long as s is s |
| Strings.JoinOfEmpties | strings.js:14 | joining n+1 empty strings with s is s repeated n times |
| Strings.RepeatMeaning | strings.js:13-14 | `repeat(num)` throws exactly when `num + 1` is not a valid array length; -1 gives ""; otherwise s repeated num times |
| Strings.RepeatedBlocks | strings.js:13-14 | the result of repeat consists of num blocks, each equal to s |
| Strings.In | strings.js:50-65 | `in`; stated by `InWithoutValues`, `InOfList`, `InIsMembership`, `InFalseFlag` and `InTrueFlag` |
| Strings.InMatch | strings.js:64 | the match test of one argument under the case rule; stated by `InTrueFlag` and `InFalseFlag` |
| Strings.InWithoutValues | strings.js:51-52 | `in()` and `in(flag)` alone are false |
| Strings.InOfList | strings.js:53-65 | with the flag removed, `in` is whether some remaining value matches under the case rule |
| Strings.InIsMembership | strings.js:50-65 | without a leading boolean (and not a single number), `in` is strict membership of the string |
| Strings.InFalseFlag | strings.js:53-65 | `in(false, ...)` is strict membership among the rest |
| Strings.InTrueFlag | strings.js:64 | `in(true, ...)`: some remaining string, lower-cased, equals the receiver unchanged |
| Strings.InIgnoreCaseExampleFails | strings.js:38 | as written, "Hello".in(true, "hello", "world", "it's me") is false |
| Strings.InExamples | strings.js:36-40 | the other documented results of `in` |
| Strings.InCorrected | strings.js:32 | membership with the receiver also lower-cased under the true flag: both directions for each flag case |
| Strings.InCorrectedExample | strings.js:38 | with the correction, "Hello".in(true, "hello", ...) is true |
| Strings.ReplaceChar | strings.js:19-20 | the global replacement of one character: same length, each occurrence replaced, the rest kept |
| Strings.OpenQuotesFrom | strings.js:19-20 | the left-to-right scan puts the opening mark exactly where the quote follows whitespace or starts the text |
| Strings.Quotes | strings.js:19-20 | the two quote replacements for one quote character; stated by `QuotesMeaning` |
| Strings.QuotesMeaning | strings.js:19-20 | the quote becomes the opening mark at the start or after whitespace and the closing mark elsewhere; no quote is left; putting the quote back restores the text |
| Strings.DotRun | strings.js:21 | the leading run consists of dots and is maximal |
| Strings.CollapseDots | strings.js:21 | no three dots in a row remain; a leading run of three or more becomes "…"; shorter runs are kept; no longer than the input |
| Strings.CollapseDotsKeeps | strings.js:21 | text without three dots in a row is unchanged |
| Strings.CollapseDotsIdempotent | strings.js:21 | collapsing twice is collapsing once |
| Strings.CollapseDotsSplit | strings.js:21 | a character other than a dot splits the text into parts collapsed on their own |
| Strings.CollapseDotsRun | strings.js:21 | a run of n dots becomes "…" when n >= 3 and stays as it is otherwise |
| Strings.EnDashesFrom | strings.js:22 | the scan from position i keeps the length |
| Strings.EnDashed | strings.js:22 | the reference: a position holds an en dash exactly when a non-overlapping match replaces its hyphen |
| Strings.EnDashesFromAt | strings.js:22 | the left-to-right scan computes the reference |
| Strings.EnDashes | strings.js:22 | the en-dash replacement; stated by `EnDashesFromAt` and `EnDashesMeaning` |
| Strings.EnDashesMeaning | strings.js:22 | only hyphens between whitespace become en dashes, and turning en dashes back into hyphens restores the text |
| Strings.EnDashesExample | strings.js:22 | matches do not overlap: " - - " becomes " – - " |
| Strings.EmDashes | strings.js:23 | no longer than the input, and no characters beyond the input's and the em dash |
| Strings.ExpandEmDashesAppend | strings.js:23 | turning em dashes back into "--" distributes over concatenation |
| Strings.EmDashesRoundTrip | strings.js:23 | on text without em dashes, turning the em dashes back into "--" restores the text |
| Strings.EmDashesExample | strings.js:23 | "a--b--c" becomes "a—b--c" (the match consumes the "b") |
| Strings.EmDashesNeedWords | strings.js:23 | "a -- b" is unchanged: whitespace around "--" prevents the match |
| Strings.BlankRun | strings.js:25 | the run of spaces and tabs is maximal |
| Strings.NonBlankSkip | strings.js:25 | dropping leading blanks does not change the non-blank characters |
| Strings.TrimFrom | strings.js:25 | after a newline no space or tab remains; the first character is kept; the non-blank characters are unchanged |
| Strings.TrimLineStarts | strings.js:25 | no line starts with a space or tab; the non-blank characters are unchanged |
| Strings.TrimFromKeeps | strings.js:25 | text with no blank after a newline is unchanged |
| Strings.TrimLineStartsKeeps | strings.js:25 | text whose lines start non-blank is unchanged |
| Strings.TrimFromSplit | strings.js:25 | the first line is kept whole, blanks inside it included, and the rest is trimmed line by line |
| Strings.TrimLineStartsLine | strings.js:25 | a single line loses exactly its leading spaces and tabs, and none inside it |
| Strings.TrimLineStartsSplit | strings.js:25 | each line of the text is trimmed on its own |
| Strings.Fancify | strings.js:16-27 | the replacements in the source's order; stated by `FancifyMeaning` |
| Strings.FancifyMeaning | strings.js:16-27 | the fancified text has no straight quote left and no line starting with a space or tab |
| Numbers.NumberIn | numbers.js:25-29 | `Number.prototype.in`; stated by `NumberInIsMembership` and `SingleNumberArgument` |
| Numbers.NumberInIsMembership | numbers.js:25-29 | except for a single numeric argument, `in` is strict membership (no arguments give false) |
| Numbers.NumberInExamples | numbers.js:18-19 | 5.in(5, 10, 15, 20) is true; 5.in("5", "10", "15") is false |
| Numbers.SingleNumberArgument | numbers.js:25 | as written, x.in(n) is false for every valid length n, even n = x, and throws a RangeError for negative n |
| Numbers.NumberInCorrected | numbers.js:14 | true exactly when some argument is strictly equal to the number |
| Numbers.NumberInCorrectedAgrees | numbers.js:25-29 | the correction agrees with the source except on a single numeric argument, where x.in(x) becomes true |
| JsValues.ArrayFromArguments | strings.js:50 | the arguments as an array, except that a single number n gives n holes, or a RangeError when it is not a valid length |
| JsValues.SomePresent | numbers.js:29 | `some` skips holes: true exactly when a present element passes |

## Left out

- I/O and environment:
  - The clock, today's date and the time-zone offset are parameters, one per read of the clock. `addStep` reads the clock twice, so its method takes two readings; the ticks between them belong to no step and are tracked by a ghost counter.
  - The `Date` objects built from the parsed fields are not modelled: no month or day rollover, no local-time conversion.
  - `Date` values inside arrays (their type group and their `getTime` comparison in `distinct`) are left out.
- Numbers are integers, except in `timeParser`, whose field array holds exact reals.
  - Fractions elsewhere, `NaN` and the infinities are not modelled.
  - `timeParser`: the floating-point rounding of `Math.pow(10, 3 - d)` and of the products is not modelled; the scaling is exact division.
  - `average` is the exact quotient, standing in for the floating-point division.
- `undefined` is represented by `Null` wherever the code only asks whether a value is null, undefined or falsy.
  - The rank of `undefined` after everything else in `sortByType` is not modelled separately.
  - Objects and functions as array elements are left out, as is the `typeof e !== "object"` test in `minOrMax`.
- `toLocaleLowerCase` and `toLowerCase` are modelled as ASCII lower-casing. Strings are sequences of characters, not UTF-16 code units.
- Array property names:
  - `amdList` and the object `toDictionary` builds are arrays in the source. The array's own `length` and its inherited names (`push`, …) are not modelled.
  - Keys are `String(key)` of primitive keys.
- Callbacks are total functions of their arguments. A callback that throws is modelled only in `define`, where the source behaviour depends on it. Re-entrant callbacks that change the array being walked are not modelled.
- `formatTime` and `toString` of the step timer are not part of this model.
- Parsers.ParseTime: the `Date` built from the count is not modelled, so its truncation of the fraction toward zero and its range limit of 8.64e15 milliseconds are not either.
- Parsers.FilledArray: non-integer and non-number arguments to `Array(elements)` and the engine's limit on the argument count of `Array.apply` are not modelled.
- Strings.RepeatMeaning: the engine's maximum string length is not modelled. Only the `Array(num + 1)` length check throws. A non-integer or non-number `num` is not modelled.
- StepTimer.Timer.AddStep: the two clock reads are separate parameters, and the ticks between them are counted in the ghost `gap`, not in any step. The sum of the step durations is therefore the elapsed time less the total of those ticks. The model does not assume a monotone clock, so it does not state that the sum is at most the elapsed time.
- Arrays.SortByType: stability is built into the model (an insertion sort) but not stated as a property.
- Arrays.UnionProperties: with `ignoreCase` true, only sortedness, provenance and coverage by folded value are proved. The exact element kept from each case-insensitive group is not stated.
- Strings.EmDashes: stated by its round trip, its examples and its character and length bounds, rather than by a pointwise reference definition.

## Findings

| source | as written | input that shows it | evidently intended | confidence | as-written member | corrected member |
|---|---|---|---|---|---|---|
| parsers.js:113-114 | every pm hour gets 12 added | "12pm" becomes hour 24 and is rejected | 12pm is noon (12:00) | not executed | Parsers.TwelvePmRejected | Parsers.NoonParsesAsTwelve |
| parsers.js:74 | the month check `m > 12` is on the 0-based month | "13/1" is accepted as month index 12, which `new Date` rolls over into January of the next year | months 1-12 only (`m > 11`) | not executed | Parsers.DateBoundsAccepted | Parsers.MonthCheckedRejectsThirteen |
| strings.js:64 | with ignoreCase, only the argument is lower-cased | "Hello".in(true, "hello", "world", "it's me") is false, where the documentation says true | both sides lower-cased | not executed | Strings.InIgnoreCaseExampleFails | Strings.InCorrectedExample |
| numbers.js:25 | `Array.apply(null, arguments)` treats a single numeric argument as an array length | (5).in(5) is false, and (5).in(-1) throws a RangeError | (5).in(5) is true | not executed | Numbers.SingleNumberArgument | Numbers.NumberInCorrectedAgrees |
