# King Shan orbit travel: a verified model of the trip planner

King Shan travels from Silk Drob to Hallitharam. Two orbits connect the places:

- Orbit1: 18 megamiles and 20 craters.
- Orbit2: 20 megamiles and 10 craters.

Three vehicles are available:

| vehicle | top speed (megamiles/hour) | minutes per crater |
|---|---|---|
| Bike | 10 | 2 |
| Tuktuk | 12 | 1 |
| Car | 20 | 3 |

How the weather affects the trip:

- Sunny removes 10% of the craters.
- Rainy adds 20%, and the bike cannot be used.
- Windy changes nothing.

The user gives the weather and one traffic speed limit per orbit. The planner works in steps:

1. It validates both inputs.
2. It writes the limits into the orbit objects.
3. It scores every suitable vehicle on every orbit sequence. The time is the distance at the lesser of the vehicle's top speed and the orbit's limit, plus the weather-adjusted crater count times the vehicle's minutes per crater.
4. It answers with the first quickest pair, for example `Vehicle Tuktuk on Orbit2`.

The Dafny modules follow the Java packages:

| module | file | models |
|---|---|---|
| `Enums` | `WeatherCondition.dfy` | the weather enum: `of`, `contains`, display names |
| `ValidationUtils` | `ValidationUtils.dfy` | null-safe empty and blank tests |
| `Initializer` | `TrafficInitializer.dfy` | the hard-coded catalogues of weathers, vehicles and orbits |
| `Helper` | `TrafficHelper.dfy` | speed parsing, the lookups, the time formula, scoring, the optimum, the output text |
| `Validator` | `TrafficValidator.dfy` | the validation message |
| `Finder` | `TrafficFinder.dfy` | the whole request: validate, write the limits, score, pick, render |

Supporting modules:

- `Model` holds the entities.
  - `Orbit` is a class: the speed limit is the one field the program changes.
  - Vehicles, weathers and scored candidates are datatypes.
  - The speed-limit map is a sequence of entries in the iteration order of the application's `LinkedHashMap`.
- `JavaStrings` gives the Java library behaviour the core relies on: `equalsIgnoreCase`, `trim`, `Integer.parseInt`, `List.toString`.
- `Wrappers` gives `Option` (Java `null` is `None`) and `Result`.
- `Sequences` gives the subsequence order used for filters.
- `Scenario` proves what the reference request answers.

Inputs in Sunny weather:

- Orbit1 limited to 5.
- Orbit2 limited to 6.

For this request the model is proved to answer `Vehicle Tuktuk on Orbit2`, at 209 minutes.

Java `int` arithmetic is modelled on unbounded integers. The Java-specific behaviour that can be observed is written out:

- Truncating division (`JavaDiv`).
- `Math.round` on the adjusted crater count (`ActualNumberOfCraters`).
- The `Integer.MAX_VALUE` start of the minimum search.
- The range and syntax of `Integer.parseInt`.

## Model

Paths are relative to the repository root, under `src/main/java/za/co/titandynamix/`.

| member | source | states |
|---|---|---|
| Enums.WeatherCondition.Ordinal | src/main/java/za/co/titandynamix/enums/WeatherCondition.java:12-29 | each constant's declared position (SUNNY 0, RAINY 1, WINDY 2) indexes `values()` back to that constant |
| Enums.WeatherCondition.ToString | src/main/java/za/co/titandynamix/enums/WeatherCondition.java:52-61 | each constant's display name is the one it is declared with: "Sunny", "Rainy", "Windy" (no contract of its own; `Enums.ToStringDistinctIgnoringCase` states that the names differ ignoring case) |
| Enums.Of | src/main/java/za/co/titandynamix/enums/WeatherCondition.java:40-45 | `of(i)` fails exactly when `i` is negative, with the message "Invalid value for WeatherCondition: " and the number, and otherwise returns the constant whose ordinal is `i` |
| Enums.OfOrdinal | src/main/java/za/co/titandynamix/enums/WeatherCondition.java:40-45 | `of(c.ordinal())` is `c` for every constant |
| Enums.OfNegative | src/main/java/za/co/titandynamix/enums/WeatherCondition.java:41-42 | `of(-1)` throws with the text "Invalid value for WeatherCondition: -1" |
| Enums.AnyMatch | src/main/java/za/co/titandynamix/enums/WeatherCondition.java:48-49 | true exactly when some listed constant's display name equals the text, ignoring case |
| Enums.Contains | src/main/java/za/co/titandynamix/enums/WeatherCondition.java:47-50 | `contains` is true exactly when the text is non-null and equals some constant's display name, ignoring case |
| Enums.ToStringDistinctIgnoringCase | src/main/java/za/co/titandynamix/enums/WeatherCondition.java:17-29 | no text equals the display names of two different constants ignoring case, so at most one weather matches |
| Enums.ContainsIgnoresCase | src/main/java/za/co/titandynamix/enums/WeatherCondition.java:47-50 | "Sunny", "sunny", "SUNNY", "rainy" and "WiNdY" are accepted |
| Enums.ContainsRejectsOthers | src/main/java/za/co/titandynamix/enums/WeatherCondition.java:47-50 | null, "", "Sunny " and "Snowy" are rejected |
| ValidationUtils.IsEmptyObject | src/main/java/za/co/titandynamix/utils/ValidationUtils.java:22-24 | `isEmpty(Object)` holds exactly for null (a predicate with no contract of its own; its partner is `IsNotEmptyObject`) |
| ValidationUtils.IsEmptyString | src/main/java/za/co/titandynamix/utils/ValidationUtils.java:30-32 | `isEmpty(String)` holds exactly for null or the empty string (a predicate; its partners are `IsNotEmptyString` and `BlankVersusEmpty`) |
| ValidationUtils.IsEmptyCollection | src/main/java/za/co/titandynamix/utils/ValidationUtils.java:46-48 | `isEmpty(Collection)` holds exactly for null or a list of size zero (a predicate; its partner is `IsNotEmptyCollection`) |
| ValidationUtils.IsNotEmptyObject | src/main/java/za/co/titandynamix/utils/ValidationUtils.java:22-28 | `isNotEmpty(Object)` is the negation of `isEmpty(Object)`, which holds only for null |
| ValidationUtils.IsNotEmptyString | src/main/java/za/co/titandynamix/utils/ValidationUtils.java:30-36 | `isNotEmpty(String)` is the negation of "null or of length zero" |
| ValidationUtils.IsBlank | src/main/java/za/co/titandynamix/utils/ValidationUtils.java:38-40 | a string is blank exactly when it is null or every character is at most U+0020, which is what `trim()` removes |
| ValidationUtils.IsNotBlank | src/main/java/za/co/titandynamix/utils/ValidationUtils.java:42-44 | `isNotBlank` is the negation of `isBlank` |
| ValidationUtils.IsNotEmptyCollection | src/main/java/za/co/titandynamix/utils/ValidationUtils.java:46-52 | `isNotEmpty(Collection)` is the negation of "null or of size zero" |
| ValidationUtils.GetList | src/main/java/za/co/titandynamix/utils/ValidationUtils.java:60-72 | `getList` returns its arguments in order, with the same length |
| ValidationUtils.BlankVersusEmpty | src/main/java/za/co/titandynamix/utils/ValidationUtils.java:30-44 | null and "" are blank; " " is blank but not empty; " \t\n " is blank; " x " is not blank |
| ValidationUtils.VisibleHeadIsNotBlank | src/main/java/za/co/titandynamix/utils/ValidationUtils.java:42-44 | a string whose first character survives `trim` is not blank |
| Initializer.VehicleNames | src/main/java/za/co/titandynamix/initializer/TrafficInitializer.java:63 | the name projection keeps the length, and position i holds vehicle i's name |
| Initializer.AllVehicles | src/main/java/za/co/titandynamix/initializer/TrafficInitializer.java:79-85 | Bike (10, 2), Tuktuk (12, 1) and Car (20, 3) in tie-break order (a constant table; its facts are `VehicleCatalogueFacts`) |
| Initializer.AllWeatherDetails | src/main/java/za/co/titandynamix/initializer/TrafficInitializer.java:49-55 | Sunny -10% with all vehicles, Rainy +20% with Tuktuk and Car, Windy 0% with all vehicle names (a constant table; its facts are `WeatherCatalogueFacts`) |
| Initializer.OrbitCatalogue | src/main/java/za/co/titandynamix/initializer/TrafficInitializer.java:101-108 | Orbit1 (18, 20) and Orbit2 (20, 10), both Silk Drob to Hallitharam, limit -1 (a constant table; `GetAllOrbits` builds objects holding exactly these rows) |
| Initializer.AllVehicleNames | src/main/java/za/co/titandynamix/initializer/TrafficInitializer.java:62-64 | `getAllVehicleNames` lists the catalogue's names in catalogue order |
| Initializer.GetAllOrbits | src/main/java/za/co/titandynamix/initializer/TrafficInitializer.java:101-108 | every call builds new, pairwise distinct orbit objects, one per catalogue row, holding that row's values (speed limit -1) |
| Initializer.WeatherCatalogueFacts | src/main/java/za/co/titandynamix/initializer/TrafficInitializer.java:49-55 | one weather per condition in declaration order; every crater change is at least -100%; every suitable name is a catalogue vehicle; Windy offers Bike, Tuktuk and Car |
| Initializer.VehicleCatalogueFacts | src/main/java/za/co/titandynamix/initializer/TrafficInitializer.java:79-85 | vehicle names are distinct, top speeds are positive, crossing times are not negative |
| Model.Orbit.constructor | src/main/java/za/co/titandynamix/model/Orbit.java:15-38 | a new orbit holds exactly the name, places, distance, crater count and speed limit it is built with |
| Model.SnapshotValues | src/main/java/za/co/titandynamix/helper/TrafficHelper.java:154-164 | entry i of the snapshot is orbit i's current value |
| Model.Keys | src/main/java/za/co/titandynamix/validator/TrafficValidator.java:50 | `keySet()` lists the entry keys in iteration order |
| Model.Lookup | src/main/java/za/co/titandynamix/finder/TrafficFinder.java:66 | `get` on a present key returns a value stored under that key |
| Model.LookupFindsEntry | src/main/java/za/co/titandynamix/finder/TrafficFinder.java:66 | when keys are distinct, as in a Java map, `get` returns exactly the value stored with the key |
| JavaStrings.EqualsIgnoreCase | src/main/java/za/co/titandynamix/helper/TrafficHelper.java:63 | `String.equalsIgnoreCase` on non-null text up to ASCII case (no contract of its own; stated by `EqualsIgnoreCasePointwise`, `EqualsIgnoreCaseSymmetric` and `EqualsIgnoreCaseReflexive`) |
| JavaStrings.Trim | src/main/java/za/co/titandynamix/utils/ValidationUtils.java:39 | `trim()` is empty exactly when every character is at most U+0020, and otherwise starts and ends with a character above U+0020 |
| JavaStrings.TrimLeading | src/main/java/za/co/titandynamix/utils/ValidationUtils.java:39 | `trim()` at the front: the result is a suffix, every character removed is at most U+0020, and the result is empty or starts above U+0020 |
| JavaStrings.TrimTrailing | src/main/java/za/co/titandynamix/utils/ValidationUtils.java:39 | `trim()` at the back: the result is a prefix, every character removed is at most U+0020, and the result is empty or ends above U+0020 |
| JavaStrings.ParseInt | src/main/java/za/co/titandynamix/helper/TrafficHelper.java:49 | `Integer.parseInt` yields only values in int range, and a negative value only from text starting with a minus sign; exactly which texts it accepts, and with which value, is `ParseIntExact`; the `ParseIntRejects…` lemmas name the grounds for rejection |
| JavaStrings.ParseIntRejectsStrayCharacter | src/main/java/za/co/titandynamix/helper/TrafficHelper.java:49-51 | any character that is not an ASCII digit, other than a leading sign, makes `parseInt` fail |
| JavaStrings.ParseIntRejectsNoDigits | src/main/java/za/co/titandynamix/helper/TrafficHelper.java:49-51 | the empty text and a bare sign make `parseInt` fail |
| JavaStrings.ParseIntRejectsOutOfRange | src/main/java/za/co/titandynamix/helper/TrafficHelper.java:49-51 | well-formed digits whose signed value lies outside -2147483648 .. 2147483647 make `parseInt` fail |
| JavaStrings.ParseIntCanonical | src/main/java/za/co/titandynamix/helper/TrafficHelper.java:49 | every accepted text, with its '+' sign and leading zeros dropped and "-0" read as "0", is exactly the decimal text of the value read |
| JavaStrings.ParseIntAcceptsWellFormed | src/main/java/za/co/titandynamix/helper/TrafficHelper.java:49 | every text made of an optional sign and one or more digits whose canonical form is the decimal text of an int is accepted with that int, whatever its '+' sign and leading zeros ("+05" reads as 5) |
| JavaStrings.ParseIntExact | src/main/java/za/co/titandynamix/helper/TrafficHelper.java:49 | `parseInt` reads `v` if and only if the text is an optional sign and one or more digits, `v` is in int range, and the text's canonical form is the decimal text of `v` |
| JavaStrings.IntToStringHead | src/main/java/za/co/titandynamix/enums/WeatherCondition.java:42 | the decimal text of an int is non-empty and starts with '-' exactly for a negative value, followed by the magnitude's digits |
| JavaStrings.IntToString | src/main/java/za/co/titandynamix/enums/WeatherCondition.java:42 | the decimal text of an int, as string concatenation writes it (no contract of its own; its partner is `IntToStringRoundTrip`) |
| JavaStrings.ListToString | src/main/java/za/co/titandynamix/validator/TrafficValidator.java:53-54 | the `[a, b]` text that appending a list writes (no contract of its own; its partner is `ListToStringListsEveryItem`) |
| JavaStrings.JavaString | src/main/java/za/co/titandynamix/validator/TrafficValidator.java:44 | `StringBuilder.append` writes a null text as "null" and any other text as itself (no contract of its own; stated by `Validator.WeatherTextQuoted` and `Validator.BothFailuresExample`) |
| JavaStrings.EqualsIgnoreCasePointwise | src/main/java/za/co/titandynamix/helper/TrafficHelper.java:63 | `equalsIgnoreCase` holds exactly when the lengths agree and every character pair agrees after lower-casing |
| JavaStrings.EqualsIgnoreCaseSymmetric | src/main/java/za/co/titandynamix/helper/TrafficHelper.java:63 | the comparison does not depend on which string is the receiver |
| JavaStrings.EqualsIgnoreCaseReflexive | src/main/java/za/co/titandynamix/helper/TrafficHelper.java:92-93 | every string matches itself ignoring case |
| JavaStrings.IntToStringRoundTrip | src/main/java/za/co/titandynamix/helper/TrafficHelper.java:49 | `Integer.parseInt` reads back every int printed in decimal |
| JavaStrings.ListToStringListsEveryItem | src/main/java/za/co/titandynamix/validator/TrafficValidator.java:53-54 | the `[a, b]` rendering of a list contains every item |
| Helper.ParseOrbitSpeed | src/main/java/za/co/titandynamix/helper/TrafficHelper.java:47-53 | the result is -1 or the parsed int, and it is the parsed int whenever `Integer.parseInt` succeeds |
| Helper.ParseOrbitSpeedAcceptsWellFormed | src/main/java/za/co/titandynamix/helper/TrafficHelper.java:47-53 | any well-formed signed decimal text whose canonical form prints an int gives that int, not -1 |
| Helper.ParseOrbitSpeedRoundTrip | src/main/java/za/co/titandynamix/helper/TrafficHelper.java:47-53 | every int, printed in decimal, is parsed back as itself |
| Helper.ParseOrbitSpeedAccepts | src/main/java/za/co/titandynamix/helper/TrafficHelper.java:47-53 | "6", "+5", "007", "-12" and "+05" give 6, 5, 7, -12 and 5 |
| Helper.ParseOrbitSpeedRejects | src/main/java/za/co/titandynamix/helper/TrafficHelper.java:47-53 | null, "", "-", "5.5" and " 5" give -1 |
| Helper.ParseOrbitSpeedOverflow | src/main/java/za/co/titandynamix/helper/TrafficHelper.java:47-53 | "2147483648", one past `Integer.MAX_VALUE`, gives -1 |
| Helper.ParseOrbitSpeedRejectsMalformed | src/main/java/za/co/titandynamix/helper/TrafficHelper.java:47-53 | any text with a character that is neither a digit nor the leading sign gives -1 |
| Helper.ParseOrbitSpeedCanonical | src/main/java/za/co/titandynamix/helper/TrafficHelper.java:47-53 | for any text `parseInt` accepts, the speed returned is the value whose decimal text is that text without a '+' sign, leading zeros or "-0" |
| Helper.FindWeather | src/main/java/za/co/titandynamix/helper/TrafficHelper.java:61-65 | a weather is found exactly when one matches the text ignoring case, and the one found is listed and matches |
| Helper.WeatherLookupAgreesWithContains | src/main/java/za/co/titandynamix/helper/TrafficHelper.java:61-65 | the lookup succeeds exactly when `WeatherCondition.contains` accepts the text, and at most one catalogue weather matches |
| Helper.GetWeatherByType | src/main/java/za/co/titandynamix/helper/TrafficHelper.java:61-65 | the result is non-null exactly for texts `contains` accepts; it is a catalogue weather matching the text; it is the only such weather, so `findAny` on the parallel stream has one possible answer |
| Helper.FilterByName | src/main/java/za/co/titandynamix/helper/TrafficHelper.java:74-76 | the filter keeps exactly the vehicles whose name is listed, in their original order |
| Helper.FilterByNameCounts | src/main/java/za/co/titandynamix/helper/TrafficHelper.java:74-76 | each vehicle whose name is listed is kept as often as it occurs, and every other vehicle not at all |
| Helper.GetSuitableVehicles | src/main/java/za/co/titandynamix/helper/TrafficHelper.java:73-77 | the result is a subsequence of the catalogue and holds exactly the catalogue vehicles whose name is listed |
| Helper.SuitableVehiclesFollowCatalogue | src/main/java/za/co/titandynamix/helper/TrafficHelper.java:73-77 | the names ["Car", "Bike"] give [Bike, Car]: catalogue order, not list order |
| Helper.RainyExcludesBike | src/main/java/za/co/titandynamix/helper/TrafficHelper.java:73-77 | the Rainy weather's vehicles are Tuktuk and Car |
| Helper.CatalogueNamesKeepAll | src/main/java/za/co/titandynamix/helper/TrafficHelper.java:73-77 | a list naming Bike, Tuktuk and Car keeps the whole catalogue |
| Helper.SunnyAndWindyOfferAll | src/main/java/za/co/titandynamix/helper/TrafficHelper.java:73-77 | Sunny and Windy keep the whole catalogue |
| Helper.RouteSequences | src/main/java/za/co/titandynamix/helper/TrafficHelper.java:90-96 | every result is a singleton of an orbit that runs between the two places ignoring case, and every such orbit appears |
| Helper.MatchingRows | src/main/java/za/co/titandynamix/helper/TrafficHelper.java:92-93 | the rows kept are a subsequence, and exactly the rows whose source and destination match ignoring case |
| Helper.MatchingRowsCounts | src/main/java/za/co/titandynamix/helper/TrafficHelper.java:92-93 | each row running between the two places is kept as often as it occurs, and every other row not at all |
| Helper.RouteSequencesMatchRows | src/main/java/za/co/titandynamix/helper/TrafficHelper.java:90-96 | filtering orbit objects and filtering their values select the same rows in the same order |
| Helper.RouteSequencesDistinct | src/main/java/za/co/titandynamix/helper/TrafficHelper.java:90-96 | distinct orbit objects yield sequences whose orbits are distinct objects |
| Helper.GetOrbits | src/main/java/za/co/titandynamix/helper/TrafficHelper.java:90-96 | one new singleton sequence per catalogue orbit between the two places, in catalogue order, holding that orbit's values; different sequences hold different orbit objects |
| Helper.TotalDistance | src/main/java/za/co/titandynamix/helper/TrafficHelper.java:154-155 | the sum of the segment distances (no contract of its own; `TotalsNonNegative` and `Scenario.SingleOrbitTotals` state its properties) |
| Helper.TotalCraters | src/main/java/za/co/titandynamix/helper/TrafficHelper.java:158-159 | the sum of the segment crater counts (no contract of its own; `TotalsNonNegative` and `MoreCratersTotals` state its properties) |
| Helper.MinSpeedLimit | src/main/java/za/co/titandynamix/helper/TrafficHelper.java:162-164 | the least segment speed limit (no contract of its own; its partner is `MinSpeedLimitIsMinimum`) |
| Helper.ApplicableMaxSpeed | src/main/java/za/co/titandynamix/helper/TrafficHelper.java:167-173 | the lesser of the binding limit and the vehicle's top speed (no contract of its own; its partners are `ApplicableMaxSpeedBounds` and `ApplicableMaxSpeedPositive`) |
| Helper.CalculateOptimizedTraverseTime | src/main/java/za/co/titandynamix/helper/TrafficHelper.java:151-183 | distance × 60 divided with truncation by the applicable speed, plus the adjusted crater count times the minutes per crater (no contract of its own; its partners are `TraverseTimeNonNegative`, `FasterVehicleNeverSlower` and `MoreCratersNeverFaster`) |
| Helper.MinSpeedLimitIsMinimum | src/main/java/za/co/titandynamix/helper/TrafficHelper.java:162-164 | the binding limit is no greater than any segment's limit and equals one of them |
| Helper.TotalsNonNegative | src/main/java/za/co/titandynamix/helper/TrafficHelper.java:154-159 | non-negative segment distances and crater counts give non-negative totals |
| Helper.ApplicableMaxSpeedBounds | src/main/java/za/co/titandynamix/helper/TrafficHelper.java:173 | the applicable speed exceeds neither the vehicle's top speed nor any segment's limit, and equals one of them |
| Helper.ApplicableMaxSpeedPositive | src/main/java/za/co/titandynamix/helper/TrafficHelper.java:173 | when the limits and the top speed are at least 1, so is the applicable speed |
| Helper.ActualNumberOfCraters | src/main/java/za/co/titandynamix/helper/TrafficHelper.java:176 | the adjusted count is the integer nearest to craters × (100 + change) / 100, with halves rounded up as `Math.round` does |
| Helper.AdjustedCraterExamples | src/main/java/za/co/titandynamix/helper/TrafficHelper.java:176 | 20 craters at -10% give 18; 10 give 9; 10 at +20% give 12; 5 at -10% give 5 (4.5 rounds up); 15 at 0% give 15 |
| Helper.JavaDiv | src/main/java/za/co/titandynamix/helper/TrafficHelper.java:181 | Java's `/` on ints truncates toward zero: the remainder `a - q*b` is zero or has the dividend's sign, and is smaller in size than the divisor; so the quotient is not negative when the signs agree and not positive when they differ |
| Helper.JavaDivExamples | src/main/java/za/co/titandynamix/helper/TrafficHelper.java:181 | division truncates toward zero: -7/2 is -3, not -4 |
| Helper.TraverseTimeNonNegative | src/main/java/za/co/titandynamix/helper/TrafficHelper.java:151-183 | with positive limits and speed, non-negative distances, crater counts and crossing times, and at most a full crater reduction, the time is not negative |
| Helper.FasterVehicleNeverSlower | src/main/java/za/co/titandynamix/helper/TrafficHelper.java:151-183 | a higher top speed, all else equal, never gives a longer time, because the applicable speed does not drop |
| Helper.MoreCratersTotals | src/main/java/za/co/titandynamix/helper/TrafficHelper.java:154-164 | raising crater counts leaves the distance and the binding limit alone and does not lower the crater total |
| Helper.AdjustedCratersMonotone | src/main/java/za/co/titandynamix/helper/TrafficHelper.java:176 | with at most a full reduction, more craters never round to fewer |
| Helper.MoreCratersNeverFaster | src/main/java/za/co/titandynamix/helper/TrafficHelper.java:151-183 | more craters, all else equal, never give a shorter time |
| Helper.RowAt | src/main/java/za/co/titandynamix/helper/TrafficHelper.java:115-126 | a vehicle's row holds one scored candidate per sequence, in sequence order |
| Helper.Scored | src/main/java/za/co/titandynamix/helper/TrafficHelper.java:118-126 | one candidate: the time of the vehicle on the sequence's current values, with that sequence and vehicle (no contract of its own; used by `RowAt` and `CrossProductAt`) |
| Helper.CrossProduct | src/main/java/za/co/titandynamix/helper/TrafficHelper.java:110-131 | every vehicle scored on every sequence, vehicle-major (no contract of its own; its partners are `CrossProductAt` and `GetTraverseDetails`) |
| Helper.CandidatesLength | src/main/java/za/co/titandynamix/helper/TrafficHelper.java:113-129 | the first n vehicles give n × (number of sequences) candidates |
| Helper.CandidatesEntry | src/main/java/za/co/titandynamix/helper/TrafficHelper.java:113-129 | candidate i × (number of sequences) + j pairs vehicle i with sequence j |
| Helper.CrossProductAt | src/main/java/za/co/titandynamix/helper/TrafficHelper.java:110-131 | the list has one entry per (vehicle, sequence) pair, vehicle-major, and entry i × \|sequences\| + j scores vehicle i on sequence j |
| Helper.ScoreVehicle | src/main/java/za/co/titandynamix/helper/TrafficHelper.java:115-126 | the inner `forEach` appends one scored candidate per sequence: the vehicle's row |
| Helper.GetTraverseDetails | src/main/java/za/co/titandynamix/helper/TrafficHelper.java:110-131 | the list built is exactly the vehicle-major cross product of scored candidates, of length \|vehicles\| × \|sequences\| |
| Helper.FirstMinIndex | src/main/java/za/co/titandynamix/helper/TrafficHelper.java:191-205 | the index the scan settles on is a valid position |
| Helper.FirstMinIndexSound | src/main/java/za/co/titandynamix/helper/TrafficHelper.java:191-205 | nothing is selected exactly when no time is below `Integer.MAX_VALUE`; otherwise the selected candidate is strictly quicker than every earlier one and no slower than every later one |
| Helper.FirstMinIndexIsFirstMinimum | src/main/java/za/co/titandynamix/helper/TrafficHelper.java:191-205 | the scan selects position k if and only if k is the first minimum below `Integer.MAX_VALUE` |
| Helper.FindOptimumTraverseDetail | src/main/java/za/co/titandynamix/helper/TrafficHelper.java:191-205 | the loop returns the first quickest candidate; null exactly when every time is at least `Integer.MAX_VALUE`; otherwise the candidate at a first-minimum position |
| Helper.OnClauseConcat | src/main/java/za/co/titandynamix/helper/TrafficHelper.java:216-217 | the " on <name>" clauses of joined sequences are the clauses of the parts, joined |
| Helper.OnClauseFront | src/main/java/za/co/titandynamix/helper/TrafficHelper.java:216-217 | the clauses of a sequence start with its first orbit's " on <name>" |
| Helper.OutputMessageOneOrbit | src/main/java/za/co/titandynamix/helper/TrafficHelper.java:213-220 | one orbit renders as "Vehicle <vehicle> on <orbit>" |
| Helper.OutputMessage | src/main/java/za/co/titandynamix/helper/TrafficHelper.java:213-220 | "Vehicle " and the vehicle name, then " on " and each orbit name in order (no contract of its own; its partners are `OnClauseConcat`, `OnClauseFront`, `OutputMessageOneOrbit` and `GenerateOutputMessage`) |
| Helper.GenerateOutputMessage | src/main/java/za/co/titandynamix/helper/TrafficHelper.java:213-220 | the builder loop produces "Vehicle " + name followed by " on <name>" for each orbit in order |
| Validator.InvalidAmong | src/main/java/za/co/titandynamix/validator/TrafficValidator.java:50-51 | the filter keeps exactly the given keys whose value is below 1, in the given order |
| Validator.InvalidOrbitNames | src/main/java/za/co/titandynamix/validator/TrafficValidator.java:50-51 | the invalid names are exactly the keys whose value is below 1, in key order |
| Validator.InvalidAmongCounts | src/main/java/za/co/titandynamix/validator/TrafficValidator.java:50-51 | each given name whose limit is below 1 is reported as often as it is given, and every other name not at all |
| Validator.InputsValid | src/main/java/za/co/titandynamix/validator/TrafficValidator.java:43-55 | what passes validation: a known weather, a present and non-empty map, every limit at least 1 (a predicate; its partner is `ValidationMessageEmptyIffValid`) |
| Validator.WeatherMessage | src/main/java/za/co/titandynamix/validator/TrafficValidator.java:43-44 | the weather part of the message: empty for a known weather, otherwise the text or "null" between the two fixed phrases (no contract of its own; stated by `WeatherTextQuoted`) |
| Validator.RouteMessage | src/main/java/za/co/titandynamix/validator/TrafficValidator.java:47-55 | the route part: the no-route text for a missing or empty map, otherwise the list of orbits with a limit below 1, or nothing (no contract of its own; stated by `MissingRoutesReported` and `InvalidNamesListed`) |
| Validator.ValidationMessage | src/main/java/za/co/titandynamix/validator/TrafficValidator.java:39-59 | the weather part followed by the route part (no contract of its own; its partners are `ValidateUserInputs`, `ValidationMessageEmptyIffValid` and `ValidationMessageBlankIffEmpty`) |
| Validator.ValidateUserInputs | src/main/java/za/co/titandynamix/validator/TrafficValidator.java:39-59 | the weather part, then the route part, appended to one builder; the result is empty exactly when the inputs are valid |
| Validator.ValidationMessageEmptyIffValid | src/main/java/za/co/titandynamix/validator/TrafficValidator.java:39-59 | the message is empty if and only if the weather is known, the map is non-empty and every limit is at least 1 |
| Validator.ValidationMessageBlankIffEmpty | src/main/java/za/co/titandynamix/validator/TrafficValidator.java:43-55 | every failure text starts with a visible character, so `isNotBlank(message)` holds exactly when the inputs are invalid |
| Validator.WeatherTextQuoted | src/main/java/za/co/titandynamix/validator/TrafficValidator.java:43-44 | an unknown weather's text ("null" for none) appears in the message |
| Validator.MissingRoutesReported | src/main/java/za/co/titandynamix/validator/TrafficValidator.java:47-48 | with no map or an empty one, the message ends with the no-route text and the inputs are invalid |
| Validator.InvalidNamesListed | src/main/java/za/co/titandynamix/validator/TrafficValidator.java:50-55 | every orbit whose limit is below 1 is named in the message |
| Validator.InvalidOrbitNamesExample | src/main/java/za/co/titandynamix/validator/TrafficValidator.java:50-51 | Orbit1 at 0 and Orbit2 at 6 report only Orbit1 |
| Validator.BothFailuresExample | src/main/java/za/co/titandynamix/validator/TrafficValidator.java:39-59 | a null weather and Orbit1 at 0 give the weather text with "null" quoted, then the speed text listing `[Orbit1]` |
| Finder.ApplyToSequence | src/main/java/za/co/titandynamix/finder/TrafficFinder.java:64-66 | after the inner `forEach`, every orbit of the sequence holds the map's value for its name |
| Finder.ApplySpeedLimits | src/main/java/za/co/titandynamix/finder/TrafficFinder.java:63-67 | after the nested `forEach`, every orbit of every sequence holds the map's value for its name |
| Finder.LimitsMatchEntries | src/main/java/za/co/titandynamix/finder/TrafficFinder.java:63-67 | because a Java map holds one entry per name, after writing every orbit holds exactly the speed entered for its name |
| Finder.PlanScorable | src/main/java/za/co/titandynamix/finder/TrafficFinder.java:60-73 | catalogue vehicles on non-empty sequences with limits of at least 1 can always be scored: there is a minimum limit and the divisor is not zero |
| Finder.PlanDetails | src/main/java/za/co/titandynamix/finder/TrafficFinder.java:57-73 | the candidates of a valid request: the weather's suitable vehicles scored on every sequence (no contract of its own; used by `PlanPicksFirstMinimum`) |
| Finder.Answer | src/main/java/za/co/titandynamix/finder/TrafficFinder.java:76-83 | the system error when nothing is selected, otherwise the rendering of the selected candidate (no contract of its own; its partner is `ScoreAndAnswer`) |
| Finder.Plan | src/main/java/za/co/titandynamix/finder/TrafficFinder.java:57-83 | the answer for the candidates of a valid request (no contract of its own; its partners are `PlanPicksFirstMinimum`, `NoSequencesGiveSystemError` and `CalculateOptimumTime`) |
| Finder.PlanPicksFirstMinimum | src/main/java/za/co/titandynamix/finder/TrafficFinder.java:73-83 | a valid request answers the system error exactly when no candidate is below `Integer.MAX_VALUE`, and otherwise renders the first quickest candidate |
| Finder.NoSequencesGiveSystemError | src/main/java/za/co/titandynamix/finder/TrafficFinder.java:79-80 | with no orbit sequence, there is no candidate and the answer is the system error |
| Finder.ScoreAndAnswer | src/main/java/za/co/titandynamix/finder/TrafficFinder.java:73-83 | scoring, picking and rendering give the answer for the cross product of candidates |
| Finder.CalculateOptimumTime | src/main/java/za/co/titandynamix/finder/TrafficFinder.java:46-85 | invalid inputs give the header and the validation message, and no orbit changes; valid inputs write every limit from the map, so each orbit holds the speed entered for its name, and answer the plan for the weather's vehicles |
| Scenario.SingleOrbitTotals | src/main/java/za/co/titandynamix/helper/TrafficHelper.java:154-164 | a one-orbit sequence's totals and binding limit are that orbit's own figures |
| Scenario.Orbit1Times | src/main/java/za/co/titandynamix/helper/TrafficHelper.java:151-183 | in Sunny weather on Orbit1 at limit 5, Bike, Tuktuk and Car take 252, 234 and 270 minutes |
| Scenario.Orbit2Times | src/main/java/za/co/titandynamix/helper/TrafficHelper.java:151-183 | in Sunny weather on Orbit2 at limit 6, Bike, Tuktuk and Car take 218, 209 and 227 minutes |
| Scenario.AllRowsMatch | src/main/java/za/co/titandynamix/helper/TrafficHelper.java:90-96 | when every row runs between the two places, the route filter keeps them all |
| Scenario.BothOrbitsMatch | src/main/java/za/co/titandynamix/initializer/TrafficInitializer.java:101-108 | both catalogue orbits run from Silk Drob to Hallitharam, however the names are cased |
| Scenario.SunnyLookup | src/main/java/za/co/titandynamix/helper/TrafficHelper.java:61-65 | any casing of "Sunny" selects the Sunny catalogue weather |
| Scenario.SunnyCandidates | src/main/java/za/co/titandynamix/helper/TrafficHelper.java:110-131 | the six Sunny candidates have times 252, 218, 234, 209, 270 and 227, so the fourth, the Tuktuk on Orbit2, is the first minimum |
| Scenario.SunnyAnswer | src/main/java/za/co/titandynamix/finder/TrafficFinder.java:76-83 | the quickest Sunny candidate renders as "Vehicle Tuktuk on Orbit2" |
| Scenario.LimitedSequences | src/main/java/za/co/titandynamix/finder/TrafficFinder.java:63-73 | the two limited orbits satisfy the scoring preconditions |
| Scenario.SunnyPlan | src/main/java/za/co/titandynamix/finder/TrafficFinder.java:46-85 | with Orbit1 at 5 and Orbit2 at 6, a Sunny request answers "Vehicle Tuktuk on Orbit2" |
| Scenario.RoutesFound | src/main/java/za/co/titandynamix/helper/TrafficHelper.java:90-96 | looking up Silk Drob to Hallitharam gives the singletons Orbit1 and Orbit2, both named in the user's limits |
| Scenario.LimitsValid | src/main/java/za/co/titandynamix/validator/TrafficValidator.java:39-59 | "Sunny" with Orbit1 at 5 and Orbit2 at 6 passes validation |
| Scenario.LimitsWritten | src/main/java/za/co/titandynamix/finder/TrafficFinder.java:63-67 | once the limits are written, the two orbit objects hold limits 5 and 6 |
| Scenario.SunnyScenario | src/main/java/za/co/titandynamix/finder/TrafficFinder.java:46-85 | the reference request from route lookup to answer returns "Vehicle Tuktuk on Orbit2" |

## Left out

- The console application (`KingShanOrbitTravelApplication`) is not part of this model. This covers its input loop, its prompts and the printing. The model's entry points take the values the application would pass.
- The application's building of the speed-limit map is modelled only through its result, a sequence of entries whose keys are the orbit names. That code lives in `KingShanOrbitTravelApplication.java:47-64`.
- `BusinessRuleException` is reduced to its message. The error codes, causes and `Serializable` plumbing are not modelled.
- The Lombok accessors, the `toString` methods of the model classes and `Serializable` are left out. No core operation depends on them.
- The `Velocity` object is flattened into `Orbit.speedLimit` and `Vehicle.speed`. Only its speed is read or written; its unit string is never used.
- The orbit's name, places, distance and crater count are fixed at construction. Java has setters for them, but the core never calls them.
- The singleton `getInstance` accessors are left out. A module's functions play their role.
- Java `int` overflow is not modelled, because all arithmetic is on unbounded integers. The distance × 60 product, the sums and the crater product could wrap in Java for huge inputs; the catalogue's figures are far from that.
- `Helper.ActualNumberOfCraters` models `Math.round(x / 100.00)` exactly over the integers. The double-precision rounding of `x / 100.00` is not modelled; every value it can take here is exact to well within 0.5.
- `Enums.Of` requires the ordinal to be below 3. Java throws `ArrayIndexOutOfBoundsException` there, which is not a modelled error.
- `JavaStrings.ParseInt` and `equalsIgnoreCase` cover ASCII only. Digits are ASCII digits, and case folding is ASCII. Java also accepts non-ASCII Unicode digits and folds non-ASCII letters.
- `Helper.GetWeatherByType` takes its text as a non-null string. Java throws for null there, but the only caller runs it after validation has rejected null.
- `getWeatherByType` uses `parallelStream().findAny()`, and the model takes the first match. The contract proves that at most one weather matches, so both give the same answer.
- `Finder.CalculateOptimumTime` requires that a given map holds each name once, as every Java map does; a sequence of entries could otherwise repeat a name. On the valid path only, it also requires that every orbit name is a key of the map and that no orbit sequence is empty; Java would throw there, unboxing a null `get` or calling `getAsInt` on an empty `min()`. The application always builds orbit sequences and keys that meet these requirements.
- `Helper.CrossProduct` gives the position of a (vehicle, sequence) pair as i × |sequences| + j, through `Helper.CrossProductAt`. There is no single index-to-pair function.
- The properties of `MinSpeedLimit`, `ApplicableMaxSpeed` and `CalculateOptimizedTraverseTime` are stated as lemmas beside these functions rather than as their own `ensures`.
- `Helper.CalculateOptimizedTraverseTime` requires a non-zero applicable speed. Java throws `ArithmeticException` there; validation rules out every limit below 1, and the catalogue speeds are positive.
- `Helper.RouteSequences` and `Helper.GetOrbits` take non-null place names. Java's `equalsIgnoreCase(null)` is false, so a null name would give an empty list; the application always passes text.
- `Model.SpeedEntry` holds an int speed, never null. Java would throw unboxing a null value at `TrafficValidator.java:51`; the application always stores a parsed int.
- `ValidationUtils.GetList` returns a plain sequence. The fixed size of the array-backed list from `Arrays.asList` is not modelled; the core never adds to or removes from it.
