# service-intervals: the service-interval engine in Dafny

This project models the core of `service-intervals`, a small Rust crate that tracks
maintenance intervals for bicycle components. Wear is measured in ride time, not in
calendar time. The model covers three pieces:

- **Garmin activity decoding and totals** (`src/garmin/activities.rs`):
  - decoding a row's `Date` (`YYYY-MM-DD HH:MM:SS`, read as UTC) and `Time` (`HH:MM:SS` elapsed time);
  - collecting the decoded rows into an activity log, where the first bad row aborts the load;
  - the saturating total over all activities, and the total over the activities dated strictly after an instant.
- **The service registry** (`src/db/mod.rs`):
  - a component's last service instant (the maximum of its set of service instants);
  - the usage it has accrued since then (cutoff `UNIX_EPOCH` when it was never serviced);
  - the per-component mapping over the whole registry.
- **The older CSV decoder** (`src/garmin/activity_csv.rs`): `deserialize_time` and `Record`.

All three files are pure, so the model is datatypes, functions and lemmas.

Modules, one per concern:

| file | module | models |
|---|---|---|
| `errors.dfy` | `Errors` | `Option`, `Result` and the crate's `Error` enum |
| `durations.dfy` | `Durations` | `std::time::Duration`: `from_secs`, `checked_add`, `saturating_add`, `MAX` |
| `text.dfy` | `Text` | `str::split` on one character, `u64::from_str`, decimal rendering |
| `calendar.dfy` | `Calendar` | instants, the fixed-width `%Y-%m-%d %H:%M:%S` reading, civil date to epoch seconds |
| `activities.dfy` | `GarminActivities` | `src/garmin/activities.rs` |
| `db.dfy` | `Db` | `src/db/mod.rs` |
| `activity_csv.dfy` | `GarminActivityCsv` | `src/garmin/activity_csv.rs` |

Representation choices:

- **Durations.** A duration is a Rust `Duration`: whole seconds up to `u64::MAX`, plus
  nanoseconds below one second. `saturating_add` is written as the standard library writes
  it, through `checked_add`. `Durations.SaturatingAdd` proves that it is the exact sum
  clamped to `Duration::MAX` in nanoseconds. `Duration::MAX` carries 999 999 999 nanoseconds,
  so a clamped total differs from an exact total of `u64::MAX` seconds. The model keeps
  this distinction.
- **Instants.** An instant (`DateTime<Utc>`) is an `int` count of seconds since the epoch.
  `UNIX_EPOCH` is 0.
- **Collections.** `serviced` is a `set<Instant>`. The activity log and the registry are sequences.
- **Iterators.** Rust iterators are modelled as the sequences they would produce.

Where the doc comments and the code disagree, the model follows the code:

- `Component::duration_since_last_serviced` says that a never-serviced component accrues
  "the total duration of all activities". The code filters with `date > UNIX_EPOCH`, so
  activities dated at or before 1970-01-01T00:00:00Z are not counted.
  `Db.NeverServicedAccruesEverything` proves the documented claim when every activity is
  after the epoch. `Db.NeverServicedSkipsPreEpoch` shows a case outside it.
- For the same reason, adding a service date never raises the accrued usage, except in
  one case. A component that was never serviced, given a first service date before 1970,
  has its window widened. `Db.ServiceNeverIncreasesAccrued` carries that side condition.
  `Db.PreEpochFirstServiceWidensWindow` shows the exception.

## Model

| member | source | states |
|---|---|---|
| `Durations.CheckedAdd` | src/garmin/activities.rs:123 | `Duration::checked_add` fails exactly when the exact sum exceeds `Duration::MAX`; otherwise it returns the exact sum |
| `Durations.SaturatingAdd` | src/garmin/activities.rs:123 | `saturating_add` is `min(a + b, MAX)`; a sum that reaches the maximum yields `Duration::MAX` exactly |
| `Durations.SaturatingAddCommutes` | src/garmin/activities.rs:54 | saturating addition does not depend on operand order |
| `Durations.TotalNanosInjective` | src/garmin/activities.rs:52-56 | a duration is determined by its length, so equal clamped sums are equal durations |
| `Text.Split` | src/garmin/activities.rs:106 | `split(':')` yields at least one part, no part contains `:`, and joining the parts with `:` gives back the input |
| `Text.SplitConcat` | src/garmin/activities.rs:106-107 | a `:` between two strings splits each independently, which is why parts after the third do not affect the first three |
| `Text.ParseU64` | src/garmin/activities.rs:111-117 | `u64::from_str` accepts exactly: an optional `+`, one or more ASCII digits, and a value at most `u64::MAX`; the empty string, `-` and any other character are rejected |
| `Text.ParseU64DecimalText` | src/garmin/activities.rs:111-117 | every u64 rendered in decimal reads back as itself, also with a leading `+` or `0` |
| `Text.DecimalTextValue` | src/garmin/activities.rs:112 | decimal rendering and digit reading are inverse |
| `Calendar.ParseDateTime` | src/garmin/activities.rs:90-94 | a reading is accepted exactly when it has the `YYYY-MM-DD HH:MM:SS` shape and names a real Gregorian date and time of day |
| `Calendar.EpochSeconds` | src/garmin/activities.rs:96 | UTC verbatim: the day number is the days since 1970-01-01 and the remainder is the wall-clock time of day, with no offset |
| `Calendar.EpochSecondsOrder` | src/garmin/activities.rs:96 | a lexicographically later date and time is a strictly later instant |
| `Calendar.FormatDateTime` | src/garmin/activities.rs:90-94 | zero-padded `%Y-%m-%d %H:%M:%S` formatting of a valid date and time with a four-digit year has the reading's shape |
| `Calendar.DateRoundTrip` | src/garmin/activities.rs:90-94 | parsing the formatted text of any valid date and time with a year up to 9999 gives back exactly those fields |
| `Calendar.NewYear2024Parse` | src/garmin/activities.rs:90-94 | `2024-01-01 00:00:00` reads as 2024-01-01, 00:00:00 |
| `Calendar.NewYear2024Epoch` | src/garmin/activities.rs:96 | 2024-01-01 00:00:00 UTC is 1704067200 seconds after the epoch |
| `Calendar.LastSecondOf2023Parse` | src/garmin/activities.rs:90-94 | `2023-12-31 23:59:59` reads as 2023-12-31, 23:59:59 |
| `Calendar.LastSecondOf2023Epoch` | src/garmin/activities.rs:96 | 2023-12-31 23:59:59 UTC is 1704067199 seconds after the epoch |
| `Calendar.June2024Parse` | src/garmin/activities.rs:90-94 | `2024-06-01 00:00:00` reads as 2024-06-01, 00:00:00 |
| `Calendar.June2024Epoch` | src/garmin/activities.rs:96 | 2024-06-01 00:00:00 UTC is 1717200000 seconds after the epoch (2024 is a leap year) |
| `Calendar.YearStep` | src/garmin/activities.rs:96 | consecutive new years are 365 or 366 days apart, by the Gregorian leap rule |
| `GarminActivities.SaturatingFold` | src/garmin/activities.rs:53-55 | folding with `saturating_add` equals clamping the exact sum once |
| `GarminActivities.After` | src/garmin/activities.rs:61 | the filter keeps only activities dated strictly after `since` |
| `GarminActivities.AfterMembers` | src/garmin/activities.rs:61 | an activity is kept iff it is in the log and dated strictly after `since` |
| `GarminActivities.AfterConcat` | src/garmin/activities.rs:60-61 | filtering distributes over concatenation, so log order is kept |
| `GarminActivities.Activities.TotalDuration` | src/garmin/activities.rs:51-56 | the total is `min(sum of durations, MAX)`, and `Duration::MAX` once the sum reaches it |
| `GarminActivities.Activities.TotalDurationSince` | src/garmin/activities.rs:58-65 | the total is `min(sum over activities with date > since, MAX)`; it never exceeds `total_duration` |
| `GarminActivities.SumNanosPermutation` | src/garmin/activities.rs:52-56 | the exact sum is the same for every ordering of the activities |
| `GarminActivities.TotalsOrderIndependent` | src/garmin/activities.rs:52-65 | reordering the log changes neither `total_duration` nor `total_duration_since` |
| `GarminActivities.SinceExcludesBoundary` | src/garmin/activities.rs:61 | an activity dated exactly at `since` contributes nothing |
| `GarminActivities.SinceIncludesLater` | src/garmin/activities.rs:61 | an activity dated after `since`, even by one second, is added in full |
| `GarminActivities.SinceAntitone` | src/garmin/activities.rs:59-65 | a later cutoff never gives a larger total |
| `GarminActivities.SinceBeforeEverything` | src/garmin/activities.rs:59-65 | a cutoff before every activity gives `total_duration` |
| `GarminActivities.DeserializeGarminDate` | src/garmin/activities.rs:85-97 | a reading not in `YYYY-MM-DD HH:MM:SS` form, or not a real date, is rejected with the date format error; an accepted one is that wall-clock time in UTC |
| `GarminActivities.DeserializeParsed` | src/garmin/activities.rs:89-96 | a reading that parses decodes to the UTC instant of its fields |
| `GarminActivities.DeserializeFormattedDate` | src/garmin/activities.rs:85-97 | the formatted text of any valid date and time decodes to that date's instant |
| `GarminActivities.NewYear2024Instant` | src/garmin/activities.rs:85-97 | `2024-01-01 00:00:00` decodes to 1704067200 |
| `GarminActivities.LastSecondOf2023Instant` | src/garmin/activities.rs:85-97 | `2023-12-31 23:59:59` decodes to 1704067199 |
| `GarminActivities.June2024Instant` | src/garmin/activities.rs:85-97 | `2024-06-01 00:00:00` decodes to 1717200000 |
| `GarminActivities.DeserializeGarminDateOrder` | src/garmin/activities.rs:89-96 | later readings decode to strictly later instants |
| `GarminActivities.ScaledSecs` | src/garmin/activities.rs:119-120 | `n * k` seconds when the product fits in a u64, `Duration::MAX` otherwise |
| `GarminActivities.HmsDuration` | src/garmin/activities.rs:119-123 | `hours * 3600 + mins * 60 + secs` seconds when that fits in a u64, else `Duration::MAX`; fields are not range-checked |
| `GarminActivities.WrappingMul` | src/garmin/activities.rs:119-120 | an unchecked u64 product in a release build stays below 2^64 and is exact when it fits |
| `GarminActivities.HmsDurationAsWritten` | src/garmin/activities.rs:119-123 | the arithmetic as written agrees with `HmsDuration` whenever neither product overflows |
| `GarminActivities.HoursProductWrapsAround` | src/garmin/activities.rs:119 | `5124095576030432:00:00` yields 3584 s as written, where the clamped value is `Duration::MAX` |
| `GarminActivities.DeserializeGarminDuration` | src/garmin/activities.rs:101-124 | fewer than three `:` fields, or a non-u64 among the first three, is rejected with the duration format error; otherwise the result is `H*3600 + M*60 + S` whole seconds when that fits in a u64, and `Duration::MAX` (with its 999 999 999 nanoseconds) when it does not |
| `GarminActivities.DurationIgnoresTrailingFields` | src/garmin/activities.rs:106-107 | fields after the third are ignored: `s + ":" + t` decodes as `s` |
| `GarminActivities.DurationRoundTrip` | src/garmin/activities.rs:101-124 | decoding the canonical `H:MM:SS` rendering of any u64 number of seconds (hours may exceed 24) gives exactly that duration |
| `GarminActivities.HmsTextFields` | src/garmin/activities.rs:106-117 | the rendering splits into three fields that read back as hours, minutes and seconds |
| `GarminActivities.HmsArithmetic` | src/garmin/activities.rs:119-123 | hours, minutes and seconds of a count recombine to that count |
| `GarminActivities.MinutesNotRangeChecked` | src/garmin/activities.rs:119-123 | `0:90:00` decodes to 5400 s |
| `GarminActivities.DeserializeActivity` | src/garmin/activities.rs:69-80 | a row decodes iff both its `Date` and `Time` columns do, into those two values |
| `GarminActivities.DecodeRows` | src/garmin/activities.rs:38-40 | one decoding result per row, in row order |
| `GarminActivities.CollectFrom` | src/garmin/activities.rs:41 | `collect` into `Result<Vec>` gives all values in order, or the first failure with its index |
| `GarminActivities.LoadRows` | src/garmin/activities.rs:38-43 | all-or-nothing load: one activity per row in file order, or `ActivityFormatError` naming the first bad row, when all rows before it decode |
| `Db.MaxOf` | src/db/mod.rs:87 | `BTreeSet::last` of a non-empty set is its maximum |
| `Db.DecodeServiced` | src/db/mod.rs:66-67 | the listed service dates become a set: same members, duplicates collapse |
| `Db.Component.LastServiced` | src/db/mod.rs:81-88 | `None` exactly when `serviced` is empty, otherwise the maximum service instant |
| `Db.LastServicedAfterService` | src/db/mod.rs:86-88 | adding a service instant makes the last service the later of the old one and the new one |
| `Db.Component.DurationSinceLastServiced` | src/db/mod.rs:90-105 | the clamped sum over activities dated strictly after the last service, or after `UNIX_EPOCH` when never serviced; equals `total_duration_since` of that cutoff |
| `Db.PairWithAccrued` | src/db/mod.rs:49-54 | one pair per component, in order, holding the component and its accrued duration |
| `Db.DB.DurationSinceLastServiced` | src/db/mod.rs:44-55 | exactly one pair per registry component, in registry order, with the component unchanged |
| `Db.NeverServicedAccruesEverything` | src/db/mod.rs:90-100 | a never-serviced component accrues `total_duration` when every activity is after the epoch |
| `Db.NeverServicedSkipsPreEpoch` | src/db/mod.rs:100 | a pre-1970 activity is not counted for a never-serviced component, though it is in the total |
| `Db.ServiceInstantExcluded` | src/db/mod.rs:98-101 | an activity dated exactly at the last service is not counted |
| `Db.ServiceNeverIncreasesAccrued` | src/db/mod.rs:86-104 | adding a service instant never increases the accrued duration, when the component was serviced before or the instant is not before the epoch |
| `Db.PreEpochFirstServiceWidensWindow` | src/db/mod.rs:100 | without that condition the claim fails: a first service dated before 1970 counts more activity |
| `Db.BrakeFluidScenario` | src/db/mod.rs:94-105 | serviced at 2024-01-01T00:00:00Z: a ride one second earlier is excluded, a 210 h ride later is counted in full |
| `Db.BrakeFluidScenarioReadings` | src/db/mod.rs:94-105 | the same scenario with all three instants decoded from Garmin's date text |
| `GarminActivityCsv.DeserializeTime` | src/garmin/activity_csv.rs:13-36 | for at least three fields whose first three are u64s, the result is `H*3600 + M*60 + S` whole seconds when that fits in a u64, and `Duration::MAX` when it does not; fields after the third are ignored |
| `GarminActivityCsv.DeserializeTimeAgrees` | src/garmin/activity_csv.rs:18-35 | `deserialize_time` is defined exactly where `deserialize_garmin_duration` succeeds, and both give the same value there |
| `GarminActivityCsv.DeserializeRecord` | src/garmin/activity_csv.rs:7-11 | a `Record` reads only the `Time` column, into the value the activity decoder gives for it |

## Left out

- File and path handling is not modelled: `Activities::load_file` path resolution, `canonicalize`, `File::open` (src/garmin/activities.rs:23-36) and `DB::load` (src/db/mod.rs:22-37). The model starts from the rows of the CSV file and from decoded components.
- The CSV reader's header matching by column name is a library function and is not modelled. A `Row` holds the `Date` and `Time` columns already picked out. A missing column is therefore not modelled.
- `DeserializeActivity` decodes `Date` before `Time`. Garmin exports list the columns in that order. When both columns are bad, serde reports the one that comes first in the file.
- `ActivityFormatError` carries the index of the failing row and the decoder's message, not the whole `csv::Error`.
- `serde_json` decoding of the registry document and `humantime_serde` parsing of `interval` (`"500h"`) are library code and are not modelled. `interval` is an already-decoded duration.
- Service instants are whole seconds. Sub-second service timestamps in the registry are not modelled.
- `Calendar.ParseDateTime` accepts only the fixed-width form. Several inputs that chrono's `parse_from_str` accepts are rejected by the model:
  - one-digit month, day, hour, minute or second fields;
  - signed or longer-than-four-digit years;
  - whitespace variations;
  - a leap second `:60`.
- The model does not run the duration decoders on the as-written arithmetic. They use the clamping arithmetic `GarminActivities.HmsDuration` (see Findings). In a debug build the as-written product panics instead of wrapping.
- "Service due" (accrued > interval) is not computed by these files and is not modelled.
- `Component::name` and `Component::interval` are the datatype's fields. `DB::components` is the field `DB.components`. `Activities::iter` is the field `Activities.activities`.
- The registry and the log are immutable values, so the model cannot express aliasing or in-place change. The source takes both by shared reference, so none occurs.
- `src/main.rs` (command-line handling and printing) and `src/lib.rs` (module declarations) are not part of this model.

## Findings

| source | as written | input that shows it | evidently intended | confidence | as-written member | corrected member |
|---|---|---|---|---|---|---|
| src/garmin/activities.rs:119-120 | `hours * 60 * 60` and `mins * 60` are unchecked u64 products. They wrap around in a release build and panic in a debug build, although the sum after them saturates. | `Time` = `5124095576030432:00:00`: the hours parse as a u64, and the product wraps to 3584 s (about one hour). | The value clamps to `Duration::MAX`, as the saturating additions on line 123 do. | not executed | `GarminActivities.HmsDurationAsWritten`, `GarminActivities.HoursProductWrapsAround` | `GarminActivities.HmsDuration` |
| src/garmin/activity_csv.rs:31-32 | The same unchecked products as in `deserialize_garmin_duration`. | `5124095576030432:00:00` gives 3584 s. | The value clamps to `Duration::MAX`. | not executed | `GarminActivities.HmsDurationAsWritten`, `GarminActivities.HoursProductWrapsAround` | `GarminActivityCsv.DeserializeTime` |
