/**
 * Garmin activity logs (src/garmin/activities.rs): decoding one row's `Date`
 * and `Time` columns, collecting the rows of a log, and the saturating totals
 * over all activities and over those strictly after a given instant.
 */
module GarminActivities {
  import opened Errors
  import opened Durations
  import opened Text
  import opened Calendar

  /** One recorded session: when it took place and how long it lasted. */
  datatype Activity = Activity(date: Instant, duration: Duration)

  /** The `Date` and `Time` columns of one CSV row, already picked out by header name. */
  datatype Row = Row(date: string, time: string)

  const DATE_FORMAT_ERROR: string := "Date was not in YYYY-MM-DD HH:MM:SS format"
  const DURATION_FORMAT_ERROR: string := "Duration was not in HH:MM:SS format"

  // ---------------------------------------------------------------------------
  // Saturating sums

  /** The exact sum of the activities' durations, in nanoseconds. */
  function SumNanos(acts: seq<Activity>): nat
    decreases |acts|
  {
    if acts == [] then 0 else TotalNanos(acts[0].duration) + SumNanos(acts[1..])
  }

  /**
   * `fold(acc, |acc, a| acc.saturating_add(a.duration))`: saturating each step
   * is the same as saturating the exact sum once.
   */
  function SaturatingFold(acc: Duration, acts: seq<Activity>): (r: Duration)
    ensures TotalNanos(r) == Min(TotalNanos(acc) + SumNanos(acts), MAX_NANOS)
    decreases |acts|
  {
    if acts == [] then acc else SaturatingFold(SaturatingAdd(acc, acts[0].duration), acts[1..])
  }

  /** `iter().filter(|a| a.date > since)`: the activities strictly after `since`, in log order. */
  function After(acts: seq<Activity>, since: Instant): (r: seq<Activity>)
    ensures |r| <= |acts|
    ensures forall i | 0 <= i < |r| :: r[i].date > since
    decreases |acts|
  {
    if acts == [] then []
    else if acts[0].date > since then [acts[0]] + After(acts[1..], since)
    else After(acts[1..], since)
  }

  /** The in-memory activity log: the activities in file order. */
  datatype Activities = Activities(activities: seq<Activity>) {

    /** `Activities::total_duration`: the sum of all durations, clamped to `Duration::MAX`. */
    function TotalDuration(): (r: Duration)
      ensures TotalNanos(r) == Min(SumNanos(activities), MAX_NANOS)
      ensures SumNanos(activities) >= MAX_NANOS ==> r == MAX
    {
      var r := SaturatingFold(ZERO, activities);
      if SumNanos(activities) >= MAX_NANOS then
        TotalNanosInjective(r, MAX);
        r
      else
        r
    }

    /**
     * `Activities::total_duration_since`: the clamped sum over the activities
     * dated strictly after `since`; never more than the total.
     */
    function TotalDurationSince(since: Instant): (r: Duration)
      ensures TotalNanos(r) == Min(SumNanos(After(activities, since)), MAX_NANOS)
      ensures TotalNanos(r) <= TotalNanos(TotalDuration())
    {
      SumAfterAtMost(activities, since);
      SaturatingFold(ZERO, After(activities, since))
    }
  }

  lemma {:induction false} SumNanosConcat(xs: seq<Activity>, ys: seq<Activity>)
    ensures SumNanos(xs + ys) == SumNanos(xs) + SumNanos(ys)
    decreases |xs|
  {
    if xs == [] {
      assert xs + ys == ys;
    } else {
      assert (xs + ys)[1..] == xs[1..] + ys;
      SumNanosConcat(xs[1..], ys);
    }
  }

  /** Taking out the element at `i` takes one copy of it out of the multiset. */
  lemma MultisetRemoveAt<T>(ys: seq<T>, i: nat)
    requires i < |ys|
    ensures ys == ys[..i] + [ys[i]] + ys[i + 1..]
    ensures multiset(ys[..i] + ys[i + 1..]) == multiset(ys) - multiset{ys[i]}
  {
    assert ys == ys[..i] + [ys[i]] + ys[i + 1..];
    assert multiset(ys) == multiset(ys[..i]) + multiset{ys[i]} + multiset(ys[i + 1..]);
  }

  /**
   * The first element of `xs` sits somewhere in any rearrangement `ys`, and
   * what is left on both sides is again a rearrangement.
   */
  lemma MatchHead<T>(xs: seq<T>, ys: seq<T>) returns (i: nat)
    requires xs != [] && multiset(xs) == multiset(ys)
    ensures i < |ys| && ys[i] == xs[0]
    ensures ys == ys[..i] + [xs[0]] + ys[i + 1..]
    ensures multiset(xs[1..]) == multiset(ys[..i] + ys[i + 1..])
  {
    assert xs[0] in multiset(ys);
    i :| 0 <= i < |ys| && ys[i] == xs[0];
    MultisetRemoveAt(xs, 0);
    MultisetRemoveAt(ys, i);
    assert xs[..0] + xs[1..] == xs[1..];
  }

  /** The exact sum does not depend on the order of the activities. */
  lemma {:induction false} SumNanosPermutation(xs: seq<Activity>, ys: seq<Activity>)
    requires multiset(xs) == multiset(ys)
    ensures SumNanos(xs) == SumNanos(ys)
    decreases |xs|
  {
    if xs != [] {
      var x := xs[0];
      var i := MatchHead(xs, ys);
      var rest := ys[..i] + ys[i + 1..];
      SumNanosPermutation(xs[1..], rest);
      SumNanosConcat(ys[..i] + [x], ys[i + 1..]);
      SumNanosConcat(ys[..i], [x]);
      SumNanosConcat(ys[..i], ys[i + 1..]);
    }
  }

  /** Filtering distributes over concatenation, so it keeps log order. */
  lemma {:induction false} AfterConcat(xs: seq<Activity>, ys: seq<Activity>, since: Instant)
    ensures After(xs + ys, since) == After(xs, since) + After(ys, since)
    decreases |xs|
  {
    if xs == [] {
      assert xs + ys == ys;
    } else {
      assert (xs + ys)[1..] == xs[1..] + ys;
      AfterConcat(xs[1..], ys, since);
    }
  }

  /** The filter keeps exactly the activities dated after `since`. */
  lemma {:induction false} AfterMembers(acts: seq<Activity>, since: Instant, a: Activity)
    ensures a in After(acts, since) <==> a in acts && a.date > since
    decreases |acts|
  {
    if acts != [] {
      AfterMembers(acts[1..], since, a);
    }
  }

  lemma {:induction false} AfterPermutation(xs: seq<Activity>, ys: seq<Activity>, since: Instant)
    requires multiset(xs) == multiset(ys)
    ensures multiset(After(xs, since)) == multiset(After(ys, since))
    decreases |xs|
  {
    if xs != [] {
      var x := xs[0];
      var i := MatchHead(xs, ys);
      var rest := ys[..i] + ys[i + 1..];
      AfterPermutation(xs[1..], rest, since);
      AfterConcat(ys[..i] + [x], ys[i + 1..], since);
      AfterConcat(ys[..i], [x], since);
      AfterConcat(ys[..i], ys[i + 1..], since);
    }
  }

  lemma {:induction false} SumAfterAtMost(acts: seq<Activity>, since: Instant)
    ensures SumNanos(After(acts, since)) <= SumNanos(acts)
    decreases |acts|
  {
    if acts != [] {
      SumAfterAtMost(acts[1..], since);
    }
  }

  lemma {:induction false} SumAfterAntitone(acts: seq<Activity>, t1: Instant, t2: Instant)
    requires t1 <= t2
    ensures SumNanos(After(acts, t2)) <= SumNanos(After(acts, t1))
    decreases |acts|
  {
    if acts != [] {
      SumAfterAntitone(acts[1..], t1, t2);
    }
  }

  lemma {:induction false} AfterKeepsAll(acts: seq<Activity>, since: Instant)
    requires forall i | 0 <= i < |acts| :: acts[i].date > since
    ensures After(acts, since) == acts
    decreases |acts|
  {
    if acts != [] {
      AfterKeepsAll(acts[1..], since);
    }
  }

  /** Reordering the rows of the log changes neither total. */
  lemma TotalsOrderIndependent(log1: Activities, log2: Activities, since: Instant)
    requires multiset(log1.activities) == multiset(log2.activities)
    ensures log1.TotalDuration() == log2.TotalDuration()
    ensures log1.TotalDurationSince(since) == log2.TotalDurationSince(since)
  {
    SumNanosPermutation(log1.activities, log2.activities);
    TotalNanosInjective(log1.TotalDuration(), log2.TotalDuration());
    AfterPermutation(log1.activities, log2.activities, since);
    SumNanosPermutation(After(log1.activities, since), After(log2.activities, since));
    TotalNanosInjective(log1.TotalDurationSince(since), log2.TotalDurationSince(since));
  }

  /** An activity dated exactly at `since` is not counted: the boundary is strict. */
  lemma SinceExcludesBoundary(pre: seq<Activity>, post: seq<Activity>, since: Instant, d: Duration)
    ensures Activities(pre + [Activity(since, d)] + post).TotalDurationSince(since)
         == Activities(pre + post).TotalDurationSince(since)
  {
    var a := Activity(since, d);
    AfterConcat(pre + [a], post, since);
    AfterConcat(pre, [a], since);
    assert After([a], since) == [];
    AfterConcat(pre, post, since);
    assert After(pre + [a] + post, since) == After(pre + post, since);
  }

  /** An activity dated any time after `since`, even one second, is counted in full. */
  lemma SinceIncludesLater(pre: seq<Activity>, post: seq<Activity>, since: Instant, a: Activity)
    requires a.date > since
    ensures TotalNanos(Activities(pre + [a] + post).TotalDurationSince(since))
         == Min(SumNanos(After(pre + post, since)) + TotalNanos(a.duration), MAX_NANOS)
  {
    AfterConcat(pre + [a], post, since);
    AfterConcat(pre, [a], since);
    AfterConcat(pre, post, since);
    assert After([a], since) == [a];
    SumNanosConcat(After(pre, since) + [a], After(post, since));
    SumNanosConcat(After(pre, since), [a]);
    SumNanosConcat(After(pre, since), After(post, since));
  }

  /** A later cutoff never yields a larger total. */
  lemma SinceAntitone(log: Activities, t1: Instant, t2: Instant)
    requires t1 <= t2
    ensures TotalNanos(log.TotalDurationSince(t2)) <= TotalNanos(log.TotalDurationSince(t1))
  {
    SumAfterAntitone(log.activities, t1, t2);
  }

  /** A cutoff before every activity yields the total. */
  lemma SinceBeforeEverything(log: Activities, since: Instant)
    requires forall i | 0 <= i < |log.activities| :: log.activities[i].date > since
    ensures log.TotalDurationSince(since) == log.TotalDuration()
  {
    AfterKeepsAll(log.activities, since);
  }

  // ---------------------------------------------------------------------------
  // Decoding one row

  /**
   * `Activity::deserialize_garmin_date`: a `YYYY-MM-DD HH:MM:SS` reading
   * becomes the instant of that wall-clock time in UTC, with no offset
   * applied; anything else is rejected.
   */
  function DeserializeGarminDate(s: string): (r: Result<Instant, string>)
    ensures r.Ok? <==> HasShape(s) && ValidFields(FieldsOf(s))
    ensures r.Err? ==> r.error == DATE_FORMAT_ERROR
    ensures r.Ok? ==> r.value / SECS_PER_DAY == DaysFromCivil(FieldsOf(s))
    ensures r.Ok? ==> r.value % SECS_PER_DAY == SecondOfDay(FieldsOf(s))
  {
    match ParseDateTime(s)
    case None => Err(DATE_FORMAT_ERROR)
    case Some(f) => Ok(EpochSeconds(f))
  }

  /** A reading that parses decodes to the instant of its fields. */
  lemma DeserializeParsed(s: string, f: DateTimeFields)
    requires ParseDateTime(s) == Some(f)
    ensures DeserializeGarminDate(s) == Ok(EpochSeconds(f))
  {
  }

  /** A formatted date and time decodes to its own instant. */
  lemma DeserializeFormattedDate(f: DateTimeFields)
    requires ValidFields(f) && f.year <= 9999
    ensures DeserializeGarminDate(FormatDateTime(f)) == Ok(EpochSeconds(f))
  {
    DateRoundTrip(f);
    DeserializeParsed(FormatDateTime(f), f);
  }

  /** New Year 2024 in UTC is 1704067200 seconds after the epoch. */
  lemma NewYear2024Instant()
    ensures DeserializeGarminDate("2024-01-01 00:00:00") == Ok(1704067200)
  {
    NewYear2024Parse();
    NewYear2024Epoch();
    DeserializeParsed("2024-01-01 00:00:00", DateTimeFields(2024, 1, 1, 0, 0, 0));
  }

  /** The last second of 2023 in UTC is 1704067199 seconds after the epoch. */
  lemma LastSecondOf2023Instant()
    ensures DeserializeGarminDate("2023-12-31 23:59:59") == Ok(1704067199)
  {
    LastSecondOf2023Parse();
    LastSecondOf2023Epoch();
    DeserializeParsed("2023-12-31 23:59:59", DateTimeFields(2023, 12, 31, 23, 59, 59));
  }

  /** 2024-06-01 00:00:00 in UTC is 1717200000 seconds after the epoch. */
  lemma June2024Instant()
    ensures DeserializeGarminDate("2024-06-01 00:00:00") == Ok(1717200000)
  {
    June2024Parse();
    June2024Epoch();
    DeserializeParsed("2024-06-01 00:00:00", DateTimeFields(2024, 6, 1, 0, 0, 0));
  }

  /** Later readings decode to later instants. */
  lemma DeserializeGarminDateOrder(s1: string, s2: string)
    requires DeserializeGarminDate(s1).Ok? && DeserializeGarminDate(s2).Ok?
    requires Before(FieldsOf(s1), FieldsOf(s2))
    ensures DeserializeGarminDate(s1).value < DeserializeGarminDate(s2).value
  {
    EpochSecondsOrder(FieldsOf(s1), FieldsOf(s2));
  }

  /**
   * `Duration::from_secs(n * k)`, where the product is taken with
   * `u64::checked_mul` and an overflow clamps to `Duration::MAX`.
   */
  function ScaledSecs(n: nat, k: nat): (d: Duration)
    ensures n * k <= U64_MAX ==> TotalNanos(d) == n * k * NANOS_PER_SEC
    ensures n * k > U64_MAX ==> d == MAX
  {
    if n * k <= U64_MAX then FromSecs(n * k) else MAX
  }

  /**
   * The duration of `hours:mins:secs`: `hours * 3600 + mins * 60 + secs`
   * seconds, or `Duration::MAX` when that does not fit in a u64. The fields
   * are not range-checked.
   */
  function HmsDuration(hours: nat, mins: nat, secs: nat): (r: Duration)
    requires secs <= U64_MAX
    ensures hours * 3600 + mins * 60 + secs <= U64_MAX ==>
              r.secs == hours * 3600 + mins * 60 + secs && r.nanos == 0
    ensures hours * 3600 + mins * 60 + secs > U64_MAX ==> r == MAX
  {
    var total := hours * 3600 + mins * 60 + secs;
    var r := SaturatingAdd(SaturatingAdd(ScaledSecs(hours, 3600), ScaledSecs(mins, 60)), FromSecs(secs));
    if total <= U64_MAX then
      TotalNanosInjective(r, FromSecs(total));
      r
    else
      TotalNanosInjective(r, MAX);
      r
  }

  const U64_MODULUS: nat := 0x1_0000_0000_0000_0000

  /** A u64 product as an unchecked `*` computes it in a release build: modulo 2^64. */
  function WrappingMul(n: nat, k: nat): (r: nat)
    ensures r <= U64_MAX
    ensures n * k <= U64_MAX ==> r == n * k
  {
    (n * k) % U64_MODULUS
  }

  /**
   * The arithmetic of src/garmin/activities.rs:119-123 as written: `hours * 60 * 60` and
   * `mins * 60` are unchecked u64 products, so they wrap around instead of
   * saturating. It agrees with `HmsDuration` whenever neither product
   * overflows.
   */
  function HmsDurationAsWritten(hours: nat, mins: nat, secs: nat): (r: Duration)
    requires secs <= U64_MAX
    ensures hours * 3600 <= U64_MAX && mins * 60 <= U64_MAX ==> r == HmsDuration(hours, mins, secs)
  {
    var r := SaturatingAdd(
      SaturatingAdd(FromSecs(WrappingMul(hours, 3600)), FromSecs(WrappingMul(mins, 60))),
      FromSecs(secs));
    if hours * 3600 <= U64_MAX && mins * 60 <= U64_MAX then
      TotalNanosInjective(r, HmsDuration(hours, mins, secs));
      r
    else
      r
  }

  /**
   * "5124095576030432:00:00" is accepted (the hours parse as a u64), but the
   * unchecked product wraps to 3584 seconds instead of clamping to the maximum.
   */
  lemma HoursProductWrapsAround()
    ensures HmsDurationAsWritten(5124095576030432, 0, 0) == FromSecs(3584)
    ensures HmsDuration(5124095576030432, 0, 0) == MAX
  {
    assert 5124095576030432 * 3600 == U64_MODULUS + 3584;
    assert WrappingMul(5124095576030432, 3600) == 3584;
    TotalNanosInjective(HmsDurationAsWritten(5124095576030432, 0, 0), FromSecs(3584));
  }

  /** The first three `:`-separated fields of `s` all read as u64 numbers. */
  predicate IsHmsText(s: string) {
    var parts := Split(s, ':');
    |parts| >= 3 && ParseU64(parts[0]).Some? && ParseU64(parts[1]).Some? && ParseU64(parts[2]).Some?
  }

  /** The seconds `hours * 3600 + mins * 60 + secs` named by the first three fields of `s`. */
  function HmsSeconds(s: string): nat
    requires IsHmsText(s)
  {
    var parts := Split(s, ':');
    ParseU64(parts[0]).value * 3600 + ParseU64(parts[1]).value * 60 + ParseU64(parts[2]).value
  }

  /**
   * `Activity::deserialize_garmin_duration`: fewer than three `:`-separated
   * fields, or a field among the first three that is not a u64, is rejected;
   * otherwise the result is `hours * 3600 + mins * 60 + secs` seconds,
   * clamped to `Duration::MAX`. Fields after the third are ignored.
   */
  function DeserializeGarminDuration(s: string): (r: Result<Duration, string>)
    ensures |Split(s, ':')| < 3 ==> r == Err(DURATION_FORMAT_ERROR)
    ensures r.Ok? <==> IsHmsText(s)
    ensures r.Err? ==> r.error == DURATION_FORMAT_ERROR
    ensures r.Ok? ==> r.value.secs == Min(HmsSeconds(s), U64_MAX)
    ensures r.Ok? ==> r.value == if HmsSeconds(s) <= U64_MAX then FromSecs(HmsSeconds(s)) else MAX
  {
    var parts := Split(s, ':');
    if |parts| < 3 then
      Err(DURATION_FORMAT_ERROR)
    else
      match (ParseU64(parts[0]), ParseU64(parts[1]), ParseU64(parts[2]))
      case (Some(hours), Some(mins), Some(secs)) => Ok(HmsDuration(hours, mins, secs))
      case _ => Err(DURATION_FORMAT_ERROR)
  }

  /** Only the first three fields matter: "1:2:3:4" decodes as "1:2:3". */
  lemma DurationIgnoresTrailingFields(s: string, tail: string)
    requires |Split(s, ':')| >= 3
    ensures DeserializeGarminDuration(s + [':'] + tail) == DeserializeGarminDuration(s)
  {
    SplitConcat(s, tail, ':');
  }

  /** `hours:MM:SS` with the minutes and seconds zero-padded to two digits. */
  function HmsText(hours: nat, mins: nat, secs: nat): string
    requires mins < 60 && secs < 60
  {
    DecimalText(hours) + ":" + TwoDigits(mins) + ":" + TwoDigits(secs)
  }

  /** The canonical rendering of a number of seconds; the hours may exceed 24. */
  function FormatHms(secs: nat): string {
    HmsText(secs / 3600, secs / 60 % 60, secs % 60)
  }

  lemma HmsArithmetic(secs: nat)
    ensures (secs / 3600) * 3600 + (secs / 60 % 60) * 60 + secs % 60 == secs
  {
    var m := secs / 60;
    assert secs == m * 60 + secs % 60;
    assert m == (m / 60) * 60 + m % 60;
    assert m / 60 == secs / 3600;
  }

  /** The fields of `HmsText` and the numbers they read as. */
  lemma HmsTextFields(hours: nat, mins: nat, secs: nat)
    requires hours <= U64_MAX && mins < 60 && secs < 60
    ensures var parts := Split(HmsText(hours, mins, secs), ':');
      && |parts| == 3
      && ParseU64(parts[0]) == Some(hours)
      && ParseU64(parts[1]) == Some(mins)
      && ParseU64(parts[2]) == Some(secs)
  {
    var h, m, s := DecimalText(hours), TwoDigits(mins), TwoDigits(secs);
    assert ':' !in h by {
      assert forall i | 0 <= i < |h| :: IsDigit(h[i]);
    }
    assert ':' !in m by {
      assert IsDigit(m[0]) && IsDigit(m[1]);
    }
    assert ':' !in s by {
      assert IsDigit(s[0]) && IsDigit(s[1]);
    }
    SplitThree(h, m, s, ':');
    assert HmsText(hours, mins, secs) == h + [':'] + m + [':'] + s;
    ParseU64DecimalText(hours);
    ParseU64Digits(m);
    ParseU64Digits(s);
  }

  /** Decoding the canonical rendering of any u64 number of seconds gives it back. */
  lemma DurationRoundTrip(secs: nat)
    requires secs <= U64_MAX
    ensures DeserializeGarminDuration(FormatHms(secs)) == Ok(FromSecs(secs))
  {
    HmsTextFields(secs / 3600, secs / 60 % 60, secs % 60);
    HmsArithmetic(secs);
  }

  /** Minutes are not range-checked: "0:90:00" is 5400 seconds. */
  lemma MinutesNotRangeChecked()
    ensures DeserializeGarminDuration("0:90:00") == Ok(FromSecs(5400))
  {
    SplitThree("0", "90", "00", ':');
    assert "0:90:00" == "0" + [':'] + "90" + [':'] + "00";
    assert Split("0:90:00", ':') == ["0", "90", "00"];
    assert DigitsValue("0") == 0 by {
      assert "0"[..0] == "";
    }
    assert DigitsValue("90") == 90 by {
      assert "90"[..1] == "9" && "9"[..0] == "";
    }
    assert DigitsValue("00") == 0 by {
      assert "00"[..1] == "0" && "0"[..0] == "";
    }
    ParseU64Digits("0");
    ParseU64Digits("90");
    ParseU64Digits("00");
    var r := HmsDuration(0, 90, 0);
    assert r.secs == 5400 && r.nanos == 0;
  }

  /**
   * `Activity` as the CSV deserializer builds it: both columns must decode;
   * the `Date` column is decoded first, as it comes first in the export.
   */
  function DeserializeActivity(row: Row): (r: Result<Activity, string>)
    ensures r.Ok? <==> DeserializeGarminDate(row.date).Ok? && DeserializeGarminDuration(row.time).Ok?
    ensures r.Ok? ==> r.value.date == DeserializeGarminDate(row.date).value
    ensures r.Ok? ==> r.value.duration == DeserializeGarminDuration(row.time).value
  {
    match DeserializeGarminDate(row.date)
    case Err(e) => Err(e)
    case Ok(date) =>
      match DeserializeGarminDuration(row.time)
      case Err(e) => Err(e)
      case Ok(duration) => Ok(Activity(date, duration))
  }

  /**
   * `collect::<Result<Vec<_>, _>>()` over the decoded rows from index `from`:
   * all values in order, or the first failure, numbered by its index.
   */
  function CollectFrom(results: seq<Result<Activity, string>>, from: nat): (r: Result<seq<Activity>, Error>)
    requires from <= |results|
    ensures r.Ok? <==> forall i | from <= i < |results| :: results[i].Ok?
    ensures r.Ok? ==> (
      && |r.value| == |results| - from
      && forall i | 0 <= i < |r.value| :: results[from + i] == Ok(r.value[i]))
    ensures r.Err? ==> (
      && r.error.ActivityFormatError?
      && from <= r.error.record < |results|
      && results[r.error.record] == Err(r.error.message)
      && forall i | from <= i < r.error.record :: results[i].Ok?)
    decreases |results| - from
  {
    if from == |results| then
      Ok([])
    else
      match results[from]
      case Err(e) => Err(ActivityFormatError(from, e))
      case Ok(a) =>
        match CollectFrom(results, from + 1)
        case Err(e) => Err(e)
        case Ok(rest) => Ok([a] + rest)
  }

  /** `deserialize::<Activity>()` over the rows: one decoding result per row. */
  function DecodeRows(rows: seq<Row>): (r: seq<Result<Activity, string>>)
    ensures |r| == |rows|
    ensures forall i | 0 <= i < |rows| :: r[i] == DeserializeActivity(rows[i])
  {
    seq(|rows|, i requires 0 <= i < |rows| => DeserializeActivity(rows[i]))
  }

  /**
   * The row-collection step of `Activities::load_file`: when every row
   * decodes, the log holds one activity per row in file order; otherwise the
   * load fails with `ActivityFormatError` naming the first row that does not
   * decode, and the rows after it are not looked at.
   */
  function LoadRows(rows: seq<Row>): (r: Result<Activities, Error>)
    ensures r.Ok? <==> forall i | 0 <= i < |rows| :: DeserializeActivity(rows[i]).Ok?
    ensures r.Ok? ==> (
      && |r.value.activities| == |rows|
      && forall i | 0 <= i < |rows| :: DeserializeActivity(rows[i]) == Ok(r.value.activities[i]))
    ensures r.Err? ==> (
      && r.error.ActivityFormatError?
      && r.error.record < |rows|
      && DeserializeActivity(rows[r.error.record]) == Err(r.error.message)
      && forall i | 0 <= i < r.error.record :: DeserializeActivity(rows[i]).Ok?)
  {
    match CollectFrom(DecodeRows(rows), 0)
    case Err(e) => Err(e)
    case Ok(acts) => Ok(Activities(acts))
  }
}
