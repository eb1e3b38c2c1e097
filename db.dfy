/**
 * The service registry (src/db/mod.rs): components with their service
 * history, and the usage each has accrued since it was last serviced.
 */
module Db {
  import opened Errors
  import opened Durations
  import opened Calendar
  import opened GarminActivities

  /** The largest instant of a non-empty set: `BTreeSet::last`. */
  function MaxOf(s: set<Instant>): (m: Instant)
    requires s != {}
    ensures m in s && forall t | t in s :: t <= m
  {
    MaxExists(s);
    var m :| m in s && forall t | t in s :: t <= m;
    m
  }

  lemma MaxExists(s: set<Instant>)
    requires s != {}
    ensures exists m :: m in s && forall t | t in s :: t <= m
  {
    var m := MaxWitness(s);
  }

  lemma {:induction false} MaxWitness(s: set<Instant>) returns (m: Instant)
    requires s != {}
    ensures m in s && forall t | t in s :: t <= m
    decreases |s|
  {
    HasMember(s);
    var x :| x in s;
    if s == {x} {
      m := x;
    } else {
      var rest := s - {x};
      assert s == rest + {x};
      var r := MaxWitness(rest);
      m := if x > r then x else r;
    }
  }

  lemma HasMember(s: set<Instant>)
    requires s != {}
    ensures exists x :: x in s
  {
    assert (forall x :: x !in s) ==> s == {};
  }

  /** The service dates of a component as the document lists them, as a set: duplicates collapse. */
  function DecodeServiced(dates: seq<Instant>): (r: set<Instant>)
    ensures forall t :: t in r <==> t in dates
    ensures |r| <= |dates|
  {
    var r := set t | t in dates;
    CardinalityAtMostLength(dates);
    r
  }

  lemma {:induction false} CardinalityAtMostLength(dates: seq<Instant>)
    ensures |set t | t in dates| <= |dates|
    decreases |dates|
  {
    if dates != [] {
      CardinalityAtMostLength(dates[1..]);
      assert (set t | t in dates) == (set t | t in dates[1..]) + {dates[0]};
    }
  }

  /** One tracked component: its name, rated interval and the instants it was serviced. */
  datatype Component = Component(name: string, interval: Duration, serviced: set<Instant>) {

    /**
     * `Component::last_serviced`: nothing when the component was never
     * serviced, otherwise the latest service instant.
     */
    function LastServiced(): (r: Option<Instant>)
      ensures r.None? <==> serviced == {}
      ensures r.Some? ==> r.value in serviced && forall t | t in serviced :: t <= r.value
    {
      if serviced == {} then None else Some(MaxOf(serviced))
    }

    /**
     * `Component::duration_since_last_serviced`: the saturating sum of the
     * durations of the activities dated strictly after the last service, or
     * after the Unix epoch when there was none.
     */
    function DurationSinceLastServiced(activities: seq<Activity>): (r: Duration)
      ensures var cutoff := LastServiced().GetOr(UNIX_EPOCH);
        && TotalNanos(r) == Min(SumNanos(After(activities, cutoff)), MAX_NANOS)
        && r == Activities(activities).TotalDurationSince(cutoff)
    {
      SaturatingFold(ZERO, After(activities, LastServiced().GetOr(UNIX_EPOCH)))
    }
  }

  /** Pairs each component with its accrued duration, in order. */
  function PairWithAccrued(components: seq<Component>, activities: seq<Activity>): (r: seq<(Component, Duration)>)
    ensures |r| == |components|
    ensures forall i | 0 <= i < |r| ::
      r[i].0 == components[i] && r[i].1 == components[i].DurationSinceLastServiced(activities)
    decreases |components|
  {
    if components == [] then
      []
    else
      [(components[0], components[0].DurationSinceLastServiced(activities))]
        + PairWithAccrued(components[1..], activities)
  }

  /** The registry: the components in document order. `DB::components` is the field itself. */
  datatype DB = DB(components: seq<Component>) {

    /**
     * `DB::duration_since_last_serviced`: exactly one pair per component, in
     * registry order, holding the component unchanged and what it has accrued.
     */
    function DurationSinceLastServiced(activityData: Activities): (r: seq<(Component, Duration)>)
      ensures |r| == |components|
      ensures forall i | 0 <= i < |r| ::
        r[i].0 == components[i] && r[i].1 == components[i].DurationSinceLastServiced(activityData.activities)
    {
      PairWithAccrued(components, activityData.activities)
    }
  }

  /** Adding a service instant gives the latest of the old last service and the new one. */
  lemma LastServicedAfterService(c: Component, t: Instant)
    ensures var c' := c.(serviced := c.serviced + {t});
      c'.LastServiced() == Some(if c.serviced == {} || c.LastServiced().value <= t then t else c.LastServiced().value)
  {
  }

  /**
   * A never-serviced component accrues all recorded activity, as the doc
   * comment of `duration_since_last_serviced` says, provided every activity
   * is dated after the Unix epoch.
   */
  lemma NeverServicedAccruesEverything(c: Component, activities: seq<Activity>)
    requires c.serviced == {}
    requires forall i | 0 <= i < |activities| :: activities[i].date > UNIX_EPOCH
    ensures c.DurationSinceLastServiced(activities) == Activities(activities).TotalDuration()
  {
    SinceBeforeEverything(Activities(activities), UNIX_EPOCH);
  }

  /**
   * The epoch cutoff is a real bound: an activity dated before 1970 is not
   * counted for a never-serviced component, although it is in the total.
   */
  lemma NeverServicedSkipsPreEpoch()
    ensures var c := Component("fork", ZERO, {});
      var activities := [Activity(-1, FromSecs(3600))];
      && c.DurationSinceLastServiced(activities) == ZERO
      && Activities(activities).TotalDuration() == FromSecs(3600)
  {
    var activities := [Activity(-1, FromSecs(3600))];
    assert After(activities, UNIX_EPOCH) == [];
    TotalNanosInjective(Activities(activities).TotalDuration(), FromSecs(3600));
  }

  /** An activity dated exactly at the last service is not counted. */
  lemma ServiceInstantExcluded(c: Component, pre: seq<Activity>, post: seq<Activity>, d: Duration)
    requires c.serviced != {}
    ensures var t := c.LastServiced().value;
      c.DurationSinceLastServiced(pre + [Activity(t, d)] + post) == c.DurationSinceLastServiced(pre + post)
  {
    SinceExcludesBoundary(pre, post, c.LastServiced().value, d);
  }

  /**
   * Servicing a component never increases what it has accrued: the cutoff
   * can only move later. For a never-serviced component this needs the new
   * service instant to be no earlier than the epoch cutoff it replaces.
   */
  lemma ServiceNeverIncreasesAccrued(c: Component, t: Instant, activities: seq<Activity>)
    requires c.serviced != {} || t >= UNIX_EPOCH
    ensures var c' := c.(serviced := c.serviced + {t});
      TotalNanos(c'.DurationSinceLastServiced(activities)) <= TotalNanos(c.DurationSinceLastServiced(activities))
  {
    var c' := c.(serviced := c.serviced + {t});
    LastServicedAfterService(c, t);
    SinceAntitone(Activities(activities), c.LastServiced().GetOr(UNIX_EPOCH), c'.LastServiced().GetOr(UNIX_EPOCH));
  }

  /** Without the side condition it fails: a first service dated before 1970 widens the window. */
  lemma PreEpochFirstServiceWidensWindow()
    ensures var c := Component("fork", ZERO, {});
      var c' := c.(serviced := {-10});
      var activities := [Activity(-5, FromSecs(60))];
      && c.DurationSinceLastServiced(activities) == ZERO
      && c'.DurationSinceLastServiced(activities) == FromSecs(60)
  {
    var c' := Component("fork", ZERO, {-10});
    var activities := [Activity(-5, FromSecs(60))];
    assert c'.LastServiced() == Some(-10);
    assert After(activities, -10) == activities;
    assert After(activities, UNIX_EPOCH) == [];
    TotalNanosInjective(c'.DurationSinceLastServiced(activities), FromSecs(60));
  }

  /**
   * Brake fluid serviced at 2024-01-01T00:00:00Z: a 5-hour ride one second
   * earlier is not counted, a 210-hour ride on 2024-06-01 is.
   */
  lemma BrakeFluidScenario()
    ensures var c := Component("Brake Fluid", FromSecs(200 * 3600), {1704067200});
      var activities := [Activity(1704067199, FromSecs(5 * 3600)), Activity(1717200000, FromSecs(210 * 3600))];
      c.DurationSinceLastServiced(activities) == FromSecs(210 * 3600)
  {
    var c := Component("Brake Fluid", FromSecs(200 * 3600), {1704067200});
    var activities := [Activity(1704067199, FromSecs(5 * 3600)), Activity(1717200000, FromSecs(210 * 3600))];
    assert c.LastServiced() == Some(1704067200);
    assert After(activities, 1704067200) == activities[1..];
    TotalNanosInjective(c.DurationSinceLastServiced(activities), FromSecs(210 * 3600));
  }

  /** The same scenario with the instants read from Garmin's date column. */
  lemma BrakeFluidScenarioReadings()
    ensures var service := DeserializeGarminDate("2024-01-01 00:00:00");
      var early := DeserializeGarminDate("2023-12-31 23:59:59");
      var late := DeserializeGarminDate("2024-06-01 00:00:00");
      && service.Ok? && early.Ok? && late.Ok?
      && Component("Brake Fluid", FromSecs(200 * 3600), {service.value}).DurationSinceLastServiced(
           [Activity(early.value, FromSecs(5 * 3600)), Activity(late.value, FromSecs(210 * 3600))])
         == FromSecs(210 * 3600)
  {
    NewYear2024Instant();
    LastSecondOf2023Instant();
    June2024Instant();
    BrakeFluidScenario();
  }
}
