/**
 * The older CSV record decoder (src/garmin/activity_csv.rs): the same
 * `HH:MM:SS` arithmetic as the activity decoder, but a malformed value panics,
 * so here the well-formedness of the value is a precondition.
 */
module GarminActivityCsv {
  import opened Errors
  import opened Durations
  import opened Text
  import opened GarminActivities

  /** A CSV row as this decoder reads it: only the `Time` column. */
  datatype Record = Record(time: Duration)

  /**
   * `deserialize_time`: `hours * 3600 + mins * 60 + secs` seconds from the
   * first three `:`-separated fields, clamped to `Duration::MAX`; fields after
   * the third are ignored.
   */
  function DeserializeTime(s: string): (r: Duration)
    requires |Split(s, ':')| >= 3
    requires ParseU64(Split(s, ':')[0]).Some? && ParseU64(Split(s, ':')[1]).Some?
      && ParseU64(Split(s, ':')[2]).Some?
    ensures r.secs == Min(HmsSeconds(s), U64_MAX)
    ensures r == if HmsSeconds(s) <= U64_MAX then FromSecs(HmsSeconds(s)) else MAX
  {
    var parts := Split(s, ':');
    HmsDuration(ParseU64(parts[0]).value, ParseU64(parts[1]).value, ParseU64(parts[2]).value)
  }

  /**
   * The two decoders accept the same strings (the panics of `deserialize_time`
   * are exactly the errors of `deserialize_garmin_duration`) and agree on them.
   */
  lemma DeserializeTimeAgrees(s: string)
    ensures DeserializeGarminDuration(s).Ok? <==>
      (|Split(s, ':')| >= 3 && ParseU64(Split(s, ':')[0]).Some? && ParseU64(Split(s, ':')[1]).Some?
       && ParseU64(Split(s, ':')[2]).Some?)
    ensures DeserializeGarminDuration(s).Ok? ==> DeserializeGarminDuration(s).value == DeserializeTime(s)
  {
  }

  /** `Record` decoded from a row: its `time` is what the activity decoder reads from the same column. */
  function DeserializeRecord(row: Row): (r: Record)
    requires IsHmsText(row.time)
    ensures DeserializeGarminDuration(row.time) == Ok(r.time)
  {
    Record(DeserializeTime(row.time))
  }
}
