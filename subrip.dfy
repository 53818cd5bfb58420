/**
 * The part of the pysrt library that the alignment script relies on. pysrt is
 * not part of this model: these definitions state what the script assumes of a
 * subtitle entry (SubRipItem) and of a subtitle time (SubRipTime). A SubRipTime
 * is an ordinal counting milliseconds; its hours, minutes, seconds and
 * milliseconds attributes are the components of that ordinal read as
 * h:m:s,ms, computed with Python's floor division and modulo.
 */
module SubRip {
  import opened Outcomes

  const MillisPerSecond: nat := 1000
  const MillisPerMinute: nat := 60 * MillisPerSecond
  const MillisPerHour: nat := 60 * MillisPerMinute
  const MillisPerDay: nat := 24 * MillisPerHour

  /** The value of a subtitle entry at one moment: its start and end ordinals and its text. */
  datatype Line = Line(start: nat, end: nat, text: string)

  /** A subtitle entry as parsed from an .srt file; its fields can be updated in place. */
  class SubRipItem {
    var start: nat
    var end: nat
    var text: string

    constructor (start: nat, end: nat, text: string)
      ensures Value() == Line(start, end, text)
    {
      this.start := start;
      this.end := end;
      this.text := text;
    }

    function Value(): Line
      reads this
    {
      Line(start, end, text)
    }
  }

  /** The current values of a list of entries. */
  function Values(items: seq<SubRipItem>): seq<Line>
    reads items
  {
    seq(|items|, k requires 0 <= k < |items| reads items => items[k].Value())
  }

  /** No entry object occurs twice in the list (true of every list pysrt.open returns). */
  predicate Distinct(items: seq<SubRipItem>)
  {
    forall i, j :: 0 <= i < |items| && 0 <= j < |items| && i != j ==> items[i] != items[j]
  }

  /**
   * The `seconds` attribute of a SubRipTime with the given ordinal: the seconds
   * COMPONENT of its h:m:s,ms reading, (ordinal % 60000) // 1000, not the
   * total number of seconds. Dafny's `%` and `/` agree with Python's for a
   * positive divisor.
   */
  function SecondsField(ordinal: int): (s: int)
    ensures 0 <= s < 60
  {
    (ordinal % MillisPerMinute) / MillisPerSecond
  }

  /** A Python `datetime.time` value. */
  datatype Time = Time(hour: int, minute: int, second: int, microsecond: int)

  /** The ranges `datetime.time` accepts; it raises ValueError outside them. */
  predicate ValidTime(t: Time)
  {
    && 0 <= t.hour < 24
    && 0 <= t.minute < 60
    && 0 <= t.second < 60
    && 0 <= t.microsecond < 1000000
  }

  /**
   * SubRipTime.to_time: `datetime.time(hours, minutes, seconds, milliseconds * 1000)`.
   * None stands for the ValueError raised when the hours component is not 0..23.
   */
  function ToTime(ordinal: int): (r: Option<Time>)
    ensures r.Some? <==> 0 <= ordinal < MillisPerDay
    ensures r.Some? ==> ValidTime(r.value)
  {
    var t := Time(ordinal / MillisPerHour,
                  (ordinal % MillisPerHour) / MillisPerMinute,
                  (ordinal % MillisPerMinute) / MillisPerSecond,
                  (ordinal % MillisPerSecond) * 1000);
    if ValidTime(t) then Some(t) else None
  }
}
