// The three relative-time labels: the feed post card's, the broadcast
// card's and the plain post card's. Each is a function of the whole
// seconds elapsed, `Math.floor((now - then) / 1000)`.

module TimeAgo {

  const Minute := 60
  const Hour := 3600
  const Day := 86400
  const Week := 604800
  const Month := 2592000
  const Year := 31536000

  /** `Math.floor(ms / 1000)`; Dafny's division by a positive number floors. */
  function ElapsedSeconds(nowMs: int, thenMs: int): (r: int)
    ensures r * 1000 <= nowMs - thenMs < (r + 1) * 1000
  {
    (nowMs - thenMs) / 1000
  }

  datatype Unit = Seconds | Minutes | Hours | Days | Months | Years

  /** A label: the fixed "just now", a count of units, or a calendar date
    * (whose locale formatting is not modelled). */
  datatype Label = JustNow | Ago(count: int, unit: Unit) | CalendarDate

  function UnitLength(u: Unit): nat {
    match u
    case Seconds => 1
    case Minutes => Minute
    case Hours => Hour
    case Days => Day
    case Months => Month
    case Years => Year
  }

  /** The count of a label is the elapsed time floored to its unit. */
  predicate Floors(shown: Label, seconds: int) {
    shown.Ago? ==> shown.count == seconds / UnitLength(shown.unit)
  }

  /** Whole minutes floored to hours are whole hours. */
  lemma MinutesToHours(seconds: int)
    ensures (seconds / Minute) / 60 == seconds / Hour
  {
    var q, q2 := seconds / 60, (seconds / 60) / 60;
    assert seconds == 60 * q + seconds % 60;
    assert q == 60 * q2 + q % 60;
    assert seconds == 3600 * q2 + (60 * (q % 60) + seconds % 60);
  }

  /** Whole hours floored to days are whole days. */
  lemma HoursToDays(seconds: int)
    ensures (seconds / Hour) / 24 == seconds / Day
  {
    var q, q2 := seconds / 3600, (seconds / 3600) / 24;
    assert seconds == 3600 * q + seconds % 3600;
    assert q == 24 * q2 + q % 24;
    assert seconds == 86400 * q2 + (3600 * (q % 24) + seconds % 3600);
  }

  // ------------------------------------------------------ feed post card

  /** The feed post card: the day count compared as a fraction (> 7 is a
    * date, > 1 is days), then whole hours > 1, whole minutes > 1, else
    * "Just now". */
  function FeedLabel(seconds: int): (r: Label)
    ensures Floors(r, seconds)
    ensures r == CalendarDate <==> seconds > 7 * Day
    ensures r.Ago? && r.unit == Days <==> Day < seconds <= 7 * Day
    ensures r.Ago? && r.unit == Hours <==> 2 * Hour <= seconds <= Day
    ensures r.Ago? && r.unit == Minutes <==> 2 * Minute <= seconds < 2 * Hour
    ensures r == JustNow <==> seconds < 2 * Minute
    ensures r.Ago? ==> r.count >= 1
  {
    if seconds > 7 * Day then CalendarDate
    else if seconds > Day then Ago(seconds / Day, Days)
    else if seconds / Hour > 1 then Ago(seconds / Hour, Hours)
    else if seconds / Minute > 1 then Ago(seconds / Minute, Minutes)
    else JustNow
  }

  /** One hour fifty-nine minutes is still counted in minutes, and exactly
    * one day in hours. */
  lemma FeedLabelEdges()
    ensures FeedLabel(119) == JustNow && FeedLabel(120) == Ago(2, Minutes)
    ensures FeedLabel(Hour + 59 * Minute) == Ago(119, Minutes)
    ensures FeedLabel(Day) == Ago(24, Hours)
    ensures FeedLabel(7 * Day) == Ago(7, Days) && FeedLabel(7 * Day + 1) == CalendarDate
  {
  }

  // ------------------------------------------------------ broadcast card

  /** The broadcast card: "just now" under five seconds, then seconds,
    * whole minutes under 60, whole hours under 24, whole days under 7,
    * else a date; each step floors the previous count. */
  function BroadcastLabel(seconds: int): (r: Label)
    ensures Floors(r, seconds)
  {
    if seconds < 5 then JustNow
    else if seconds < 60 then Ago(seconds, Seconds)
    else
      var minutes := seconds / 60;
      if minutes < 60 then Ago(minutes, Minutes)
      else
        var hours := minutes / 60;
        MinutesToHours(seconds);
        if hours < 24 then Ago(hours, Hours)
        else
          var days := hours / 24;
          HoursToDays(seconds);
          if days < 7 then Ago(days, Days) else CalendarDate
  }

  /** The branches tile the time line: every elapsed count falls in exactly
    * one range, and each range yields its unit. */
  lemma BroadcastBuckets(seconds: int)
    ensures seconds < 5 ==> BroadcastLabel(seconds) == JustNow
    ensures 5 <= seconds < Minute ==> BroadcastLabel(seconds) == Ago(seconds, Seconds)
    ensures Minute <= seconds < Hour ==> BroadcastLabel(seconds) == Ago(seconds / Minute, Minutes)
    ensures Hour <= seconds < Day ==> BroadcastLabel(seconds) == Ago(seconds / Hour, Hours)
    ensures Day <= seconds < Week ==> BroadcastLabel(seconds) == Ago(seconds / Day, Days)
    ensures Week <= seconds ==> BroadcastLabel(seconds) == CalendarDate
  {
    if seconds >= 60 {
      MinutesToHours(seconds);
      HoursToDays(seconds);
      assert seconds / 60 < 60 <==> seconds < Hour;
      assert seconds / 3600 < 24 <==> seconds < Day;
      assert seconds / 86400 < 7 <==> seconds < Week;
    }
  }

  // ----------------------------------------------------------- post card

  /** The post card: the first of year, month, day, hour, minute that the
    * elapsed time strictly exceeds gives the floored count in that unit;
    * otherwise the seconds themselves. */
  function PostLabel(seconds: int): (r: Label)
    ensures r.Ago? && Floors(r, seconds)
    ensures r.unit != Seconds ==> seconds > UnitLength(r.unit) && r.count >= 1
    ensures r.unit == Years <==> seconds > Year
    ensures r.unit == Months <==> Month < seconds <= Year
    ensures r.unit == Days <==> Day < seconds <= Month
    ensures r.unit == Hours <==> Hour < seconds <= Day
    ensures r.unit == Minutes <==> Minute < seconds <= Hour
    ensures r.unit == Seconds <==> seconds <= Minute
  {
    if seconds > Year then Ago(seconds / Year, Years)
    else if seconds > Month then Ago(seconds / Month, Months)
    else if seconds > Day then Ago(seconds / Day, Days)
    else if seconds > Hour then Ago(seconds / Hour, Hours)
    else if seconds > Minute then Ago(seconds / Minute, Minutes)
    else Ago(seconds, Seconds)
  }

  /** The strict thresholds: a full minute still counts in seconds, a full
    * year in months. */
  lemma PostLabelEdges()
    ensures PostLabel(60) == Ago(60, Seconds)
    ensures PostLabel(61) == Ago(1, Minutes)
    ensures PostLabel(365 * Day) == Ago(12, Months)
    ensures PostLabel(365 * Day + 1) == Ago(1, Years)
  {
  }

  /** The post card's text: the count, the plural unit name, "ago". */
  function UnitName(u: Unit): string {
    match u
    case Seconds => "seconds"
    case Minutes => "minutes"
    case Hours => "hours"
    case Days => "days"
    case Months => "months"
    case Years => "years"
  }

  function Digits(n: nat): (r: string)
    ensures |r| >= 1
    ensures forall i :: 0 <= i < |r| ==> '0' <= r[i] <= '9'
    decreases n
  {
    if n < 10 then [(48 + n) as char] else Digits(n / 10) + [(48 + n % 10) as char]
  }

  /** `String(n)` for an integer. */
  function Decimal(n: int): string {
    if n < 0 then "-" + Digits(-n) else Digits(n)
  }

  function PostText(seconds: int): string {
    var shown := PostLabel(seconds);
    Decimal(shown.count) + " " + UnitName(shown.unit) + " ago"
  }

  /** There is no singular form. */
  lemma NoSingular()
    ensures PostText(61) == "1 minutes ago"
    ensures PostText(60) == "60 seconds ago"
  {
    OneMinuteText();
    SixtySecondsText();
  }

  lemma OneMinuteText()
    ensures PostText(61) == "1 minutes ago"
  {
    assert PostLabel(61) == Ago(1, Minutes);
    assert Decimal(1) == "1";
  }

  lemma SixtySecondsText()
    ensures PostText(60) == "60 seconds ago"
  {
    assert PostLabel(60) == Ago(60, Seconds);
    assert Digits(6) == "6" && Digits(0) == "0";
    assert Decimal(60) == "60";
  }
}
