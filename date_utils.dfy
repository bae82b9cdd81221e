/**
 * The date helpers of `src/utils/dateUtils.ts`.
 *
 * A JavaScript `Date` is an instant counted in milliseconds since the epoch
 * (an `int` here). Its calendar fields (`getHours`, `setHours`, ...) are read
 * in the host's local time, which this model takes to be a fixed offset `tz`
 * in milliseconds: local time = instant + `tz`. Day and time-of-day follow
 * ECMAScript (`Day(t) = floor(t / msPerDay)`); for the positive divisor used
 * here Dafny's `/` and `%` are exactly that floor division.
 */
module DateUtils {
  import opened Wrappers
  import opened Strings

  const MsPerSecond: int := 1000
  const MsPerMinute: int := 60 * MsPerSecond
  const MsPerHour: int := 60 * MsPerMinute
  const MsPerDay: int := 24 * MsPerHour

  /** The fixed shift `getKoreanDate` applies: nine hours. */
  const KoreaOffsetMs: int := 9 * MsPerHour

  /** Offset, from the start of the local day, of the last instant the rate-limit window includes (23:59:59.000). */
  const LastSecondOfDay: int := 23 * MsPerHour + 59 * MsPerMinute + 59 * MsPerSecond

  // ---------------------------------------------------------------------------
  // getKoreanDate
  // ---------------------------------------------------------------------------

  /**
   * `getKoreanDate(date)`: the instant nine hours after `date`. The form with no
   * argument shifts the current time; the model's callers pass the clock reading.
   */
  function GetKoreanDate(date: int): (shifted: int)
    ensures shifted - date == 32_400_000
  {
    date + KoreaOffsetMs
  }

  // ---------------------------------------------------------------------------
  // local-time fields of an instant
  // ---------------------------------------------------------------------------

  function LocalTime(t: int, tz: int): int
  {
    t + tz
  }

  /** The local calendar day of `t`, counted in days since the epoch. */
  function Day(t: int, tz: int): int
  {
    LocalTime(t, tz) / MsPerDay
  }

  /** Milliseconds elapsed since local midnight. */
  function TimeWithinDay(t: int, tz: int): int
  {
    LocalTime(t, tz) % MsPerDay
  }

  function Hours(t: int, tz: int): int
  {
    TimeWithinDay(t, tz) / MsPerHour
  }

  function Minutes(t: int, tz: int): int
  {
    (TimeWithinDay(t, tz) / MsPerMinute) % 60
  }

  function Seconds(t: int, tz: int): int
  {
    (TimeWithinDay(t, tz) / MsPerSecond) % 60
  }

  function Milliseconds(t: int, tz: int): int
  {
    TimeWithinDay(t, tz) % MsPerSecond
  }

  /** The instant of local midnight that starts the day of `t`. */
  function StartOfDay(t: int, tz: int): int
  {
    Day(t, tz) * MsPerDay - tz
  }

  /** Floor division is the unique quotient/remainder pair with the remainder in [0, k). */
  lemma DivModUnique(a: int, k: int, q: int, r: int)
    requires k > 0 && 0 <= r < k && a == q * k + r
    ensures a / k == q && a % k == r
  {
    var d := a / k - q;
    assert d * k == r - a % k;
    if d >= 1 {
      MultipleAtLeast(d, k);
      assert false;
    } else if d <= -1 {
      MultipleAtLeast(-d, k);
      assert false;
    }
  }

  lemma MultipleAtLeast(d: int, k: int)
    requires d >= 1 && k > 0
    ensures d * k >= k
  {
  }

  /**
   * Reading the shifted instant with the host's offset gives the calendar day
   * and clock time of the original instant in a zone nine hours further east:
   * on a UTC host, Korean wall-clock time.
   */
  lemma KoreanDateIsKoreanWallClock(date: int, tz: int)
    ensures Day(GetKoreanDate(date), tz) == Day(date, tz + KoreaOffsetMs)
    ensures TimeWithinDay(GetKoreanDate(date), tz) == TimeWithinDay(date, tz + KoreaOffsetMs)
  {
  }

  // ---------------------------------------------------------------------------
  // setHours and combineDateAndTime
  // ---------------------------------------------------------------------------

  /**
   * `d.setHours(h, m, s, ms)` on a copy of `d`: keep the local day of `d`,
   * replace its time of day by `h:m:s.ms`, and convert back to an instant.
   * Out-of-range fields carry into neighbouring days, as in JavaScript.
   */
  function SetHours(t: int, h: int, m: int, s: int, ms: int, tz: int): (r: int)
    ensures r - StartOfDay(t, tz) == h * MsPerHour + m * MsPerMinute + s * MsPerSecond + ms
    ensures Milliseconds(r, tz) == ms % MsPerSecond
  {
    var r := Day(t, tz) * MsPerDay + (h * MsPerHour + m * MsPerMinute + s * MsPerSecond + ms) - tz;
    SetHoursMilliseconds(t, h, m, s, ms, tz, r);
    r
  }

  /** The fields above milliseconds are whole seconds, so only `ms` shows in the millisecond field. */
  lemma SetHoursMilliseconds(t: int, h: int, m: int, s: int, ms: int, tz: int, r: int)
    requires r == Day(t, tz) * MsPerDay + (h * MsPerHour + m * MsPerMinute + s * MsPerSecond + ms) - tz
    ensures Milliseconds(r, tz) == ms % MsPerSecond
  {
    var lt := LocalTime(r, tz);
    var d := lt / MsPerDay;
    var seconds := (Day(t, tz) - d) * 86400 + h * 3600 + m * 60 + s + ms / MsPerSecond;
    assert TimeWithinDay(r, tz) == lt - d * MsPerDay;
    assert TimeWithinDay(r, tz) == seconds * MsPerSecond + ms % MsPerSecond;
    DivModUnique(TimeWithinDay(r, tz), MsPerSecond, seconds, ms % MsPerSecond);
  }

  /**
   * The text half of `combineDateAndTime`: split `time` on `':'` and read the
   * first three pieces with `Number` as hours, minutes and seconds (further
   * pieces are ignored). A missing or non-numeric piece gives `None`.
   */
  function ReadClock(time: string): (clock: Option<(nat, nat, nat)>)
    ensures clock.None? <==>
      var fields := Split(time, ':');
      |fields| < 3 || !AllDigits(fields[0]) || !AllDigits(fields[1]) || !AllDigits(fields[2])
    ensures clock.Some? ==>
      var fields := Split(time, ':');
      clock.value == (DecimalValue(fields[0]), DecimalValue(fields[1]), DecimalValue(fields[2]))
  {
    var fields := Split(time, ':');
    if |fields| < 3 then None
    else
      match (ParseNumber(fields[0]), ParseNumber(fields[1]), ParseNumber(fields[2]))
      case (Some(h), Some(m), Some(s)) => Some((h, m, s))
      case _ => None
  }

  /**
   * `combineDateAndTime(date, time)`: set the hours, minutes and seconds read
   * from `time`, with milliseconds 0, on a copy of `date`. When a field cannot
   * be read JavaScript produces an Invalid Date: `None` here. `date` is a
   * value, so the caller's date cannot be changed.
   */
  function CombineDateAndTime(date: int, time: string, tz: int): (combined: Option<int>)
    ensures combined.None? <==> ReadClock(time).None?
    ensures combined.Some? ==> Milliseconds(combined.value, tz) == 0
    ensures combined.Some? ==>
      var (h, m, s) := ReadClock(time).value;
      combined.value - StartOfDay(date, tz) == h * MsPerHour + m * MsPerMinute + s * MsPerSecond
  {
    match ReadClock(time)
    case Some((h, m, s)) => Some(SetHours(date, h, m, s, 0, tz))
    case None => None
  }

  /** A two-digit clock field such as `"07"`. */
  function TwoDigits(n: nat): (s: string)
    requires n < 100
    ensures |s| == 2 && AllDigits(s) && DecimalValue(s) == n
  {
    var s := [DigitChar(n / 10), DigitChar(n % 10)];
    assert s[..1] == [DigitChar(n / 10)] && s[..1][..0] == [];
    assert DecimalValue(s[..1]) == n / 10;
    s
  }

  /** The `"HH:MM:SS"` text of a clock time. */
  function ClockString(h: nat, m: nat, s: nat): string
    requires h < 24 && m < 60 && s < 60
  {
    TwoDigits(h) + ":" + TwoDigits(m) + ":" + TwoDigits(s)
  }

  /**
   * Parsing: an `"HH:MM:SS"` string, optionally followed by more `':'`-separated
   * pieces, is read in the order hours, minutes, seconds.
   */
  lemma ReadClockString(h: nat, m: nat, s: nat, tail: string)
    requires h < 24 && m < 60 && s < 60
    requires tail == [] || tail[0] == ':'
    ensures ReadClock(ClockString(h, m, s) + tail) == Some((h, m, s))
  {
    var hh, mm, ss := TwoDigits(h), TwoDigits(m), TwoDigits(s);
    var time := ClockString(h, m, s) + tail;
    var last := SplitLastField(ss, tail);
    assert time == hh + [':'] + (mm + [':'] + (ss + tail));
    SplitAfterPiece(mm, ':', ss + tail);
    SplitAfterPiece(hh, ':', mm + [':'] + (ss + tail));
    var fields := Split(time, ':');
    assert fields == [hh, mm] + last;
    assert fields[0] == hh && fields[1] == mm && fields[2] == ss;
  }

  /** The last clock field, followed by nothing or by `':'` and more, splits off as the first piece. */
  lemma SplitLastField(ss: string, tail: string) returns (pieces: seq<string>)
    requires ':' !in ss
    requires tail == [] || tail[0] == ':'
    ensures Split(ss + tail, ':') == pieces && |pieces| >= 1 && pieces[0] == ss
  {
    if tail == [] {
      assert ss + tail == ss;
      SplitWithoutSeparator(ss, ':');
      pieces := [ss];
    } else {
      assert ss + tail == ss + [':'] + tail[1..];
      SplitAfterPiece(ss, ':', tail[1..]);
      pieces := [ss] + Split(tail[1..], ':');
    }
  }

  /** `combineDateAndTime` on such a string sets exactly those fields. */
  lemma CombineReadsClockString(date: int, h: nat, m: nat, s: nat, tail: string, tz: int)
    requires h < 24 && m < 60 && s < 60
    requires tail == [] || tail[0] == ':'
    ensures CombineDateAndTime(date, ClockString(h, m, s) + tail, tz) == Some(SetHours(date, h, m, s, 0, tz))
  {
    ReadClockString(h, m, s, tail);
  }

  /**
   * The result of `setHours` with in-range fields lies on the same local day as
   * the input and reads back exactly the hours, minutes and seconds that were set,
   * with milliseconds 0.
   */
  lemma SetHoursReadsBack(t: int, h: nat, m: nat, s: nat, tz: int)
    requires h < 24 && m < 60 && s < 60
    ensures var r := SetHours(t, h, m, s, 0, tz);
      && Day(r, tz) == Day(t, tz)
      && Hours(r, tz) == h && Minutes(r, tz) == m && Seconds(r, tz) == s
      && Milliseconds(r, tz) == 0
  {
    var r := SetHours(t, h, m, s, 0, tz);
    var clock := h * MsPerHour + m * MsPerMinute + s * MsPerSecond;
    assert LocalTime(r, tz) == Day(t, tz) * MsPerDay + clock;
    DivModUnique(LocalTime(r, tz), MsPerDay, Day(t, tz), clock);
    assert TimeWithinDay(r, tz) == clock;
    DivModUnique(clock, MsPerHour, h, m * MsPerMinute + s * MsPerSecond);
    DivModUnique(clock, MsPerMinute, h * 60 + m, s * MsPerSecond);
    DivModUnique(h * 60 + m, 60, h, m);
    DivModUnique(clock, MsPerSecond, h * 3600 + m * 60 + s, 0);
    DivModUnique(h * 3600 + m * 60 + s, 60, h * 60 + m, s);
  }

  /**
   * `combineDateAndTime(date, "HH:MM:SS")` keeps the calendar day of `date`, takes
   * hours, minutes and seconds from the string in that order, and zeroes the
   * milliseconds.
   */
  lemma CombineDateAndTimeSetsClock(date: int, h: nat, m: nat, s: nat, tz: int)
    requires h < 24 && m < 60 && s < 60
    ensures var c := CombineDateAndTime(date, ClockString(h, m, s), tz);
      && c.Some?
      && Day(c.value, tz) == Day(date, tz)
      && Hours(c.value, tz) == h && Minutes(c.value, tz) == m && Seconds(c.value, tz) == s
      && Milliseconds(c.value, tz) == 0
  {
    assert ClockString(h, m, s) + [] == ClockString(h, m, s);
    CombineReadsClockString(date, h, m, s, [], tz);
    SetHoursReadsBack(date, h, m, s, tz);
  }

  /** The clock strings that bound a day's rate-limit window. */
  const DayStartClock: string := "00:00:00"
  const DayEndClock: string := "23:59:59"

  /**
   * The rate-limit window of a day, built from `"00:00:00"` and `"23:59:59"`,
   * starts at local midnight of `today` and ends 86 399 000 ms later, so its start
   * never exceeds its end.
   */
  lemma TodayWindow(today: int, tz: int)
    ensures CombineDateAndTime(today, DayStartClock, tz) == Some(StartOfDay(today, tz))
    ensures CombineDateAndTime(today, DayEndClock, tz) == Some(StartOfDay(today, tz) + LastSecondOfDay)
  {
    CombineAtWindowClocks(today, tz);
    WindowClockInstants(today, tz);
  }

  lemma CombineAtWindowClocks(today: int, tz: int)
    ensures CombineDateAndTime(today, DayStartClock, tz) == Some(SetHours(today, 0, 0, 0, 0, tz))
    ensures CombineDateAndTime(today, DayEndClock, tz) == Some(SetHours(today, 23, 59, 59, 0, tz))
  {
    WindowClocks();
  }

  lemma WindowClockInstants(today: int, tz: int)
    ensures SetHours(today, 0, 0, 0, 0, tz) == StartOfDay(today, tz)
    ensures SetHours(today, 23, 59, 59, 0, tz) == StartOfDay(today, tz) + LastSecondOfDay
  {
  }

  lemma WindowClocks()
    ensures ReadClock(DayStartClock) == Some((0, 0, 0))
    ensures ReadClock(DayEndClock) == Some((23, 59, 59))
  {
    WindowClockStrings();
    ReadClockString(0, 0, 0, []);
    ReadClockString(23, 59, 59, []);
  }

  lemma WindowClockStrings()
    ensures ClockString(0, 0, 0) + [] == DayStartClock
    ensures ClockString(23, 59, 59) + [] == DayEndClock
  {
    assert TwoDigits(0) == "00" && TwoDigits(23) == "23" && TwoDigits(59) == "59";
  }

  /**
   * An instant lies in the window of `today` exactly when it falls on the same
   * local day no later than 23:59:59.000; the last 999 ms of the day are outside
   * every window.
   */
  lemma InTodayWindow(x: int, today: int, tz: int)
    ensures StartOfDay(today, tz) <= x <= StartOfDay(today, tz) + LastSecondOfDay
        <==> Day(x, tz) == Day(today, tz) && TimeWithinDay(x, tz) <= LastSecondOfDay
  {
    var d := Day(today, tz);
    var lt := LocalTime(x, tz);
    if StartOfDay(today, tz) <= x <= StartOfDay(today, tz) + LastSecondOfDay {
      DivModUnique(lt, MsPerDay, d, lt - d * MsPerDay);
    }
    if Day(x, tz) == d && TimeWithinDay(x, tz) <= LastSecondOfDay {
      assert lt == Day(x, tz) * MsPerDay + TimeWithinDay(x, tz);
    }
  }

  /** An instant lies between the start of its local day and the start of the next. */
  lemma DayBounds(x: int, tz: int)
    ensures Day(x, tz) * MsPerDay <= LocalTime(x, tz) < (Day(x, tz) + 1) * MsPerDay
  {
  }

  /** Later instants never fall on earlier local days. */
  lemma DayMonotone(x: int, y: int, tz: int)
    requires x <= y
    ensures Day(x, tz) <= Day(y, tz)
  {
    DayBounds(x, tz);
    DayBounds(y, tz);
    var a := Day(x, tz) - Day(y, tz) - 1;
    assert a * MsPerDay < 0;
    NegativeFactor(a, MsPerDay);
  }

  lemma NegativeFactor(a: int, k: int)
    requires k > 0 && a * k < 0
    ensures a < 0
  {
    if a >= 0 {
      ProductNonNegative(a, k);
      assert false;
    }
  }

  lemma ProductNonNegative(a: int, k: int)
    requires a >= 0 && k >= 0
    ensures a * k >= 0
  {
  }

  /** An instant on a local day before `d` lies before the window of day `d`. */
  lemma BeforeWindowOfDay(x: int, d: int, tz: int)
    requires Day(x, tz) < d
    ensures x < d * MsPerDay - tz
  {
    DayBounds(x, tz);
    var gap := d - Day(x, tz) - 1;
    assert gap >= 0;
    assert gap * MsPerDay >= 0;
    assert d * MsPerDay == (Day(x, tz) + 1) * MsPerDay + gap * MsPerDay;
  }

  /** An instant inside the window of local day `d` falls on day `d`. */
  lemma WindowOfDay(x: int, d: int, tz: int)
    requires d * MsPerDay - tz <= x <= d * MsPerDay - tz + LastSecondOfDay
    ensures Day(x, tz) == d
  {
    DivModUnique(LocalTime(x, tz), MsPerDay, d, LocalTime(x, tz) - d * MsPerDay);
  }
}
