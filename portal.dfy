/**
 * The "Nowcast Portal" page of the dashboard: the default nowcast origin t0, the
 * observation shown up to two hours before t0, the one-hour nowcast issued at t0,
 * and what the page shows when an image file is missing.
 */
module Portal {
  import opened Wrappers
  import opened Calendar
  import opened Timestamp
  import opened Artifacts

  const ObservationPrefix := "./public/images/observation/observation-"
  const NowcastPrefix := "./public/images/nowcast/nowcast-"
  const NoDataMessage := "No data available"
  const PixelNote := "1 pixel is equal to 45 Km"
  const NowcastMissingLead := "Nowcast unavailable since no cores were observed at "
  const UtcSuffix := " UTC"

  /** The values the slider offers: -120 to 0 minutes in steps of 15. */
  predicate IsSliderValue(v: int) {
    -120 <= v <= 0 && v % 15 == 0
  }

  /** The slider offers exactly nine offsets. */
  lemma SliderValues(v: int)
    ensures IsSliderValue(v) <==> v in {-120, -105, -90, -75, -60, -45, -30, -15, 0}
  {
  }

  /**
   * The default time of the time picker: the current UTC time with its minute rounded
   * down to a multiple of 15 and its seconds and microseconds cleared.
   */
  function DefaultTime(now: DateTime): (t: Time)
    requires ValidDateTime(now)
    ensures ValidTime(t) && t.hour == now.time.hour && t.second == 0 && t.microsecond == 0
    ensures t.minute % 15 == 0 && t.minute <= now.time.minute < t.minute + 15
  {
    Time(now.time.hour, (now.time.minute / 15) * 15, 0, 0)
  }

  /** The default origin (today's date with the rounded time) lies in the last quarter hour. */
  lemma DefaultOriginWithinQuarterHour(now: DateTime)
    requires ValidDateTime(now)
    ensures ValidDateTime(Combine(now.date, DefaultTime(now)))
    ensures MinuteIndex(now) - 15 < MinuteIndex(Combine(now.date, DefaultTime(now))) <= MinuteIndex(now)
  {
  }

  /**
   * The observation instant shown: t0 shifted by the slider offset. It is never after
   * t0, at most two hours before it, and at most one calendar day earlier.
   */
  function DisplayInstant(t0: DateTime, offset: int): (r: DateTime)
    requires ValidDateTime(t0) && IsSliderValue(offset)
    ensures ValidDateTime(r) && MinuteIndex(r) == MinuteIndex(t0) + offset
    ensures MinuteIndex(t0) - 120 <= MinuteIndex(r) <= MinuteIndex(t0)
    ensures r.time.second == t0.time.second && r.time.microsecond == t0.time.microsecond
    ensures r.date == t0.date || r.date == PrevDay(t0.date)
  {
    AddMinutesBackWithinDay(t0, offset);
    AddMinutes(t0, offset)
  }

  /**
   * The choice of date, time and offset is printable when the instant shown falls in a
   * year `%Y` writes with four digits.
   */
  predicate Printed(date: Date, time: Time, offset: int)
    requires ValidDate(date) && ValidTime(time) && IsSliderValue(offset)
  {
    FourDigitYear(DisplayInstant(Combine(date, time), offset))
  }

  /** `./public/images/observation/observation-{YYYY-MM-DD-HH-MM}.png` for the display instant. */
  function ObservationPath(date: Date, time: Time, offset: int): (p: string)
    requires ValidDate(date) && ValidTime(time) && IsSliderValue(offset) && Printed(date, time, offset)
    ensures |p| == |ObservationPrefix| + 20 && p[..|ObservationPrefix|] == ObservationPrefix
    ensures p[|ObservationPrefix| + 16..] == Png
  {
    StampedPath(ObservationPrefix, StampOf(DisplayInstant(Combine(date, time), offset)))
  }

  /**
   * The stamp read back from an observation path names the minute lying `offset`
   * minutes from t0: the path locates the instant the page claims to show.
   */
  lemma ObservationPathLocatesShown(date: Date, time: Time, offset: int)
    requires ValidDate(date) && ValidTime(time) && IsSliderValue(offset) && Printed(date, time, offset)
    ensures ParseStampedPath(ObservationPrefix, ObservationPath(date, time, offset)).Some?
    ensures var s := ParseStampedPath(ObservationPrefix, ObservationPath(date, time, offset)).value;
      ValidDateTime(InstantOf(s)) && MinuteIndex(InstantOf(s)) == MinuteIndex(Combine(date, time)) + offset
  {
    ParseStampedPathOf(ObservationPrefix, StampOf(DisplayInstant(Combine(date, time), offset)));
  }

  /** Two choices share an observation file if and only if they show the same minute. */
  lemma ObservationPathIffSameMinute(d1: Date, t1: Time, o1: int, d2: Date, t2: Time, o2: int)
    requires ValidDate(d1) && ValidTime(t1) && IsSliderValue(o1) && Printed(d1, t1, o1)
    requires ValidDate(d2) && ValidTime(t2) && IsSliderValue(o2) && Printed(d2, t2, o2)
    ensures ObservationPath(d1, t1, o1) == ObservationPath(d2, t2, o2)
            <==> MinuteIndex(Combine(d1, t1)) + o1 == MinuteIndex(Combine(d2, t2)) + o2
  {
    ObservationPathLocatesShown(d1, t1, o1);
    ObservationPathLocatesShown(d2, t2, o2);
    var a, b := DisplayInstant(Combine(d1, t1), o1), DisplayInstant(Combine(d2, t2), o2);
    if MinuteIndex(a) == MinuteIndex(b) {
      MinuteIndexInjective(a, b);
      assert StampOf(a) == StampOf(b);
    }
  }

  /**
   * `./public/images/nowcast/nowcast-{YYYY-MM-DD-HH-MM}.png`, keyed by the origin t0
   * itself; the stamp read back from the path is t0's minute.
   */
  function NowcastPath(t0: DateTime): (p: string)
    requires ValidDateTime(t0) && FourDigitYear(t0)
    ensures |p| == |NowcastPrefix| + 20 && p[..|NowcastPrefix|] == NowcastPrefix
    ensures ParseStampedPath(NowcastPrefix, p) == Some(StampOf(t0))
    ensures p[|NowcastPrefix|..|NowcastPrefix| + 16] == StrfStamp(t0)
  {
    ParseStampedPathOf(NowcastPrefix, StampOf(t0));
    StampedPath(NowcastPrefix, StampOf(t0))
  }

  /** The nowcast file is named after t0, not after the forecast's target t0 + 1 hour. */
  lemma NowcastNotKeyedByTarget(t0: DateTime)
    requires ValidDateTime(t0) && FourDigitYear(t0)
    ensures ParseStampedPath(NowcastPrefix, NowcastPath(t0)) != Some(StampOf(AddMinutes(t0, 60)))
  {
  }

  /** With the slider at 0 the observation and the nowcast carry the same stamp. */
  lemma ZeroOffsetSameStamp(date: Date, time: Time)
    requires ValidDate(date) && ValidTime(time) && FourDigitYear(Combine(date, time))
    ensures Printed(date, time, 0)
    ensures ParseStampedPath(ObservationPrefix, ObservationPath(date, time, 0))
            == ParseStampedPath(NowcastPrefix, NowcastPath(Combine(date, time)))
  {
    AddZeroMinutes(Combine(date, time));
  }

  /** An observation file is never a nowcast file. */
  lemma ObservationIsNotNowcast(date: Date, time: Time, offset: int, t0: DateTime)
    requires ValidDate(date) && ValidTime(time) && IsSliderValue(offset) && Printed(date, time, offset)
    requires ValidDateTime(t0) && FourDigitYear(t0)
    ensures ObservationPath(date, time, offset) != NowcastPath(t0)
  {
  }

  /** The observation column: the image if its file exists, else the "No data" box. */
  function ObservationView(store: Store, date: Date, time: Time, offset: int): (v: View)
    requires ValidDate(date) && ValidTime(time) && IsSliderValue(offset) && Printed(date, time, offset)
    ensures v.Image? <==> ObservationPath(date, time, offset) in store
    ensures v.Image? ==> v.path == ObservationPath(date, time, offset) && v.notes == []
    ensures !v.Image? ==> v == ErrorBox(NoDataMessage)
  {
    var path := ObservationPath(date, time, offset);
    if path in store then Image(path, []) else ErrorBox(NoDataMessage)
  }

  /**
   * The message shown when the nowcast file for t0 is missing: the fixed lead, `str(t0)`
   * and " UTC". The date, hour and minute it prints are those in the stamp of the
   * missing nowcast file, so it names the very minute whose file is absent.
   */
  function NowcastMissingMessage(t0: DateTime): (m: string)
    requires ValidDateTime(t0) && FourDigitYear(t0)
    ensures var n, stamp := |NowcastMissingLead|, NowcastPath(t0)[|NowcastPrefix|..|NowcastPrefix| + 16];
      |m| == n + |IsoText(t0)| + |UtcSuffix| && m[..n] == NowcastMissingLead
      && m[n..n + |IsoText(t0)|] == IsoText(t0) && m[|m| - |UtcSuffix|..] == UtcSuffix
      && m[n..n + 10] == stamp[..10] && m[n + 11..n + 13] == stamp[11..13] && m[n + 14..n + 16] == stamp[14..16]
  {
    var iso := IsoText(t0);
    StrfStampFields(t0);
    assert NowcastPath(t0)[|NowcastPrefix|..|NowcastPrefix| + 16] == StrfStamp(t0);
    EnclosedStamp(NowcastMissingLead, iso, UtcSuffix);
    NowcastMissingLead + iso + UtcSuffix
  }

  /**
   * Where the parts of `lead + iso + tail` sit, and where the date, hour and minute of
   * the `str(datetime)` text `iso` end up.
   */
  lemma EnclosedStamp(lead: string, iso: string, tail: string)
    requires |iso| >= 19
    ensures var m, n := lead + iso + tail, |lead|;
      |m| == n + |iso| + |tail| && m[..n] == lead && m[n..n + |iso|] == iso && m[|m| - |tail|..] == tail
      && m[n..n + 10] == iso[..10] && m[n + 11..n + 13] == iso[11..13] && m[n + 14..n + 16] == iso[14..16]
  {
  }

  /**
   * The nowcast column: the image followed by its scale note if its file exists, else
   * the message naming t0. Neither column ever lets the exception escape.
   */
  function NowcastView(store: Store, t0: DateTime): (v: View)
    requires ValidDateTime(t0) && FourDigitYear(t0)
    ensures v.Image? <==> NowcastPath(t0) in store
    ensures v.Image? ==> v.path == NowcastPath(t0) && v.notes == [PixelNote]
    ensures !v.Image? ==> v == ErrorBox(NowcastMissingMessage(t0))
  {
    var path := NowcastPath(t0);
    if path in store then Image(path, [PixelNote]) else ErrorBox(NowcastMissingMessage(t0))
  }

  /**
   * The observation path of a choice is the one carrying the stamp of any valid instant
   * that lies `offset` minutes from t0.
   */
  lemma ObservationPathNames(date: Date, time: Time, offset: int, shown: DateTime, stamp: string)
    requires ValidDate(date) && ValidTime(time) && IsSliderValue(offset)
    requires ValidDateTime(shown) && MinuteIndex(shown) == MinuteIndex(Combine(date, time)) + offset
    requires FourDigitYear(shown) && FormatStamp(StampOf(shown)) == stamp
    ensures Printed(date, time, offset)
    ensures ObservationPath(date, time, offset) == ObservationPrefix + stamp + Png
  {
    MinuteIndexInjective(shown, DisplayInstant(Combine(date, time), offset));
  }

  /** Going back an hour from half past midnight on New Year's Day borrows into the old year. */
  lemma NewYearBorrow()
    ensures Printed(Date(2021, 1, 1), Time(0, 30, 0, 0), -60)
    ensures ObservationPath(Date(2021, 1, 1), Time(0, 30, 0, 0), -60)
            == ObservationPrefix + "2020-12-31-23-30" + Png
  {
    var shown := DateTime(Date(2020, 12, 31), Time(23, 30, 0, 0));
    assert FormatStamp(StampOf(shown)) == "2020-12-31-23-30";
    assert MinuteIndex(shown) == MinuteIndex(DateTime(Date(2021, 1, 1), Time(0, 30, 0, 0))) + -60;
    ObservationPathNames(Date(2021, 1, 1), Time(0, 30, 0, 0), -60, shown, "2020-12-31-23-30");
  }

  lemma SameDayShift()
    ensures Printed(Date(2020, 7, 11), Time(18, 30, 0, 0), -30)
    ensures ObservationPath(Date(2020, 7, 11), Time(18, 30, 0, 0), -30)
            == ObservationPrefix + "2020-07-11-18-00" + Png
  {
    var shown := DateTime(Date(2020, 7, 11), Time(18, 0, 0, 0));
    assert FormatStamp(StampOf(shown)) == "2020-07-11-18-00";
    assert MinuteIndex(shown) == MinuteIndex(DateTime(Date(2020, 7, 11), Time(18, 30, 0, 0))) + -30;
    ObservationPathNames(Date(2020, 7, 11), Time(18, 30, 0, 0), -30, shown, "2020-07-11-18-00");
  }

  /** Borrowing from 1 March lands on 29 February in a leap year ... */
  lemma LeapFebruaryBorrow()
    ensures Printed(Date(2020, 3, 1), Time(0, 15, 0, 0), -30)
    ensures ObservationPath(Date(2020, 3, 1), Time(0, 15, 0, 0), -30)
            == ObservationPrefix + "2020-02-29-23-45" + Png
  {
    var shown := DateTime(Date(2020, 2, 29), Time(23, 45, 0, 0));
    assert FormatStamp(StampOf(shown)) == "2020-02-29-23-45";
    assert MinuteIndex(shown) == MinuteIndex(DateTime(Date(2020, 3, 1), Time(0, 15, 0, 0))) + -30;
    ObservationPathNames(Date(2020, 3, 1), Time(0, 15, 0, 0), -30, shown, "2020-02-29-23-45");
  }

  /** ... and on 28 February in a common year. */
  lemma CommonFebruaryBorrow()
    ensures Printed(Date(2021, 3, 1), Time(0, 15, 0, 0), -30)
    ensures ObservationPath(Date(2021, 3, 1), Time(0, 15, 0, 0), -30)
            == ObservationPrefix + "2021-02-28-23-45" + Png
  {
    var shown := DateTime(Date(2021, 2, 28), Time(23, 45, 0, 0));
    assert FormatStamp(StampOf(shown)) == "2021-02-28-23-45";
    assert MinuteIndex(shown) == MinuteIndex(DateTime(Date(2021, 3, 1), Time(0, 15, 0, 0))) + -30;
    ObservationPathNames(Date(2021, 3, 1), Time(0, 15, 0, 0), -30, shown, "2021-02-28-23-45");
  }

  /** A century year is a leap year when divisible by 400: 2000 has a 29 February ... */
  lemma CenturyLeapBorrow()
    ensures Printed(Date(2000, 3, 1), Time(1, 0, 0, 0), -120)
    ensures ObservationPath(Date(2000, 3, 1), Time(1, 0, 0, 0), -120)
            == ObservationPrefix + "2000-02-29-23-00" + Png
  {
    var shown := DateTime(Date(2000, 2, 29), Time(23, 0, 0, 0));
    assert FormatStamp(StampOf(shown)) == "2000-02-29-23-00";
    assert MinuteIndex(shown) == MinuteIndex(DateTime(Date(2000, 3, 1), Time(1, 0, 0, 0))) + -120;
    ObservationPathNames(Date(2000, 3, 1), Time(1, 0, 0, 0), -120, shown, "2000-02-29-23-00");
  }

  /** ... and is a common year otherwise: 1900 has none. */
  lemma CenturyCommonBorrow()
    ensures Printed(Date(1900, 3, 1), Time(1, 0, 0, 0), -120)
    ensures ObservationPath(Date(1900, 3, 1), Time(1, 0, 0, 0), -120)
            == ObservationPrefix + "1900-02-28-23-00" + Png
  {
    var shown := DateTime(Date(1900, 2, 28), Time(23, 0, 0, 0));
    assert FormatStamp(StampOf(shown)) == "1900-02-28-23-00";
    assert MinuteIndex(shown) == MinuteIndex(DateTime(Date(1900, 3, 1), Time(1, 0, 0, 0))) + -120;
    ObservationPathNames(Date(1900, 3, 1), Time(1, 0, 0, 0), -120, shown, "1900-02-28-23-00");
  }
}
