/**
 * The two ways the dashboard turns an instant into text: `strftime('%Y-%m-%d-%H-%M')`
 * (the 16-character stamp in artifact file names) and `str(datetime)` (the instant in
 * the nowcast error message). Both pad every field with zeros to a fixed width.
 */
module Timestamp {
  import opened Wrappers
  import opened Calendar

  predicate IsDigit(c: char) {
    '0' <= c <= '9'
  }

  function Digit(n: int): (c: char)
    requires 0 <= n < 10
    ensures IsDigit(c) && DigitValue(c) == n
  {
    ('0' as int + n) as char
  }

  function DigitValue(c: char): int
    requires IsDigit(c)
  {
    c as int - '0' as int
  }

  predicate AllDigits(s: string) {
    forall i :: 0 <= i < |s| ==> IsDigit(s[i])
  }

  /** The number written by two decimal digits. */
  function Value2(s: string): int
    requires |s| == 2 && AllDigits(s)
  {
    DigitValue(s[0]) * 10 + DigitValue(s[1])
  }

  /** The number written by four decimal digits. */
  function Value4(s: string): int
    requires |s| == 4 && AllDigits(s)
  {
    Value2(s[..2]) * 100 + Value2(s[2..])
  }

  /** The number written by six decimal digits. */
  function Value6(s: string): int
    requires |s| == 6 && AllDigits(s)
  {
    Value4(s[..4]) * 100 + Value2(s[4..])
  }

  /** `'%02d' % n`, and `%m`, `%d`, `%H`, `%M` of strftime. */
  function Pad2(n: int): (s: string)
    requires 0 <= n < 100
    ensures |s| == 2 && AllDigits(s)
  {
    [Digit(n / 10), Digit(n % 10)]
  }

  /** `'%04d' % n`; for the years 1000..9999 also `%Y` of strftime. */
  function Pad4(n: int): (s: string)
    requires 0 <= n < 10000
    ensures |s| == 4 && AllDigits(s)
  {
    Pad2(n / 100) + Pad2(n % 100)
  }

  /** `'%06d' % n`, the microseconds of `str(datetime)`. */
  function Pad6(n: int): (s: string)
    requires 0 <= n < 1000000
    ensures |s| == 6 && AllDigits(s)
  {
    Pad4(n / 100) + Pad2(n % 100)
  }

  /** Reading back a two-digit padding gives the number. */
  lemma ReadPad2(n: int)
    requires 0 <= n < 100
    ensures Value2(Pad2(n)) == n
  {
  }

  /** Every two-digit string is the padding of what it reads as. */
  lemma PadRead2(s: string)
    requires |s| == 2 && AllDigits(s)
    ensures Value2(s) < 100 && Pad2(Value2(s)) == s
  {
  }

  /** Reading back a four-digit padding gives the number. */
  lemma ReadPad4(n: int)
    requires 0 <= n < 10000
    ensures Value4(Pad4(n)) == n
  {
  }

  /** Every four-digit string is the padding of what it reads as. */
  lemma PadRead4(s: string)
    requires |s| == 4 && AllDigits(s)
    ensures Value4(s) < 10000 && Pad4(Value4(s)) == s
  {
    var hi, lo := Value2(s[..2]), Value2(s[2..]);
    PadRead2(s[..2]);
    PadRead2(s[2..]);
    assert 0 <= hi < 100 && 0 <= lo < 100;
    assert Value4(s) / 100 == hi && Value4(s) % 100 == lo;
    assert s == s[..2] + s[2..];
  }

  /** Reading back a six-digit padding gives the number. */
  lemma ReadPad6(n: int)
    requires 0 <= n < 1000000
    ensures Value6(Pad6(n)) == n
  {
    var p := Pad6(n);
    assert p[..4] == Pad4(n / 100) && p[4..] == Pad2(n % 100);
    ReadPad4(n / 100);
    ReadPad2(n % 100);
  }

  /** Every six-digit string is the padding of what it reads as. */
  lemma PadRead6(s: string)
    requires |s| == 6 && AllDigits(s)
    ensures Value6(s) < 1000000 && Pad6(Value6(s)) == s
  {
    var hi, lo := Value4(s[..4]), Value2(s[4..]);
    PadRead4(s[..4]);
    PadRead2(s[4..]);
    assert 0 <= hi < 10000 && 0 <= lo < 100;
    assert Value6(s) / 100 == hi && Value6(s) % 100 == lo;
    assert s == s[..4] + s[4..];
  }

  /** What `strftime('%Y-%m-%d-%H-%M')` reads off an instant. */
  datatype Stamp = Stamp(year: int, month: int, day: int, hour: int, minute: int)

  /** The fields fit their widths: four digits for the year, two for the rest. */
  predicate Printable(s: Stamp) {
    0 <= s.year < 10000 && 0 <= s.month < 100 && 0 <= s.day < 100
    && 0 <= s.hour < 100 && 0 <= s.minute < 100
  }

  /** `strftime` keeps date, hour and minute and drops seconds and microseconds. */
  function StampOf(dt: DateTime): Stamp {
    Stamp(dt.date.year, dt.date.month, dt.date.day, dt.time.hour, dt.time.minute)
  }

  /** The instant a stamp names: its minute, with zero seconds and zero microseconds. */
  function InstantOf(s: Stamp): DateTime {
    DateTime(Date(s.year, s.month, s.day), Time(s.hour, s.minute, 0, 0))
  }

  /** `YYYY-MM-DD`, the date as both `strftime('%Y-%m-%d')` and `str` write it. */
  function DateText(year: int, month: int, day: int): (r: string)
    requires 0 <= year < 10000 && 0 <= month < 100 && 0 <= day < 100
    ensures |r| == 10 && r[..4] == Pad4(year) && r[4] == '-' && r[5..7] == Pad2(month)
    ensures r[7] == '-' && r[8..] == Pad2(day)
  {
    Pad4(year) + "-" + Pad2(month) + "-" + Pad2(day)
  }

  /** `YYYY-MM-DD-HH-MM` */
  function FormatStamp(s: Stamp): (r: string)
    requires Printable(s)
    ensures |r| == 16
  {
    DateText(s.year, s.month, s.day) + "-" + Pad2(s.hour) + "-" + Pad2(s.minute)
  }

  /** Reads a `YYYY-MM-DD-HH-MM` stamp back; anything else is rejected. */
  function ParseStamp(t: string): Option<Stamp> {
    if |t| == 16 && t[4] == '-' && t[7] == '-' && t[10] == '-' && t[13] == '-'
       && AllDigits(t[0..4]) && AllDigits(t[5..7]) && AllDigits(t[8..10])
       && AllDigits(t[11..13]) && AllDigits(t[14..16])
    then Some(Stamp(Value4(t[0..4]), Value2(t[5..7]), Value2(t[8..10]), Value2(t[11..13]), Value2(t[14..16])))
    else None
  }

  /** Parsing a formatted stamp gives the stamp back. */
  lemma ParseFormat(s: Stamp)
    requires Printable(s)
    ensures ParseStamp(FormatStamp(s)) == Some(s)
  {
  }

  /** Every string the parser accepts is exactly the formatting of what it parsed. */
  lemma FormatParse(t: string)
    requires ParseStamp(t).Some?
    ensures Printable(ParseStamp(t).value) && FormatStamp(ParseStamp(t).value) == t
  {
    PadRead4(t[0..4]);
    PadRead2(t[5..7]);
    PadRead2(t[8..10]);
    PadRead2(t[11..13]);
    PadRead2(t[14..16]);
    var s := ParseStamp(t).value;
    assert t == t[0..4] + "-" + t[5..7] + "-" + t[8..10] + "-" + t[11..13] + "-" + t[14..16];
  }

  /** Different printable stamps never share a text. */
  lemma FormatStampInjective(a: Stamp, b: Stamp)
    requires Printable(a) && Printable(b) && FormatStamp(a) == FormatStamp(b)
    ensures a == b
  {
    ParseFormat(a);
    ParseFormat(b);
  }

  /** Instants in the years 1000..9999, where `%Y` writes exactly four digits. */
  predicate FourDigitYear(dt: DateTime) {
    1000 <= dt.date.year <= 9999
  }

  /** `dt.strftime('%Y-%m-%d-%H-%M')` */
  function StrfStamp(dt: DateTime): (r: string)
    requires ValidDateTime(dt) && FourDigitYear(dt)
    ensures |r| == 16 && ParseStamp(r) == Some(StampOf(dt))
  {
    ParseFormat(StampOf(dt));
    FormatStamp(StampOf(dt))
  }

  /**
   * The stamp keeps exactly the minute: two instants get the same stamp if and only if
   * they fall in the same minute.
   */
  lemma StrfStampIffSameMinute(a: DateTime, b: DateTime)
    requires ValidDateTime(a) && FourDigitYear(a) && ValidDateTime(b) && FourDigitYear(b)
    ensures StrfStamp(a) == StrfStamp(b) <==> MinuteIndex(a) == MinuteIndex(b)
  {
    if StrfStamp(a) == StrfStamp(b) {
      FormatStampInjective(StampOf(a), StampOf(b));
    }
    if MinuteIndex(a) == MinuteIndex(b) {
      MinuteIndexInjective(a, b);
    }
  }

  /** Reading the stamp back gives the instant itself once its seconds and microseconds are zero. */
  lemma StampNamesInstant(dt: DateTime)
    requires ValidDateTime(dt) && dt.time.second == 0 && dt.time.microsecond == 0
    ensures ValidDateTime(InstantOf(StampOf(dt))) && InstantOf(StampOf(dt)) == dt
    ensures MinuteIndex(InstantOf(StampOf(dt))) == MinuteIndex(dt)
  {
  }

  /** Where the date, the hour and the minute sit in a stamp. */
  lemma StrfStampFields(dt: DateTime)
    requires ValidDateTime(dt) && FourDigitYear(dt)
    ensures StrfStamp(dt)[..10] == DateText(dt.date.year, dt.date.month, dt.date.day)
    ensures StrfStamp(dt)[11..13] == Pad2(dt.time.hour) && StrfStamp(dt)[14..16] == Pad2(dt.time.minute)
  {
  }

  /** `HH:MM:SS`, the clock part of `str(datetime)`. */
  function ClockText(t: Time): (r: string)
    requires ValidTime(t)
    ensures |r| == 8 && r[..2] == Pad2(t.hour) && r[2] == ':' && r[3..5] == Pad2(t.minute)
    ensures r[5] == ':' && r[6..] == Pad2(t.second)
  {
    var hm := Pad2(t.hour) + ":" + Pad2(t.minute);
    assert hm[..2] == Pad2(t.hour) && hm[3..] == Pad2(t.minute);
    hm + ":" + Pad2(t.second)
  }

  /** `.ffffff` when there are microseconds, nothing otherwise. */
  function FractionText(us: int): (r: string)
    requires 0 <= us < 1000000
    ensures us == 0 ==> r == []
    ensures us != 0 ==> |r| == 7 && r[0] == '.' && r[1..] == Pad6(us) && Value6(r[1..]) == us
  {
    if us == 0 then "" else (ReadPad6(us); "." + Pad6(us))
  }

  /**
   * `str(datetime)`, that is `isoformat(' ')`: `YYYY-MM-DD HH:MM:SS`, followed by
   * `.ffffff` only when the microseconds are not zero. The year is written `%04d`,
   * so every year of Python's range 1..9999 takes four digits.
   */
  function IsoText(dt: DateTime): (r: string)
    requires ValidDateTime(dt) && 1 <= dt.date.year <= 9999
    ensures |r| == if dt.time.microsecond == 0 then 19 else 26
    ensures r[..10] == DateText(dt.date.year, dt.date.month, dt.date.day) && r[10] == ' '
    ensures r[11..19] == ClockText(dt.time) && r[19..] == FractionText(dt.time.microsecond)
  {
    var day := DateText(dt.date.year, dt.date.month, dt.date.day);
    var clock := ClockText(dt.time);
    var frac := FractionText(dt.time.microsecond);
    var head := day + " " + clock;
    assert head[..10] == day && head[11..] == clock;
    var r := head + frac;
    assert r[..19] == head && r[19..] == frac;
    r
  }

  /** `str(datetime)` reads back as every field of the instant, microseconds included. */
  lemma IsoTextReadsBack(dt: DateTime)
    requires ValidDateTime(dt) && 1 <= dt.date.year <= 9999
    ensures var r := IsoText(dt);
      AllDigits(r[..4]) && Value4(r[..4]) == dt.date.year
      && AllDigits(r[5..7]) && Value2(r[5..7]) == dt.date.month
      && AllDigits(r[8..10]) && Value2(r[8..10]) == dt.date.day
      && AllDigits(r[11..13]) && Value2(r[11..13]) == dt.time.hour
      && AllDigits(r[14..16]) && Value2(r[14..16]) == dt.time.minute
      && AllDigits(r[17..19]) && Value2(r[17..19]) == dt.time.second
    ensures var r := IsoText(dt);
      dt.time.microsecond != 0 ==> r[19] == '.' && AllDigits(r[20..]) && Value6(r[20..]) == dt.time.microsecond
  {
    var r := IsoText(dt);
    var day := DateText(dt.date.year, dt.date.month, dt.date.day);
    var clock := ClockText(dt.time);
    assert r[..4] == day[..4] && r[5..7] == day[5..7] && r[8..10] == day[8..];
    assert r[11..13] == clock[..2] && r[14..16] == clock[3..5] && r[17..19] == clock[6..];
    if dt.time.microsecond != 0 {
      assert r[20..] == FractionText(dt.time.microsecond)[1..];
    }
    ReadPad4(dt.date.year);
    ReadPad2(dt.date.month);
    ReadPad2(dt.date.day);
    ReadPad2(dt.time.hour);
    ReadPad2(dt.time.minute);
    ReadPad2(dt.time.second);
  }
}
