/**
 * The "Climatology" page: a spatial scale picked from two radio options and a time of
 * day pick one precomputed probability map. The page does not guard the lookup.
 */
module Climatology {
  import opened Wrappers
  import opened Calendar
  import opened Timestamp
  import opened Artifacts

  /** The two radio options, in kilometres. */
  datatype Scale = Km45 | Km95

  function Km(s: Scale): int {
    match s
    case Km45 => 45
    case Km95 => 95
  }

  /** `str(spatial_scale)` */
  function ScaleText(s: Scale): (t: string)
    ensures |t| == 2 && AllDigits(t) && Value2(t) == Km(s)
  {
    Pad2(Km(s))
  }

  function ParseScale(t: string): Option<Scale> {
    if t == "45" then Some(Km45) else if t == "95" then Some(Km95) else None
  }

  /** The time picker starts at 12:00. */
  const DefaultTimeOfDay := Time(12, 0, 0, 0)

  const ClimatologyRoot := "./public/images/pc/"
  const MapName := "/pc-Zambia-"

  /** What a climatology path determines: the scale and the hour and minute of the day. */
  datatype MapKey = MapKey(scale: Scale, hour: int, minute: int)

  /** `./public/images/pc/{s}/pc-Zambia-{HH-MM}-{s}.png` */
  function ClimatologyPath(s: Scale, t: Time): (p: string)
    requires ValidTime(t)
    ensures |p| == 44 && p[..19] == ClimatologyRoot && p[40..] == Png
    ensures p[19..21] == ScaleText(s) && p[38..40] == ScaleText(s)
    ensures p[32..34] == Pad2(t.hour) && p[34] == '-' && p[35..37] == Pad2(t.minute)
  {
    var hm := Pad2(t.hour) + "-" + Pad2(t.minute);
    var p := ClimatologyRoot + ScaleText(s) + MapName + hm + "-" + ScaleText(s) + Png;
    assert p[32..37] == hm;
    p
  }

  /** Recovers scale, hour and minute; the scale must be the same in both places. */
  function ParseClimatologyPath(p: string): Option<MapKey> {
    if |p| == 44 && p[..19] == ClimatologyRoot && p[21..32] == MapName && p[34] == '-'
       && p[37] == '-' && p[40..] == Png && p[38..40] == p[19..21]
       && ParseScale(p[19..21]).Some? && AllDigits(p[32..34]) && AllDigits(p[35..37])
    then Some(MapKey(ParseScale(p[19..21]).value, Value2(p[32..34]), Value2(p[35..37])))
    else None
  }

  /** The path names its scale and its time of day, and nothing is lost on the way. */
  lemma ParseClimatologyPathOf(s: Scale, t: Time)
    requires ValidTime(t)
    ensures ParseClimatologyPath(ClimatologyPath(s, t)) == Some(MapKey(s, t.hour, t.minute))
  {
  }

  /** Two choices share a map file if and only if they agree on scale, hour and minute. */
  lemma ClimatologyPathIffSameKey(s1: Scale, t1: Time, s2: Scale, t2: Time)
    requires ValidTime(t1) && ValidTime(t2)
    ensures ClimatologyPath(s1, t1) == ClimatologyPath(s2, t2)
            <==> s1 == s2 && t1.hour == t2.hour && t1.minute == t2.minute
  {
    ParseClimatologyPathOf(s1, t1);
    ParseClimatologyPathOf(s2, t2);
  }

  /** The page as first opened: 45 km at 12:00. */
  lemma DefaultClimatologyPath()
    ensures ClimatologyPath(Km45, DefaultTimeOfDay) == ClimatologyRoot + "45" + MapName + "12-00-45" + Png
  {
    var st, hh, mm := ScaleText(Km45), Pad2(12), Pad2(0);
    assert st == "45";
    assert hh == "12";
    assert mm == "00";
    assert hh + "-" + mm + "-" + st == "12-00-45";
  }

  /**
   * The map if its file exists; otherwise the error raised by the image call escapes,
   * since this page, unlike the portal, has no fallback message.
   */
  function ClimatologyView(store: Store, s: Scale, t: Time): (v: View)
    requires ValidTime(t)
    ensures !v.ErrorBox?
    ensures v.Image? <==> ClimatologyPath(s, t) in store
    ensures v.Image? ==> v.path == ClimatologyPath(s, t) && v.notes == []
    ensures v.Uncaught? ==> v.missing == ClimatologyPath(s, t)
  {
    var path := ClimatologyPath(s, t);
    if path in store then Image(path, []) else Uncaught(path)
  }
}
