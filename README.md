# Zambia convective-core nowcasting dashboard — core model

The dashboard is a small Streamlit application (`index.py`). Apart from page layout, it does
one thing: it turns the user's choices into the path of a precomputed image file and shows
that file. When a file is missing, it shows a message instead. This project models that logic
in Dafny and proves what the paths and messages mean.

- **Calendar** (`calendar.dfy`). The proleptic Gregorian calendar as Python's `datetime`
  computes with it:
  - the leap-year rule and month lengths;
  - the day ordinal of `date.toordinal`;
  - `datetime.combine`;
  - `datetime + timedelta(minutes = k)`, built day by day.

  The library is not part of the repository, so it is written out here and proved
  (ordinals are strictly monotone, and shifting by `k` minutes moves the minute index by
  exactly `k`).
- **Timestamp** (`timestamp.dfy`). Two ways the page prints an instant:
  - `strftime('%Y-%m-%d-%H-%M')`, the 16-character stamp in file names;
  - `str(datetime)`, used in the nowcast error message.

  A parser for the stamp is included, with round trips in both directions.
- **Artifacts** (`artifacts.dfy`). The image store is a set of existing paths; the dashboard
  only reads it. A stamped path has the shape `{prefix}{stamp}.png`. There are three page
  outcomes: an image with notes under it, an error box the page writes itself, and an
  exception the page does not catch.
- **Portal** (`portal.dfy`). The "Nowcast Portal" page:
  - the default origin t0, rounded down to the quarter hour;
  - the slider offset of −120..0 minutes in steps of 15;
  - the observation path for t0 plus the offset;
  - the nowcast path for t0;
  - the two columns' fallbacks for missing files.
- **Climatology** (`climatology.dfy`). The "Climatology" page: a 45 km or 95 km scale and a time
  of day pick `./public/images/pc/{s}/pc-Zambia-{HH-MM}-{s}.png`. The lookup has no fallback.
- **Contact** (`contact.dfy`). The "Contact us" form: it reports success if and only if name,
  email and message are all non-empty.

`wrappers.dfy` holds the `Option` type the parsers and the contact page share.

"now" (the clock read of `datetime.utcnow()`) and the file store are parameters of the model.

## Model

| member | source | states |
|---|---|---|
| Calendar.Combine | index.py:108 | `datetime.combine(date, time)` is a valid instant exactly when the date and the time are valid, and its `.date()` and `.time()` give them back |
| Calendar.YearLength | index.py:117 | the days before year y+1 are the days before y plus the length of y (365, or 366 in a leap year): the ordinal formula agrees with the leap-year rule |
| Calendar.DaysBeforeYearMonotone | index.py:117 | each year between a and b adds at least 365 days to the ordinal (proved by induction on b − a) |
| Calendar.MonthTurn | index.py:117 | the last day of a month (28, 29, 30 or 31) is valid and is followed by day 1 of the next month |
| Calendar.YearTurn | index.py:117 | 31 December is followed by 1 January of the next year |
| Calendar.DayNumberInYear | index.py:117 | the ordinal of a valid date lies inside the span of its own year |
| Calendar.DayNumberMonotone | index.py:117 | `toordinal` is strictly increasing in chronological order |
| Calendar.DayNumberInjective | index.py:117 | distinct valid dates have distinct ordinals |
| Calendar.MinuteIndexInjective | index.py:117 | two valid instants with the same minute count agree on date, hour and minute |
| Calendar.NextDay | index.py:117 | the result is a valid date whose ordinal is one more |
| Calendar.PrevDay | index.py:117 | the result is a valid date whose ordinal is one less; it borrows across month ends, year ends and 29 February |
| Calendar.AddDays | index.py:117 | `date + timedelta(days = n)` is a valid date whose ordinal is shifted by exactly n |
| Calendar.AddMinutes | index.py:117 | `datetime + timedelta(minutes = k)` is a valid instant exactly k minutes away that keeps the seconds and microseconds; by MinuteIndexInjective it is the only such instant |
| Calendar.AddZeroMinutes | index.py:117 | adding zero minutes leaves the instant unchanged |
| Calendar.AddOneDayBack | index.py:117 | going back one day is PrevDay |
| Calendar.AddMinutesBackWithinDay | index.py:117 | going back at most 1440 minutes lands on the same date or on the day before |
| Timestamp.ReadPad2 | index.py:121 | reading back a two-digit padding gives the number |
| Timestamp.PadRead2 | index.py:121 | every two-digit string is the padding of the number it reads as |
| Timestamp.ReadPad4 | index.py:121 | reading back a four-digit padding gives the number |
| Timestamp.PadRead4 | index.py:121 | every four-digit string is the padding of the number it reads as |
| Timestamp.ReadPad6 | index.py:139 | reading back a six-digit padding gives the number |
| Timestamp.PadRead6 | index.py:139 | every six-digit string is the padding of the number it reads as |
| Timestamp.ParseFormat | index.py:121 | parsing a formatted `YYYY-MM-DD-HH-MM` stamp gives back year, month, day, hour and minute |
| Timestamp.FormatParse | index.py:121 | every string the stamp parser accepts is exactly the formatting of what it parsed |
| Timestamp.FormatStampInjective | index.py:121 | different stamps never share a text |
| Timestamp.StrfStamp | index.py:121 | `strftime('%Y-%m-%d-%H-%M')` has 16 characters and reads back as the instant's date, hour and minute |
| Timestamp.StrfStampIffSameMinute | index.py:121 | two instants get the same stamp if and only if they fall in the same minute |
| Timestamp.StampNamesInstant | index.py:121 | for an instant with zero seconds and zero microseconds, the instant a stamp names is the instant itself |
| Timestamp.StrfStampFields | index.py:121 | the stamp holds the date in characters 0-9, the hour in 11-12 and the minute in 14-15 |
| Timestamp.ClockText | index.py:139 | the clock part of `str(datetime)` is `HH:MM:SS` with each field zero-padded |
| Timestamp.FractionText | index.py:139 | `.ffffff` appears only when the microseconds are not zero, and its six digits read back as the microseconds |
| Timestamp.IsoText | index.py:139 | `str(datetime)` for any year 1..9999 is 19 characters long (26 when there are microseconds): the `YYYY-MM-DD` date, a space, `HH:MM:SS`, then the fraction |
| Timestamp.IsoTextReadsBack | index.py:139 | `str(datetime)` reads back as every field of the instant: year, month, day, hour, minute, second and, when present, microseconds |
| Artifacts.StampedPath | index.py:121 | `{prefix}{stamp}.png` starts with the prefix, ends in `.png` and is 20 characters longer than the prefix |
| Artifacts.ParseStampedPathOf | index.py:121 | the stamp in a stamped path is read back unchanged |
| Artifacts.StampedPathInjective | index.py:121 | two stamped paths with the same prefix are equal if and only if their stamps are |
| Portal.SliderValues | index.py:114 | the slider offers exactly the nine offsets −120, −105, …, −15, 0 |
| Portal.DefaultTime | index.py:101-103 | the default time keeps the hour, rounds the minute down to the largest multiple of 15 not above it, and clears the seconds and microseconds |
| Portal.DefaultOriginWithinQuarterHour | index.py:101-108 | today's date combined with the default time is a valid instant at most 14 minutes before now, and never after it |
| Portal.DisplayInstant | index.py:108-117 | t0 shifted by a slider offset is the valid instant exactly `offset` minutes away; it is never after t0, at most 120 minutes before it, and on t0's date or the day before |
| Portal.ObservationPath | index.py:121 | the observation path is `./public/images/observation/observation-` + 16 characters + `.png`, for every choice whose shown instant has a four-digit year |
| Portal.ObservationPathLocatesShown | index.py:108-121 | the stamp read back from the observation path names the minute `offset` minutes from t0 |
| Portal.ObservationPathIffSameMinute | index.py:108-121 | two (date, time, offset) choices share an observation file if and only if they show the same minute |
| Portal.ObservationPathNames | index.py:108-121 | the observation path is the one carrying the stamp of any valid instant `offset` minutes from t0 |
| Portal.NewYearBorrow | index.py:117-121 | 2021-01-01 00:30 with −60 reads `observation-2020-12-31-23-30.png` |
| Portal.SameDayShift | index.py:117-121 | 2020-07-11 18:30 with −30 reads `observation-2020-07-11-18-00.png` |
| Portal.LeapFebruaryBorrow | index.py:117-121 | 2020-03-01 00:15 with −30 reads `observation-2020-02-29-23-45.png` |
| Portal.CommonFebruaryBorrow | index.py:117-121 | 2021-03-01 00:15 with −30 reads `observation-2021-02-28-23-45.png` |
| Portal.CenturyLeapBorrow | index.py:117-121 | 2000-03-01 01:00 with −120 reads `observation-2000-02-29-23-00.png` |
| Portal.CenturyCommonBorrow | index.py:117-121 | 1900-03-01 01:00 with −120 reads `observation-1900-02-28-23-00.png` |
| Portal.NowcastPath | index.py:134 | the nowcast path is `./public/images/nowcast/nowcast-` + t0's own stamp + `.png`, and it reads back as t0's minute |
| Portal.NowcastNotKeyedByTarget | index.py:134 | the nowcast file is named after t0, not after the forecast target t0 + 1 hour |
| Portal.ZeroOffsetSameStamp | index.py:117-134 | with the slider at 0, the observation and the nowcast carry the same stamp |
| Portal.ObservationIsNotNowcast | index.py:121-134 | an observation path is never a nowcast path |
| Portal.ObservationView | index.py:124-127 | the observation image is shown if and only if its file exists; otherwise exactly "No data available" is shown |
| Portal.NowcastView | index.py:135-139 | the nowcast image and its scale note are shown if and only if the file exists; otherwise the "Nowcast unavailable …" message is shown |
| Portal.NowcastMissingMessage | index.py:134-139 | the message is the fixed lead, `str(t0)` and " UTC"; the date, hour and minute it prints are those in the stamp of the missing nowcast file |
| Climatology.ScaleText | index.py:84 | the scale is written as two digits that read as 45 or 95 |
| Climatology.ClimatologyPath | index.py:82-84 | the path is 44 characters long and holds the scale as both the directory and the file-name suffix, with the time of day as zero-padded `HH-MM` |
| Climatology.ParseClimatologyPathOf | index.py:82-84 | reading a climatology path back gives the scale, hour and minute |
| Climatology.ClimatologyPathIffSameKey | index.py:82-84 | two choices share a map file if and only if they agree on scale, hour and minute |
| Climatology.DefaultClimatologyPath | index.py:82-84 | the page as first opened (45 km, 12:00) reads `./public/images/pc/45/pc-Zambia-12-00-45.png` |
| Climatology.ClimatologyView | index.py:85 | the map at exactly the chosen path is shown if and only if its file exists; otherwise an uncaught error carrying that path escapes, never an error box |
| Contact.Submit | index.py:159-163 | success if and only if name, email and message are all non-empty; the success text names the sender and the address; a failure gives exactly the "Please fill out all fields" text |
| Contact.ContactPage | index.py:155-163 | a notice appears if and only if Submit was pressed; it is the notice of Submit, with its exact texts, and a success exactly when all three fields are non-empty |

## Left out

- Streamlit rendering is not modelled: page configuration, CSS, titles, columns, the Home page, the footer and sidebar routing (index.py:1-75, 87, 93, 129-130, 140-141). Only the outcome of each image lookup is modelled, as a `View` value.
- `datetime.utcnow()` is a clock read, so "now" is a parameter. Time zones and leap seconds do not arise, because the code uses naive UTC datetimes.
- `st.image` reading the disk is modelled as membership in a set of existing paths. The notes written under an image are only the "1 pixel is equal to 45 Km" line.
- Python raises `OverflowError` outside the years 1..9999. This is not modelled; the calendar runs over all integer years.
- ObservationPath: requires the shown instant (t0 plus the offset) to fall in a year 1000..9999. `%Y` is modelled only for four-digit years; Python writes smaller years with fewer digits on some platforms.
- NowcastPath and StrfStamp: require a year of 1000..9999, because they go through `%Y` too. `str(datetime)` (IsoText) writes the year as `%04d` and is modelled for every year 1..9999.
- Slider and radio values: no path rejects an out-of-range offset or scale as an invalid parameter, because the code has none. The widgets only offer legal values. So the offset is a precondition (−120..0, step 15) and the scale is a two-valued datatype.
- The time pickers' range is likewise a precondition (hour 0..23, minute 0..59).
- The nowcast lead time is not modelled: the file is keyed by t0 alone (index.py:134). The one-hour lead appears only in the page's wording.
- `formatted_date` and `formatted_time` (index.py:110-111) are computed but never used.
- The Clear button of the contact form (index.py:156) has no handler. Nothing is stored or sent.
- The upstream wavelet detection and the machine-learning model are not part of this model. Only the names of the files they produce are.
