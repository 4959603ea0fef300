# HyperSpy date and time helpers, modelled in Dafny

HyperSpy keeps the acquisition date and time of a signal in its metadata tree.
The leaves are `General.date`, `General.time` and `General.time_zone`.
`hyperspy/misc/date_time_tools.py` holds five helpers around them:

- `get_date_time_from_metadata` reads the leaves back as ISO 8601 text, as a `datetime`, or as
  the text handed to `numpy.datetime64`.
- `update_date_time_in_metadata` writes an ISO 8601 string or a `datetime` into the tree.
- `serial_date_to_ISO_format`, `ISO_format_to_serial_date` and `datetime_to_serial_date`
  convert to and from spreadsheet serial dates. A serial date is the number of days since
  1899-12-30T00:00:00 UTC; its fraction is the time of day.

The model is split into modules:

- `Text`: Python's `str.find`, `str.split` and `str.join` for a one-character separator.
- `Numerals`: zero-padded decimal fields.
- `Calendar`: proleptic Gregorian dates for years 1 to 9999, and instants as whole seconds
  since the spreadsheet origin.
- `Iso`: `isoformat()`, and a reader for the canonical ISO forms.
- `Metadata`: the tree, as a `class` whose `map` of leaves is updated in place.
- `DateTimeMetadata`: the reading helper as a function. The writing helper is a method that
  updates the tree.
- `SerialDate`: the three serial-date helpers.

Serial dates are exact `real`s.

Three of the helpers do not do what they evidently intend, and a fourth inherits one of the faults (see "## Findings").
For each of them the model has two definitions: the code as written, with a lemma that
exhibits the discrepancy, and a corrected definition with the intended property proved.

## Model

| member | source | states |
|---|---|---|
| Text.Find | hyperspy/misc/date_time_tools.py:127-130 | `c in s` iff a first index exists; at that index is `c`, and before it there is none |
| Text.Split | hyperspy/misc/date_time_tools.py:124-132 | `split` gives at least one piece; exactly one iff there is no separator; no piece holds the separator; the first piece is the prefix up to the first separator |
| Text.JoinSplit | hyperspy/misc/date_time_tools.py:124 | joining the pieces of a split gives back the string |
| Text.SplitJoin | hyperspy/misc/date_time_tools.py:124 | splitting a join of separator-free pieces gives back the pieces, so the split is the unique such decomposition |
| Text.SplitFirstTwo | hyperspy/misc/date_time_tools.py:124-126 | the first two pieces are the text before the first separator and the text up to the second separator (or the end) |
| Numerals.ParsePad | hyperspy/misc/date_time_tools.py:134-135 | reading a zero-padded field gives back its number |
| Numerals.PadValue | hyperspy/misc/date_time_tools.py:134-135 | padding the number of a digit field gives back the field |
| Calendar.DaysBeforeYearClosedForm | hyperspy/misc/date_time_tools.py:174-175 | the days before year `y` are `365*(y-1)` plus the leap days before `y` |
| Calendar.DayNumberRoundTrip | hyperspy/misc/date_time_tools.py:156-157 | dates and day numbers correspond one to one for years 1 to 9999 |
| Calendar.EpochDayIsOrigin | hyperspy/misc/date_time_tools.py:154 | 1899-12-30 is day 693593 |
| Calendar.FromSeconds | hyperspy/misc/date_time_tools.py:157 | `origin + timedelta` of an in-range instant is a valid date and whole-second time whose wall seconds are that instant |
| Calendar.FromWallSeconds | hyperspy/misc/date_time_tools.py:157 | every in-range whole-second date and time is reached from its own seconds |
| Iso.FormatDate | hyperspy/misc/date_time_tools.py:134 | `date.isoformat()` has ten characters and no `T` or `+` |
| Iso.FormatTime | hyperspy/misc/date_time_tools.py:135 | `time.isoformat()` has 8 characters, or 15 with microseconds, and no `T`, `+` or `-` |
| Iso.FormatOffset | hyperspy/misc/date_time_tools.py:86 | an offset suffix is six characters and starts with its sign |
| Iso.FormatDateTime | hyperspy/misc/date_time_tools.py:86 | `isoformat()` text is 19 characters, 7 more with microseconds and 6 more with an offset; ParseFormatDateTime reads it back |
| Iso.ParseFormatDate | hyperspy/misc/date_time_tools.py:81 | reading `date.isoformat()` gives the date |
| Iso.ParseFormatTime | hyperspy/misc/date_time_tools.py:79 | reading `time.isoformat()` gives the time |
| Iso.FormatParseDate | hyperspy/misc/date_time_tools.py:81 | the date reader accepts exactly what `date.isoformat()` writes |
| Iso.FormatParseTime | hyperspy/misc/date_time_tools.py:79 | the time reader accepts what `time.isoformat()` writes, plus an explicit `.000000` |
| Iso.ParseFormatOffset | hyperspy/misc/date_time_tools.py:77 | an offset suffix reads back as that offset, with zero read as UTC |
| Iso.ParseDateTimeOfParts | hyperspy/misc/date_time_tools.py:69-77 | formatted date, `T`, formatted time and a zone text read as that date and time in the zone the text denotes; they fail when the zone text is rejected |
| Iso.ParseFormatDateTime | hyperspy/misc/date_time_tools.py:86 | reading `datetime.isoformat()` gives the same date and time, with the zone it reads back as |
| Iso.ParseDateTime | hyperspy/misc/date_time_tools.py:69 | `parser.parse` on the canonical forms: what it reads is a valid date and time whose zone is none, UTC, or an offset without a name |
| Iso.DocumentedTexts | hyperspy/misc/date_time_tools.py:112-118 | the documented dates, times and offset format to `2016-12-12`, `12:12:12`, `-05:00`, `1991-10-01` and `12:00:00` |
| Iso.ExampleStamp2016 | hyperspy/misc/date_time_tools.py:112 | 2016-12-12 12:12:12 at offset -300 minutes formats to `2016-12-12T12:12:12-05:00` |
| Iso.ExampleStamp1991 | hyperspy/misc/date_time_tools.py:54-55 | the naive 1991-10-01 12:00:00 formats to `1991-10-01T12:00:00` |
| Metadata.Tree.SetItem | hyperspy/misc/date_time_tools.py:139-142 | sets one leaf and leaves every other leaf as it was |
| Metadata.Tree.DelItem | hyperspy/misc/date_time_tools.py:143-144 | removes one existing leaf and nothing else |
| DateTimeMetadata.Updated | hyperspy/misc/date_time_tools.py:139-144 | after a write, date and time hold the new strings; the zone leaf exists iff a non-empty zone was determined, and then holds it; every other leaf is unchanged |
| DateTimeMetadata.UpdateDateTimeInMetadata | hyperspy/misc/date_time_tools.py:96-145 | a failed write (no `T`, or an input that is neither a string nor a datetime) raises and leaves the tree unchanged; a successful one returns the same tree, now equal to `Updated` of the old leaves |
| DateTimeMetadata.WriteSplitsAtFirstT | hyperspy/misc/date_time_tools.py:123-126 | a string is written iff it holds a `T`; the date is the text before the first `T`, and the time part runs to the second `T` or the end |
| DateTimeMetadata.WriteFields | hyperspy/misc/date_time_tools.py:122-137 | a write succeeds iff the input is a `datetime` or a string with a `T`; otherwise it raises IndexError for a string and UnboundLocalError (`date`) for other types; what it stores is stated by WriteSplitsAtFirstT, ZoneSplitAtFirstSign, WrittenPrefix and WrittenDateTime |
| DateTimeMetadata.WrittenPrefix | hyperspy/misc/date_time_tools.py:123-132 | a string's stored date, `T`, time and zone are, in that order, a prefix of it |
| DateTimeMetadata.WrittenDateTime | hyperspy/misc/date_time_tools.py:133-137 | a `datetime`'s stored date and time read back as its own; its zone name is stored iff it is non-empty |
| DateTimeMetadata.WriteOfParts | hyperspy/misc/date_time_tools.py:123-132 | a date, `T`, a sign-free time and a signed zone suffix are stored as exactly those pieces |
| DateTimeMetadata.ZoneSplit | hyperspy/misc/date_time_tools.py:127-132 | there is a zone iff the part holds a `+` or a `-`; without one the time is the whole part; a zone starts with `+` when there is one, else with `-` |
| DateTimeMetadata.ZoneSplitAtFirstSign | hyperspy/misc/date_time_tools.py:127-132 | a `+` takes precedence over a `-`; the time is the text before the first sign; the zone is the sign and the text up to the next such sign; with no sign there is no zone and the time is the whole part |
| DateTimeMetadata.WriteFormatted | hyperspy/misc/date_time_tools.py:123-132 | writing `isoformat()` text stores its date, its time and its offset suffix (none for a naive value) |
| DateTimeMetadata.WriteExample | hyperspy/misc/date_time_tools.py:111-118 | the documented string stores `2016-12-12`, `12:12:12` and `-05:00` |
| DateTimeMetadata.WriteOverwrites | hyperspy/misc/date_time_tools.py:139-144 | the second of two writes alone decides every date and time leaf, so a zone-less write leaves no stale zone |
| DateTimeMetadata.WriteNaiveDateTimeThenRead | hyperspy/misc/date_time_tools.py:133-137 | a naive `datetime` written and read back as 'datetime' is the same value |
| DateTimeMetadata.Localize | hyperspy/misc/date_time_tools.py:70-77 | attaching a stored zone yields a valid date and time; for a known zone name, `localize` succeeds iff the value is naive, keeps its date and time and attaches the database's offset and abbreviation at that wall clock; for an unknown name, `pytz.FixedOffset` raises as written, and the corrected reader succeeds iff the text with the zone appended is read |
| DateTimeMetadata.ReadValue | hyperspy/misc/date_time_tools.py:63-83 | nothing is read iff neither a date nor a time is present (empty counts as absent); date and time give a date-time, time alone a time, date alone a date; a present field the parser rejects raises in each branch |
| DateTimeMetadata.Read | hyperspy/misc/date_time_tools.py:85-93 | no result iff nothing is present; an unknown formatting fails whenever a value was found; 'datetime64' is the raw date and time text joined by `T`, ignoring the zone; 'datetime' gives a date-time exactly when both fields are present; a present field the parser rejects raises, whatever the formatting |
| DateTimeMetadata.IsoOf | hyperspy/misc/date_time_tools.py:86 | the ISO text of a date, a time or a date-time reads back as that value, a date-time with the zone its suffix reads back as |
| DateTimeMetadata.Render | hyperspy/misc/date_time_tools.py:85-93 | 'ISO' gives text that reads back as the value, 'datetime' the value itself, 'datetime64' the raw stored strings joined by `T`; any other formatting fails with the unbound result |
| DateTimeMetadata.GetDateTimeFromMetadataAsWritten | hyperspy/misc/date_time_tools.py:28-93 | as written: gives what the corrected reader gives, or raises in `pytz.FixedOffset`; and exactly what it gives when there is no zone leaf or the database knows its name |
| DateTimeMetadata.GetDateTimeFromMetadata | hyperspy/misc/date_time_tools.py:28-93 | corrected: never raises in `pytz.FixedOffset` |
| DateTimeMetadata.FallbacksDiffer | hyperspy/misc/date_time_tools.py:70-77 | the two fallbacks read the same value, except that the one as written raises for a zone name the database does not know |
| DateTimeMetadata.ReadNaiveStamp | hyperspy/misc/date_time_tools.py:68-69 | a canonical date and time with no zone leaf reads as `date + 'T' + time`, and as the naive value |
| DateTimeMetadata.ReadExample | hyperspy/misc/date_time_tools.py:44-55 | the documented tree reads as `1991-10-01T12:00:00` |
| DateTimeMetadata.ReadUnknownZone | hyperspy/misc/date_time_tools.py:70-77 | for a zone text the database does not know, the corrected reader re-reads it as an offset; the reader as written fails for every formatting |
| DateTimeMetadata.ReadKnownZone | hyperspy/misc/date_time_tools.py:68-73 | a canonical date and time with a zone name the database knows reads as that wall clock with the zone's offset and abbreviation attached, as text and as a `datetime`, in both readers |
| DateTimeMetadata.WriteZonedDateTimeThenRead | hyperspy/misc/date_time_tools.py:72-73 | a `datetime` whose named zone the database knows, at the same offset under the same name, is read back as the same value |
| DateTimeMetadata.ReadTimeOnly | hyperspy/misc/date_time_tools.py:78-79 | a canonical time without a date reads back as that time, as text and as a `time` |
| DateTimeMetadata.ReadDateOnly | hyperspy/misc/date_time_tools.py:80-81 | a canonical date without a time reads back as that date, as text and as a `date` |
| DateTimeMetadata.UnknownZoneValue | hyperspy/misc/date_time_tools.py:74-77 | the value behind ReadUnknownZone before formatting |
| DateTimeMetadata.WriteThenRead | hyperspy/misc/date_time_tools.py:74-77 | corrected: reading back what a write of `isoformat()` text stored gives the same text, and the same date and time |
| DateTimeMetadata.WriteThenReadAsWrittenFails | hyperspy/misc/date_time_tools.py:74-77 | as written: the same round trip fails for every value with an offset |
| DateTimeMetadata.ExampleRoundTripAsWrittenFails | hyperspy/misc/date_time_tools.py:112 | the documented string written and read back: the reader as written fails; the corrected one returns it unchanged |
| SerialDate.Trunc | hyperspy/misc/date_time_tools.py:156 | `int()` of a float is its integer part, rounding toward zero |
| SerialDate.Frac | hyperspy/misc/date_time_tools.py:155 | `x % 1.0` lies in [0, 1) and differs from `x` by a whole number |
| SerialDate.RoundHalfEven | hyperspy/misc/date_time_tools.py:155 | `round` gives the nearest integer, and a tie goes to the even one |
| SerialDate.SecondsOfDay | hyperspy/misc/date_time_tools.py:155 | `secs` lies in [0, 86400] |
| SerialDate.SerialOfSeconds | hyperspy/misc/date_time_tools.py:175-176 | `days + seconds / 86400` of a normalised timedelta is the signed number of days; its floor is the whole days |
| SerialDate.DateTimeToSerialAsWritten | hyperspy/misc/date_time_tools.py:170-176 | as written: a value without a zone name is taken at its wall clock as UTC, any offset dropped; a named zone is honoured |
| SerialDate.DateTimeToSerial | hyperspy/misc/date_time_tools.py:170-176 | corrected: the serial is the instant in days since the origin, with a naive value read as UTC |
| SerialDate.OriginIsZero | hyperspy/misc/date_time_tools.py:174-176 | the origin is 0.0, naive or in UTC, and 1899-12-31T00:00 UTC is 1.0 |
| SerialDate.DayIsOne | hyperspy/misc/date_time_tools.py:176 | one more day adds 1.0; the fraction is the second of the day over 86400 |
| SerialDate.SerialOrder | hyperspy/misc/date_time_tools.py:175-176 | later instants have larger serials, and equal serials mean equal instants |
| SerialDate.SerialOfSameInstant | hyperspy/misc/date_time_tools.py:172-176 | corrected: one instant written in two zones has one serial |
| SerialDate.AsWrittenIsWallClock | hyperspy/misc/date_time_tools.py:172-173 | as written: a value without a zone name, or in UTC, gets the serial of its wall clock taken as UTC |
| SerialDate.AsWrittenDropsUnnamedOffset | hyperspy/misc/date_time_tools.py:172-173 | the two versions agree iff the value does not have an unnamed non-zero offset |
| SerialDate.AsWrittenExample | hyperspy/misc/date_time_tools.py:172-173 | the documented `2016-12-12T12:12:12-05:00` gets a serial five hours early as written |
| SerialDate.SerialToSeconds | hyperspy/misc/date_time_tools.py:154-157 | corrected: the instant of a serial is its nearest whole second |
| SerialDate.SerialToSecondsAsWritten | hyperspy/misc/date_time_tools.py:154-157 | as written: the nearest whole second to the serial, except one day late for a negative serial with a fraction |
| SerialDate.AsWrittenAgreesOffNegativeFractions | hyperspy/misc/date_time_tools.py:155-156 | truncated and floored days agree iff the serial is non-negative or whole; otherwise the source's instant is one day late |
| SerialDate.SecondsOfSerial | hyperspy/misc/date_time_tools.py:155-157 | corrected: every whole-second instant is recovered from its serial |
| SerialDate.SecondsOfSerialAsWritten | hyperspy/misc/date_time_tools.py:155-157 | as written: non-negative whole-second instants are recovered |
| SerialDate.AsWrittenLandsADayLate | hyperspy/misc/date_time_tools.py:155-157 | serial -0.25 is -21600 s; the source builds 64800 s, whose serial is 0.75 |
| SerialDate.LocalIso | hyperspy/misc/date_time_tools.py:157-159 | fails (OverflowError) iff the instant or its local wall clock is out of range; the third string is the zone's abbreviation |
| SerialDate.LocalIsoReadsBack | hyperspy/misc/date_time_tools.py:158-159 | the date and time texts read back as the wall clock of the instant in the local zone |
| SerialDate.LocalIsoOfWallClock | hyperspy/misc/date_time_tools.py:158-159 | on a clock at offset zero, an instant is written as its own date and time |
| SerialDate.SerialToIsoFormat | hyperspy/misc/date_time_tools.py:148-159 | corrected: succeeds iff the nearest whole second of the serial and its local wall clock are in range; the zone name is the one in force then |
| SerialDate.SerialToIsoFormatAsWritten | hyperspy/misc/date_time_tools.py:148-159 | as written: equals the corrected version on non-negative serials |
| SerialDate.AsWrittenIsoADayLate | hyperspy/misc/date_time_tools.py:154-159 | on a UTC clock, -0.25 comes out as 1899-12-30 18:00:00 as written, and as 1899-12-29 18:00:00 corrected |
| SerialDate.ZoneText | hyperspy/misc/date_time_tools.py:164-165 | None and 'Coordinated Universal Time' become 'UTC'; any other zone text is kept |
| SerialDate.IsoFormatToSerial | hyperspy/misc/date_time_tools.py:162-167 | as written: succeeds iff the joined text is read; the serial is then that of its wall clock taken as UTC, whatever zone among those the reader accepts (none, `UTC`, a numeric offset) the text states |
| SerialDate.IsoFormatToSerialCorrected | hyperspy/misc/date_time_tools.py:162-167 | corrected: succeeds iff the joined text is read; the serial is then that of the instant the text denotes |
| SerialDate.IsoFormatToSerialUtc | hyperspy/misc/date_time_tools.py:164-167 | a formatted date and time with no zone, `UTC` or Windows' UTC name is the serial of that wall clock, in both versions |
| SerialDate.IsoFormatToSerialZone | hyperspy/misc/date_time_tools.py:166-167 | as written: with any other accepted zone text, such as an offset, the serial is still that of the wall clock taken as UTC |
| SerialDate.IsoFormatToSerialZoneCorrected | hyperspy/misc/date_time_tools.py:166-167 | corrected: with any other accepted zone text the serial is that of the instant, so the offset is honoured |
| SerialDate.IsoFormatToSerialOfValue | hyperspy/misc/date_time_tools.py:166-167 | once the text reads as a value, each version's serial is that of the value by the matching `datetime_to_serial_date` |
| SerialDate.IsoAsWrittenExample | hyperspy/misc/date_time_tools.py:166-167 | the documented date and time with zone `-05:00` get, as written, a serial five hours before the corrected one |
| SerialDate.SerialRoundTrip | hyperspy/misc/date_time_tools.py:148-167 | corrected: on a UTC clock, a whole-second serial written to text by `serial_date_to_ISO_format` is read back exactly by `ISO_format_to_serial_date` |
| SerialDate.SerialRoundTripAsWritten | hyperspy/misc/date_time_tools.py:148-167 | as written: the same round trip holds for every whole-second serial from the origin on |
| SerialDate.IsoOfSerialOfDateTime | hyperspy/misc/date_time_tools.py:148-176 | corrected: a UTC or naive value turned into a serial and back on a UTC clock gives its own date and time, to the second |
| SerialDate.IsoOfSerialOfDateTimeAsWritten | hyperspy/misc/date_time_tools.py:148-176 | as written: from the origin on, the same holds for a UTC value or any value without a zone name, whose offset is dropped |

## Left out

- `hyperspy/conftest.py` (test-suite configuration) is not part of this model.
- `dateutil.parser.parse` is modelled on the canonical forms only: `YYYY-MM-DD`, `HH:MM:SS`
  with an optional `.ffffff`, and a zone suffix of nothing, `UTC` or `+HH:MM` / `-HH:MM`.
  Other text fails with `NotCanonical`, where dateutil would accept many more forms.
  A parsed offset of zero is taken as UTC itself; a non-zero offset has no zone name, as
  with dateutil's `tzoffset(None, ...)`.
- The `pytz` zone database is a parameter: which names it knows, and the offset and
  abbreviation that `localize` attaches. Its contents (DST rules and the like) are not modelled.
- The machine's local zone (`tz.tzlocal()`) is a parameter: the offset and abbreviation in
  force at each instant.
- dateutil reads a zone abbreviation found in the machine's `time.tzname` (for example `CET`)
  as `tz.tzlocal()`. The reader does not model this and rejects such text, so the serial-date
  round trips are stated for clocks that write `UTC` only.
- Offsets are whole minutes; pytz and dateutil also allow seconds.
- The `numpy.datetime64` result is the text it is built from; numpy's own parsing is not modelled.
- Floating point is modelled by exact reals. Serials are therefore not rounded to the nearest
  double, and `86400.0` divisions are exact.
- SerialDate.SerialToSeconds: leaves out the `secs / 1E6` microsecond argument of the
  timedelta, because it is below 0.1 microsecond and rounds to zero.
- SerialDate.DateTimeToSerial: drops the microseconds of the value, as the source drops
  `delta.microseconds`.
- Logging (`_logger`) is not modelled.
- The metadata tree is a map from dotted leaf paths to string values. HyperSpy's tree browser
  class is not part of this model, and neither are non-string leaves.
- DateTimeMetadata.UpdateDateTimeInMetadata: an input that is neither a string nor a
  `datetime` is one `OtherInput` case, which fails with the unbound `date`. The source's
  `numpy.datetime64` input falls into that case too.
- The read fallback stores `pytz.FixedOffset(<zone string>)` in `time_zone_offset`
  (`hyperspy/misc/date_time_tools.py:75`) and appends it to the text it re-reads, so it means
  to read the zone as an offset. `pytz.FixedOffset` expects minutes and raises on a string;
  the model follows the code (see "## Findings").

## Findings

| source | as written | input that shows it | evidently intended | confidence | as-written member | corrected member |
|---|---|---|---|---|---|---|
| hyperspy/misc/date_time_tools.py:155-156 | whole days are `int(serial)`, which truncates, but the seconds are `serial % 1.0`, which floors | serial -0.25 gives 1899-12-30 18:00 (serial 0.75) | 1899-12-29 18:00, the instant with serial -0.25 | not executed | SerialDate.AsWrittenIsoADayLate | SerialDate.SerialToSeconds |
| hyperspy/misc/date_time_tools.py:172-173 | UTC replaces the zone of any value whose `tzname()` is None, which includes parsed numeric offsets | `2016-12-12T12:12:12-05:00` gets the serial of 12:12:12 UTC | the serial of 17:12:12 UTC; only naive values taken as UTC | not executed | SerialDate.AsWrittenDropsUnnamedOffset | SerialDate.DateTimeToSerial |
| hyperspy/misc/date_time_tools.py:166-167 | `ISO_format_to_serial_date` hands the parsed value to `datetime_to_serial_date`, so the row above makes it ignore any offset it is given | date `2016-12-12`, time `12:12:12`, timezone `-05:00` gives the serial of 12:12:12 UTC | the serial of 17:12:12 UTC | not executed | SerialDate.IsoFormatToSerialZone | SerialDate.IsoFormatToSerialZoneCorrected |
| hyperspy/misc/date_time_tools.py:74-77 | an unknown zone name is passed as a string to `pytz.FixedOffset`, which expects minutes and raises | the tree written from `2016-12-12T12:12:12-05:00` (zone `-05:00`) cannot be read back | re-read date, time and the zone text as an offset | not executed | DateTimeMetadata.WriteThenReadAsWrittenFails | DateTimeMetadata.WriteThenRead |
