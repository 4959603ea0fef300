/** Spreadsheet ("Excel") serial dates: days since 1899-12-30T00:00:00 UTC as a
    number whose fraction is the time of day. `datetime_to_serial_date`,
    `serial_date_to_ISO_format` and `ISO_format_to_serial_date`, with the serial as
    an exact `real` and instants as whole seconds from the origin. */
module SerialDate {
  import opened Wrappers
  import opened Calendar
  import opened Iso
  import opened Numerals

  // ------------------------------------------------------- Python numerics

  /** `int(x)` of a float: the integer part, rounding toward zero. */
  function Trunc(x: real): (r: int)
    ensures 0.0 <= x ==> r as real <= x < r as real + 1.0
    ensures x < 0.0 ==> r as real - 1.0 < x <= r as real
  {
    if x >= 0.0 then x.Floor else -((-x).Floor)
  }

  /** `x % 1.0` of a float: Python's remainder takes the sign of the divisor. */
  function Frac(x: real): (f: real)
    ensures 0.0 <= f < 1.0
    ensures (x - f).Floor as real == x - f
  {
    x - x.Floor as real
  }

  /** Python 3's `round(x)`: the nearest integer, ties going to the even one. */
  function RoundHalfEven(x: real): (r: int)
    ensures -0.5 <= r as real - x <= 0.5
    ensures r as real - x == 0.5 || x - r as real == 0.5 ==> r % 2 == 0
  {
    var f := x.Floor;
    var d := x - f as real;
    if d < 0.5 then f
    else if d > 0.5 then f + 1
    else if f % 2 == 0 then f
    else f + 1
  }

  /** Rounding commutes with a shift by an even integer. */
  lemma RoundShift(x: real, k: int)
    ensures RoundHalfEven(x + (2 * k) as real) == RoundHalfEven(x) + 2 * k
  {
    var y := x + (2 * k) as real;
    assert y.Floor == x.Floor + 2 * k;
    assert y - y.Floor as real == x - x.Floor as real;
    assert (x.Floor + 2 * k) % 2 == x.Floor % 2;
  }

  /** An integer rounds to itself. */
  lemma RoundWhole(n: int)
    ensures RoundHalfEven(n as real) == n
  {
    assert (n as real).Floor == n;
  }

  // ------------------------------------------------ datetime_to_serial_date

  /** `float(delta.days) + float(delta.seconds) / 86400.0` for a `timedelta` of `s`
      seconds, whose `days` is floored and `0 <= seconds < 86400`. */
  function SerialOfSeconds(s: int): (serial: real)
    ensures serial == s as real / 86400.0
    ensures serial.Floor == s / SecondsPerDay
  {
    var days := s / SecondsPerDay;
    var secs := s % SecondsPerDay;
    assert s == days * SecondsPerDay + secs;
    days as real + secs as real / 86400.0
  }

  /** The instant a value denotes, with a naive value read as UTC. */
  function Instant(dt: DateTime): int
    requires ValidDateTime(dt)
  {
    if dt.tz.Naive? then WallSeconds(dt.date, dt.time) else UtcSeconds(dt)
  }

  /** `datetime_to_serial_date` as written: a value whose `tzname()` is None gets UTC
      attached in place of whatever it had, so an unnamed numeric offset is dropped. */
  function DateTimeToSerialAsWritten(dt: DateTime): (serial: real)
    requires ValidDateTime(dt)
    ensures TzName(dt.tz).None? ==> serial * 86400.0 == WallSeconds(dt.date, dt.time) as real
    ensures TzName(dt.tz).Some? ==> serial * 86400.0 == UtcSeconds(dt) as real
  {
    var utc := if TzName(dt.tz).None? then dt.(tz := Utc) else dt;
    SerialOfSeconds(UtcSeconds(utc))
  }

  /** `datetime_to_serial_date` with UTC attached only to a naive value: the serial is
      the instant in days since the origin. Microseconds are dropped, as the source
      drops `delta.microseconds`. */
  function DateTimeToSerial(dt: DateTime): (serial: real)
    requires ValidDateTime(dt)
    ensures serial * 86400.0 == Instant(dt) as real
  {
    var utc := if dt.tz.Naive? then dt.(tz := Utc) else dt;
    SerialOfSeconds(UtcSeconds(utc))
  }

  /** The serial of a value is the serial of the seconds of its instant. */
  lemma SerialOfInstant(dt: DateTime)
    requires ValidDateTime(dt)
    ensures DateTimeToSerial(dt) == SerialOfSeconds(Instant(dt))
  {
  }

  /** The origin itself is serial 0, naive or in UTC, and the next midnight is 1.0. */
  lemma OriginIsZero()
    ensures DateTimeToSerial(DateTime(Date(1899, 12, 30), Time(0, 0, 0, 0), Naive)) == 0.0
    ensures DateTimeToSerial(DateTime(Date(1899, 12, 30), Time(0, 0, 0, 0), Utc)) == 0.0
    ensures DateTimeToSerial(DateTime(Date(1899, 12, 31), Time(0, 0, 0, 0), Utc)) == 1.0
  {
    EpochDayIsOrigin();
    assert DayNumber(Date(1899, 12, 31)) == DayNumber(Date(1899, 12, 30)) + 1;
  }

  /** One day is 1.0, and the time of day is the fraction. */
  lemma DayIsOne(s: int)
    ensures SerialOfSeconds(s + SecondsPerDay) == SerialOfSeconds(s) + 1.0
    ensures SerialOfSeconds(s) - SerialOfSeconds(s).Floor as real == (s % SecondsPerDay) as real / 86400.0
  {
    assert s == (s / SecondsPerDay) * SecondsPerDay + s % SecondsPerDay;
  }

  /** Later instants have larger serials: the serial determines the instant. */
  lemma SerialOrder(s1: int, s2: int)
    ensures s1 < s2 <==> SerialOfSeconds(s1) < SerialOfSeconds(s2)
    ensures s1 == s2 <==> SerialOfSeconds(s1) == SerialOfSeconds(s2)
  {
  }

  /** The corrected serial depends on the instant only: the same moment written in two
      zones has one serial. */
  lemma SerialOfSameInstant(a: DateTime, b: DateTime)
    requires ValidDateTime(a) && ValidDateTime(b)
    requires Instant(a) == Instant(b)
    ensures DateTimeToSerial(a) == DateTimeToSerial(b)
  {
    assert DateTimeToSerial(a) * 86400.0 == DateTimeToSerial(b) * 86400.0;
  }

  /** As written, a value without a zone name, or in UTC, gets the serial of its wall
      clock taken as UTC. */
  lemma AsWrittenIsWallClock(dt: DateTime)
    requires ValidDateTime(dt) && (TzName(dt.tz).None? || dt.tz == Utc)
    ensures DateTimeToSerialAsWritten(dt) == SerialOfSeconds(WallSeconds(dt.date, dt.time))
  {
    var w := WallSeconds(dt.date, dt.time);
    if dt.tz == Utc {
      assert UtcSeconds(dt) == w;
    }
    assert DateTimeToSerialAsWritten(dt) * 86400.0 == SerialOfSeconds(w) * 86400.0;
  }

  /** The two versions differ exactly on values with an unnamed, non-zero offset. */
  lemma AsWrittenDropsUnnamedOffset(dt: DateTime)
    requires ValidDateTime(dt)
    ensures DateTimeToSerialAsWritten(dt) == DateTimeToSerial(dt)
        <==> !(dt.tz.Aware? && dt.tz.name.None? && dt.tz.offset != 0)
  {
    var a := DateTimeToSerialAsWritten(dt);
    var c := DateTimeToSerial(dt);
    if dt.tz.Aware? && dt.tz.name.None? {
      assert a * 86400.0 - c * 86400.0 == (dt.tz.offset * 60) as real;
    } else {
      assert a * 86400.0 == c * 86400.0;
    }
  }

  /** The documented value `2016-12-12T12:12:12-05:00`, as the text parser reads it,
      gets the serial of 12:12:12 UTC from the source: five hours early. */
  lemma AsWrittenExample()
    ensures var dt := DateTime(Date(2016, 12, 12), Time(12, 12, 12, 0), Aware(-300, None));
      && ValidDateTime(dt)
      && DateTimeToSerial(dt) - DateTimeToSerialAsWritten(dt) == 18000.0 / 86400.0
  {
    var dt := DateTime(Date(2016, 12, 12), Time(12, 12, 12, 0), Aware(-300, None));
    assert ValidDateTime(dt);
    var a := DateTimeToSerialAsWritten(dt);
    var c := DateTimeToSerial(dt);
    assert c * 86400.0 - a * 86400.0 == 18000.0;
  }

  // ---------------------------------------------- serial_date_to_ISO_format

  /** `round(serial % 1.0 * 86400)`: the second of the day, which can reach 86400
      when the fraction rounds up to a whole day. */
  function SecondsOfDay(serial: real): (secs: int)
    ensures 0 <= secs <= SecondsPerDay
  {
    RoundHalfEven(Frac(serial) * 86400.0)
  }

  /** The instant `origin + timedelta(int(serial), secs)` of the source, in seconds
      (the `secs / 1E6` microseconds are below half a microsecond and round to 0):
      the nearest whole second to the serial, except that a negative serial with a
      fraction lands one day late. */
  function SerialToSecondsAsWritten(serial: real): (s: int)
    ensures serial >= 0.0 || Frac(serial) == 0.0 ==> s == RoundHalfEven(serial * 86400.0)
    ensures serial < 0.0 && Frac(serial) != 0.0 ==> s == RoundHalfEven(serial * 86400.0) + SecondsPerDay
  {
    var f := serial.Floor;
    assert serial * 86400.0 == Frac(serial) * 86400.0 + (2 * (f * 43200)) as real;
    RoundShift(Frac(serial) * 86400.0, f * 43200);
    assert Trunc(serial) == if serial >= 0.0 || Frac(serial) == 0.0 then f else f + 1;
    Trunc(serial) * SecondsPerDay + SecondsOfDay(serial)
  }

  /** The instant with whole days taken by `floor`, matching the floored `%`: the
      nearest whole second to the serial. */
  function SerialToSeconds(serial: real): (s: int)
    ensures s == RoundHalfEven(serial * 86400.0)
  {
    var f := serial.Floor;
    assert serial * 86400.0 == Frac(serial) * 86400.0 + (2 * (f * 43200)) as real;
    RoundShift(Frac(serial) * 86400.0, f * 43200);
    f * SecondsPerDay + SecondsOfDay(serial)
  }

  /** Truncation and floor agree except on negative serials with a fraction, where
      the source lands one day late. */
  lemma AsWrittenAgreesOffNegativeFractions(serial: real)
    ensures SerialToSecondsAsWritten(serial) == SerialToSeconds(serial) <==> serial >= 0.0 || Frac(serial) == 0.0
    ensures serial < 0.0 && Frac(serial) != 0.0 ==>
      SerialToSecondsAsWritten(serial) == SerialToSeconds(serial) + SecondsPerDay
  {
    if serial >= 0.0 || Frac(serial) == 0.0 {
      assert Trunc(serial) == serial.Floor;
    } else {
      assert Trunc(serial) == serial.Floor + 1;
    }
  }

  /** Reading a serial back gives the whole-second instant it came from. */
  lemma SecondsOfSerial(s: int)
    ensures SerialToSeconds(SerialOfSeconds(s)) == s
  {
    assert SerialOfSeconds(s) * 86400.0 == s as real;
    RoundWhole(s);
  }

  /** The truncating version reads back non-negative instants only. */
  lemma SecondsOfSerialAsWritten(s: int)
    requires s >= 0
    ensures SerialToSecondsAsWritten(SerialOfSeconds(s)) == s
  {
    SecondsOfSerial(s);
    AsWrittenAgreesOffNegativeFractions(SerialOfSeconds(s));
  }

  /** Serial -0.25 is 1899-12-29T18:00 UTC (-21600 s), but the source builds
      1899-12-30T18:00 (64800 s), whose serial is 0.75. */
  lemma AsWrittenLandsADayLate()
    ensures SerialOfSeconds(-21600) == -0.25
    ensures SerialToSeconds(-0.25) == -21600
    ensures SerialToSecondsAsWritten(-0.25) == 64800
    ensures SerialOfSeconds(64800) == 0.75
  {
    assert Trunc(-0.25) == 0;
    assert (-0.25).Floor == -1;
    assert Frac(-0.25) == 0.75;
    RoundWhole(64800);
    assert 0.75 * 86400.0 == 64800 as real;
  }

  /** OverflowError of `origin + delta` or of `astimezone`, or text outside the
      forms the reader models. */
  datatype SerialError = OutOfRange | NotCanonical(text: string)

  /** The date, time and zone name of instant `s` on a clock in `zone`. */
  function LocalIso(s: int, zone: LocalZone): (r: Result<(string, string, string), SerialError>)
    ensures r.Success? <==> InRange(s) && InRange(s + zone.offset * 60)
    ensures r.Success? ==> r.value.2 == zone.abbreviation
  {
    if !InRange(s) then Failure(OutOfRange)
    else
      var wall := s + zone.offset * 60;
      if !InRange(wall) then Failure(OutOfRange)
      else
        var clock := FromSeconds(wall);
        Success((FormatDate(clock.0), FormatTime(clock.1), zone.abbreviation))
  }

  /** `serial_date_to_ISO_format(serial)` as written; `local` answers which zone
      (`tz.tzlocal()`) is in force at an instant. */
  function SerialToIsoFormatAsWritten(serial: real, local: int -> LocalZone): (r: Result<(string, string, string), SerialError>)
    ensures serial >= 0.0 ==> r == SerialToIsoFormat(serial, local)
  {
    AsWrittenAgreesOffNegativeFractions(serial);
    var s := SerialToSecondsAsWritten(serial);
    LocalIso(s, local(s))
  }

  /** `serial_date_to_ISO_format(serial)` with whole days floored. */
  function SerialToIsoFormat(serial: real, local: int -> LocalZone): (r: Result<(string, string, string), SerialError>)
    ensures var s := RoundHalfEven(serial * 86400.0);
      && (r.Success? <==> InRange(s) && InRange(s + local(s).offset * 60))
      && (r.Success? ==> r.value.2 == local(s).abbreviation)
  {
    var s := SerialToSeconds(serial);
    LocalIso(s, local(s))
  }

  /** The date and time texts read back as the wall clock the instant shows in the zone. */
  lemma LocalIsoReadsBack(s: int, zone: LocalZone)
    requires LocalIso(s, zone).Success?
    ensures var r := LocalIso(s, zone).value;
      && ParseDate(r.0).Some? && ParseTime(r.1).Some?
      && WallSeconds(ParseDate(r.0).value, ParseTime(r.1).value) == s + zone.offset * 60
  {
    var clock := FromSeconds(s + zone.offset * 60);
    var r := LocalIso(s, zone).value;
    assert r.0 == FormatDate(clock.0) && r.1 == FormatTime(clock.1);
    ParseFormatDate(clock.0);
    ParseFormatTime(clock.1);
  }

  /** On a clock at offset zero, an instant is written as its own wall-clock date and time. */
  lemma LocalIsoOfWallClock(d: Date, t: Time, zone: LocalZone)
    requires ValidDate(d) && ValidTime(t) && t.micro == 0
    requires zone.offset == 0
    ensures var r := LocalIso(WallSeconds(d, t), zone);
      && r.Success?
      && r.value.0 == FormatDate(d)
      && r.value.1 == FormatTime(t)
      && r.value.2 == zone.abbreviation
  {
    FromWallSeconds(d, t);
  }

  /** On a UTC clock, serial -0.25 comes out as the evening of 1899-12-30 instead of
      the evening of 1899-12-29. */
  lemma AsWrittenIsoADayLate(local: int -> LocalZone)
    requires forall s :: local(s) == LocalZone(0, "UTC")
    ensures SerialToIsoFormatAsWritten(-0.25, local) == Success(("1899-12-30", "18:00:00", "UTC"))
    ensures SerialToIsoFormat(-0.25, local) == Success(("1899-12-29", "18:00:00", "UTC"))
  {
    AsWrittenLandsADayLate();
    var t := Time(18, 0, 0, 0);
    EveningsAroundOrigin();
    LocalIsoOfWallClock(Date(1899, 12, 30), t, local(64800));
    LocalIsoOfWallClock(Date(1899, 12, 29), t, local(-21600));
    OriginTexts();
  }

  /** 18:00 on the day before the origin and on the origin day, in seconds. */
  lemma EveningsAroundOrigin()
    ensures ValidDate(Date(1899, 12, 29)) && ValidDate(Date(1899, 12, 30))
    ensures WallSeconds(Date(1899, 12, 30), Time(18, 0, 0, 0)) == 64800
    ensures WallSeconds(Date(1899, 12, 29), Time(18, 0, 0, 0)) == -21600
  {
    EpochDayIsOrigin();
    assert DayNumber(Date(1899, 12, 29)) == DayNumber(Date(1899, 12, 30)) - 1;
  }

  /** The texts of the evenings around the origin. */
  lemma OriginTexts()
    ensures FormatDate(Date(1899, 12, 29)) == "1899-12-29"
    ensures FormatDate(Date(1899, 12, 30)) == "1899-12-30"
    ensures FormatTime(Time(18, 0, 0, 0)) == "18:00:00"
  {
    OriginFields();
  }

  lemma OriginFields()
    ensures Pad(1899, 4) == "1899"
    ensures Pad(12, 2) == "12" && Pad(29, 2) == "29" && Pad(30, 2) == "30"
    ensures Pad(18, 2) == "18" && Pad(0, 2) == "00"
  {
    assert Pad(18, 2) == "18";
    assert Pad(189, 3) == "189";
    assert Pad(1, 1) == "1" && Pad(0, 1) == "0";
  }

  // ---------------------------------------------- ISO_format_to_serial_date

  /** The zone text appended before parsing: None and Windows' name for UTC become `UTC`. */
  function ZoneText(timezone: Option<string>): (z: string)
    ensures timezone.None? || timezone.value == "Coordinated Universal Time" ==> z == "UTC"
    ensures timezone.Some? && timezone.value != "Coordinated Universal Time" ==> z == timezone.value
  {
    if timezone.None? || timezone.value == "Coordinated Universal Time" then "UTC" else timezone.value
  }

  /** `ISO_format_to_serial_date(date, time, timezone)` as written: the parsed value goes
      to `datetime_to_serial_date` as written, and every zone the reader accepts is
      either named UTC or unnamed, so the serial is that of the wall clock taken as UTC
      and a stated offset has no effect. */
  function IsoFormatToSerial(date: string, time: string, timezone: Option<string>): (r: Result<real, SerialError>)
    ensures r.Success? <==> ParseDateTime(date + "T" + time + ZoneText(timezone)).Some?
    ensures r.Success? ==>
      var dt := ParseDateTime(date + "T" + time + ZoneText(timezone)).value;
      r.value * 86400.0 == WallSeconds(dt.date, dt.time) as real
  {
    var text := date + "T" + time + ZoneText(timezone);
    match ParseDateTime(text)
    case None => Failure(NotCanonical(text))
    case Some(dt) => Success(DateTimeToSerialAsWritten(dt))
  }

  /** `ISO_format_to_serial_date` over the corrected `datetime_to_serial_date`: the
      serial of the instant the joined text denotes. */
  function IsoFormatToSerialCorrected(date: string, time: string, timezone: Option<string>): (r: Result<real, SerialError>)
    ensures r.Success? <==> ParseDateTime(date + "T" + time + ZoneText(timezone)).Some?
    ensures r.Success? ==> r.value * 86400.0 == Instant(ParseDateTime(date + "T" + time + ZoneText(timezone)).value) as real
  {
    var text := date + "T" + time + ZoneText(timezone);
    match ParseDateTime(text)
    case None => Failure(NotCanonical(text))
    case Some(dt) => Success(DateTimeToSerial(dt))
  }

  /** A date and time written by `isoformat()`, read with a UTC zone name (or none):
      the serial of that wall clock taken as UTC, in both versions. */
  lemma IsoFormatToSerialUtc(d: Date, t: Time, timezone: Option<string>)
    requires ValidDate(d) && ValidTime(t)
    requires timezone.None? || timezone.value == "UTC" || timezone.value == "Coordinated Universal Time"
    ensures IsoFormatToSerial(FormatDate(d), FormatTime(t), timezone) == Success(SerialOfSeconds(WallSeconds(d, t)))
    ensures IsoFormatToSerialCorrected(FormatDate(d), FormatTime(t), timezone) == Success(SerialOfSeconds(WallSeconds(d, t)))
  {
    assert ZoneText(timezone) == "UTC";
    ParseDateTimeOfParts(d, t, "UTC");
    assert ParseZone("UTC") == Some(Utc);
    var dt := DateTime(d, t, Utc);
    IsoFormatToSerialOfValue(FormatDate(d), FormatTime(t), timezone, dt);
    SerialOfInstant(dt);
    assert Instant(dt) == WallSeconds(d, t);
  }

  /** As written, a formatted date and time read with any other zone text the reader
      accepts, such as a `+HH:MM` / `-HH:MM` offset, still gets the serial of the wall
      clock taken as UTC: the offset is ignored. */
  lemma IsoFormatToSerialZone(d: Date, t: Time, z: string)
    requires ValidDate(d) && ValidTime(t)
    requires z != "Coordinated Universal Time" && (z == [] || z[0] != '.') && ParseZone(z).Some?
    ensures IsoFormatToSerial(FormatDate(d), FormatTime(t), Some(z)) == Success(SerialOfSeconds(WallSeconds(d, t)))
  {
    var dt := DateTime(d, t, ParseZone(z).value);
    assert ZoneText(Some(z)) == z;
    ParseDateTimeOfParts(d, t, z);
    IsoFormatToSerialOfValue(FormatDate(d), FormatTime(t), Some(z), dt);
    AsWrittenIsWallClock(dt);
  }

  /** Corrected, the same reading honours the offset: the serial is that of the instant. */
  lemma IsoFormatToSerialZoneCorrected(d: Date, t: Time, z: string)
    requires ValidDate(d) && ValidTime(t)
    requires z != "Coordinated Universal Time" && (z == [] || z[0] != '.') && ParseZone(z).Some?
    ensures IsoFormatToSerialCorrected(FormatDate(d), FormatTime(t), Some(z))
         == Success(SerialOfSeconds(Instant(DateTime(d, t, ParseZone(z).value))))
  {
    var dt := DateTime(d, t, ParseZone(z).value);
    assert ZoneText(Some(z)) == z;
    ParseDateTimeOfParts(d, t, z);
    IsoFormatToSerialOfValue(FormatDate(d), FormatTime(t), Some(z), dt);
    SerialOfInstant(dt);
  }

  /** Once the text is known to read as `dt`, the serial is that of `dt`, by the
      matching version of `datetime_to_serial_date`. */
  lemma IsoFormatToSerialOfValue(date: string, time: string, timezone: Option<string>, dt: DateTime)
    requires ParseDateTime(date + "T" + time + ZoneText(timezone)) == Some(dt)
    ensures ValidDateTime(dt)
    ensures IsoFormatToSerial(date, time, timezone) == Success(DateTimeToSerialAsWritten(dt))
    ensures IsoFormatToSerialCorrected(date, time, timezone) == Success(DateTimeToSerial(dt))
  {
  }

  /** The documented value read with its offset as the zone: as written it gets the
      serial of 12:12:12 UTC, five hours before the instant the text denotes. */
  lemma IsoAsWrittenExample()
    ensures var a := IsoFormatToSerial("2016-12-12", "12:12:12", Some("-05:00"));
      var c := IsoFormatToSerialCorrected("2016-12-12", "12:12:12", Some("-05:00"));
      && a.Success? && c.Success?
      && c.value - a.value == 18000.0 / 86400.0
  {
    var d, t := Date(2016, 12, 12), Time(12, 12, 12, 0);
    ExampleStamp2016();
    DocumentedTexts();
    ExampleOffset();
    ParseFormatOffset(-300);
    assert ParseZone("-05:00") == Some(Aware(-300, None));
    IsoFormatToSerialZone(d, t, "-05:00");
    IsoFormatToSerialZoneCorrected(d, t, "-05:00");
    assert UtcSeconds(DateTime(d, t, Aware(-300, None))) == WallSeconds(d, t) + 18000;
  }

  /** Corrected: whole-second serials survive the trip through the text of a UTC
      clock: what `serial_date_to_ISO_format` writes, `ISO_format_to_serial_date`
      reads back. */
  lemma SerialRoundTrip(s: int, local: int -> LocalZone)
    requires InRange(s)
    requires local(s) == LocalZone(0, "UTC") || local(s) == LocalZone(0, "Coordinated Universal Time")
    ensures var serial := SerialOfSeconds(s);
      var r := SerialToIsoFormat(serial, local);
      && r.Success?
      && IsoFormatToSerialCorrected(r.value.0, r.value.1, Some(r.value.2)) == Success(serial)
  {
    SecondsOfSerial(s);
    var (d, t) := FromSeconds(s);
    LocalIsoOfWallClock(d, t, local(s));
    IsoFormatToSerialUtc(d, t, Some(local(s).abbreviation));
  }

  /** As written, the same round trip holds from the origin on. */
  lemma SerialRoundTripAsWritten(s: int, local: int -> LocalZone)
    requires InRange(s) && s >= 0
    requires local(s) == LocalZone(0, "UTC") || local(s) == LocalZone(0, "Coordinated Universal Time")
    ensures var serial := SerialOfSeconds(s);
      var r := SerialToIsoFormatAsWritten(serial, local);
      && r.Success?
      && IsoFormatToSerial(r.value.0, r.value.1, Some(r.value.2)) == Success(serial)
  {
    var serial := SerialOfSeconds(s);
    assert SerialToIsoFormatAsWritten(serial, local) == SerialToIsoFormat(serial, local);
    SecondsOfSerial(s);
    var (d, t) := FromSeconds(s);
    LocalIsoOfWallClock(d, t, local(s));
    IsoFormatToSerialUtc(d, t, Some(local(s).abbreviation));
  }

  /** Corrected: a UTC (or naive) value turned into a serial and back on a UTC clock
      gives its own date and time, to the second. */
  lemma IsoOfSerialOfDateTime(dt: DateTime, local: int -> LocalZone)
    requires ValidDateTime(dt) && (dt.tz.Naive? || dt.tz == Utc)
    requires local(WallSeconds(dt.date, dt.time)).offset == 0
    ensures var r := SerialToIsoFormat(DateTimeToSerial(dt), local);
      && r.Success?
      && r.value.0 == FormatDate(dt.date)
      && r.value.1 == FormatTime(dt.time.(micro := 0))
  {
    var t := dt.time.(micro := 0);
    var w := WallSeconds(dt.date, dt.time);
    assert WallSeconds(dt.date, t) == w;
    SerialOfInstant(dt);
    SecondsOfSerial(w);
    LocalIsoOfWallClock(dt.date, t, local(w));
  }

  /** As written, from the origin on, the same holds for any value without a zone name
      or in UTC: an unnamed offset is dropped, so its own wall clock comes back. */
  lemma IsoOfSerialOfDateTimeAsWritten(dt: DateTime, local: int -> LocalZone)
    requires ValidDateTime(dt) && (TzName(dt.tz).None? || dt.tz == Utc)
    requires WallSeconds(dt.date, dt.time) >= 0
    requires local(WallSeconds(dt.date, dt.time)).offset == 0
    ensures var r := SerialToIsoFormatAsWritten(DateTimeToSerialAsWritten(dt), local);
      && r.Success?
      && r.value.0 == FormatDate(dt.date)
      && r.value.1 == FormatTime(dt.time.(micro := 0))
  {
    var t := dt.time.(micro := 0);
    var w := WallSeconds(dt.date, dt.time);
    assert WallSeconds(dt.date, t) == w;
    AsWrittenIsWallClock(dt);
    SecondsOfSerial(w);
    LocalIsoOfWallClock(dt.date, t, local(w));
  }
}
