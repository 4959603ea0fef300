/** ISO 8601 text as Python's `isoformat()` writes it, and the reading of that text.
    Reading stands in for `dateutil.parser.parse` on the canonical forms only:
    `YYYY-MM-DD`, `HH:MM:SS` with an optional `.ffffff`, and for a date and time
    joined by `T` an optional zone suffix `UTC` or `+HH:MM` / `-HH:MM`. */
module Iso {
  import opened Wrappers
  import opened Numerals
  import opened Calendar

  /** `date.isoformat()`: `YYYY-MM-DD`. */
  function FormatDate(d: Date): (s: string)
    requires ValidDate(d)
    ensures |s| == 10 && 'T' !in s && '+' !in s
  {
    Pad(d.year, 4) + "-" + Pad(d.month, 2) + "-" + Pad(d.day, 2)
  }

  /** `time.isoformat()`: `HH:MM:SS`, followed by `.ffffff` when there are microseconds. */
  function FormatTime(t: Time): (s: string)
    requires ValidTime(t)
    ensures |s| == (if t.micro == 0 then 8 else 15)
    ensures 'T' !in s && '+' !in s && '-' !in s
  {
    FormatClock(t) + FormatFraction(t.micro)
  }

  /** The `HH:MM:SS` part of `time.isoformat()`. */
  function FormatClock(t: Time): (s: string)
    requires ValidTime(t)
    ensures |s| == 8 && 'T' !in s && '+' !in s && '-' !in s
  {
    Pad(t.hour, 2) + ":" + Pad(t.minute, 2) + ":" + Pad(t.second, 2)
  }

  /** The `.ffffff` part of `time.isoformat()`, empty for a whole second. */
  function FormatFraction(micro: nat): (s: string)
    requires micro < MicrosPerSecond
    ensures |s| == (if micro == 0 then 0 else 7)
    ensures 'T' !in s && '+' !in s && '-' !in s
  {
    if micro == 0 then "" else "." + Pad(micro, 6)
  }

  /** The `+HH:MM` / `-HH:MM` suffix `isoformat()` writes for a UTC offset. */
  function FormatOffset(m: Offset): (s: string)
    ensures |s| == 6 && s[0] == (if m < 0 then '-' else '+')
    ensures 'T' !in s[1..] && '+' !in s[1..] && '-' !in s[1..]
  {
    var a := if m < 0 then -m else m;
    [if m < 0 then '-' else '+'] + Pad(a / 60, 2) + ":" + Pad(a % 60, 2)
  }

  /** What `isoformat()` appends for a zone: nothing for a naive value. */
  function ZoneSuffix(tz: TzInfo): string {
    if tz.Naive? then "" else FormatOffset(tz.offset)
  }

  /** `datetime.isoformat()`: the date, `T`, the time, and the offset of an aware value.
      ParseFormatDateTime shows the text reads back. */
  function FormatDateTime(dt: DateTime): (s: string)
    requires ValidDateTime(dt)
    ensures |s| == 19 + (if dt.time.micro == 0 then 0 else 7) + (if dt.tz.Naive? then 0 else 6)
  {
    FormatDate(dt.date) + "T" + FormatTime(dt.time) + ZoneSuffix(dt.tz)
  }

  function ParseDate(s: string): (r: Option<Date>)
    ensures r.Some? ==> ValidDate(r.value)
  {
    if |s| == 10 && s[4] == '-' && s[7] == '-'
       && AllDigits(s[..4]) && AllDigits(s[5..7]) && AllDigits(s[8..])
    then
      var d := Date(ValueOf(s[..4]), ValueOf(s[5..7]), ValueOf(s[8..]));
      if ValidDate(d) then Some(d) else None
    else None
  }

  function ParseTime(s: string): (r: Option<Time>)
    ensures r.Some? ==> ValidTime(r.value)
  {
    if (|s| == 8 || (|s| == 15 && s[8] == '.' && AllDigits(s[9..])))
       && s[2] == ':' && s[5] == ':'
       && AllDigits(s[..2]) && AllDigits(s[3..5]) && AllDigits(s[6..8])
    then
      var t := Time(ValueOf(s[..2]), ValueOf(s[3..5]), ValueOf(s[6..8]),
                    if |s| == 15 then ValueOf(s[9..]) else 0);
      if ValidTime(t) then Some(t) else None
    else None
  }

  /** The date reader accepts exactly what `date.isoformat()` writes. */
  lemma FormatParseDate(s: string)
    requires ParseDate(s).Some?
    ensures FormatDate(ParseDate(s).value) == s
  {
    PadValue(s[..4]);
    PadValue(s[5..7]);
    PadValue(s[8..]);
    assert s == s[..4] + "-" + s[5..7] + "-" + s[8..];
  }

  /** The time reader accepts what `time.isoformat()` writes, and besides that only
      an explicit `.000000` fraction. */
  lemma FormatParseTime(s: string)
    requires ParseTime(s).Some?
    ensures var t := ParseTime(s).value;
      FormatTime(t) == s || FormatTime(t) + ".000000" == s
  {
    var t := ParseTime(s).value;
    ClockOf(s);
    if |s| == 15 {
      FractionOf(s);
      if t.micro == 0 {
        assert Pad(0, 6) == "000000";
      }
      assert s == s[..8] + s[8..];
    } else {
      assert s[..8] == s;
    }
  }

  /** The `HH:MM:SS` part of a time the reader accepts is how its fields are written. */
  lemma ClockOf(s: string)
    requires ParseTime(s).Some?
    ensures FormatClock(ParseTime(s).value) == s[..8]
    ensures |s| == 8 ==> ParseTime(s).value.micro == 0
  {
    var t := ParseTime(s).value;
    assert t.hour == ValueOf(s[..2]) && t.minute == ValueOf(s[3..5]) && t.second == ValueOf(s[6..8]);
    PadValue(s[..2]);
    PadValue(s[3..5]);
    PadValue(s[6..8]);
    assert s[..8] == s[..2] + ":" + s[3..5] + ":" + s[6..8];
  }

  /** The `.ffffff` part of a long time the reader accepts is how its microseconds
      are written. */
  lemma FractionOf(s: string)
    requires ParseTime(s).Some? && |s| == 15
    ensures s[8..] == "." + Pad(ParseTime(s).value.micro, 6)
  {
    var t := ParseTime(s).value;
    assert t.micro == ValueOf(s[9..]);
    PadValue(s[9..]);
    assert s[8..] == "." + s[9..];
  }

  /** A zone suffix: none, `UTC`, or a signed `HH:MM` offset. An offset of zero reads as
      UTC itself; any other offset carries no zone name. */
  function ParseZone(z: string): (r: Option<TzInfo>)
    ensures r.Some? ==> r.value.Naive? || r.value == Utc || r.value.name.None?
  {
    if z == "" then Some(Naive)
    else if z == "UTC" then Some(Utc)
    else if |z| == 6 && (z[0] == '+' || z[0] == '-') && z[3] == ':'
            && AllDigits(z[1..3]) && AllDigits(z[4..])
    then
      var hh := ValueOf(z[1..3]);
      var mm := ValueOf(z[4..]);
      if hh < 24 && mm < 60 then
        var m := (if z[0] == '-' then -1 else 1) * (hh * 60 + mm);
        Some(if m == 0 then Utc else Aware(m, None))
      else None
    else None
  }

  /** A date, `T`, a time and an optional zone suffix. */
  function ParseDateTime(s: string): (r: Option<DateTime>)
    ensures r.Some? ==> ValidDateTime(r.value)
    ensures r.Some? ==> r.value.tz.Naive? || r.value.tz == Utc || r.value.tz.name.None?
  {
    if |s| < 19 || s[10] != 'T' then None
    else
      var n := if |s| >= 26 && s[19] == '.' then 15 else 8;
      match (ParseDate(s[..10]), ParseTime(s[11..11 + n]), ParseZone(s[11 + n..]))
      case (Some(d), Some(t), Some(tz)) => Some(DateTime(d, t, tz))
      case _ => None
  }

  /** The zone a suffix written by `isoformat()` reads back as. */
  function Reread(tz: TzInfo): TzInfo {
    if tz.Naive? then Naive else if tz.offset == 0 then Utc else Aware(tz.offset, None)
  }

  lemma ParseFormatDate(d: Date)
    requires ValidDate(d)
    ensures ParseDate(FormatDate(d)) == Some(d)
  {
    var s := FormatDate(d);
    ParsePad(d.year, 4);
    ParsePad(d.month, 2);
    ParsePad(d.day, 2);
    assert s[..4] == Pad(d.year, 4);
    assert s[5..7] == Pad(d.month, 2);
    assert s[8..] == Pad(d.day, 2);
  }

  lemma ParseFormatTime(t: Time)
    requires ValidTime(t)
    ensures ParseTime(FormatTime(t)) == Some(t)
  {
    var s := FormatTime(t);
    ParsePad(t.hour, 2);
    ParsePad(t.minute, 2);
    ParsePad(t.second, 2);
    assert s[..2] == Pad(t.hour, 2);
    assert s[3..5] == Pad(t.minute, 2);
    assert s[6..8] == Pad(t.second, 2);
    if t.micro != 0 {
      ParsePad(t.micro, 6);
      assert s[9..] == Pad(t.micro, 6);
    }
  }

  lemma ParseFormatOffset(m: Offset)
    ensures ParseZone(FormatOffset(m)) == Some(Reread(Aware(m, None)))
  {
    var a := if m < 0 then -m else m;
    var z := FormatOffset(m);
    ParsePad(a / 60, 2);
    ParsePad(a % 60, 2);
    assert z[1..3] == Pad(a / 60, 2);
    assert z[4..] == Pad(a % 60, 2);
    assert z != "" && z != "UTC";
  }

  /** A formatted date and time followed by any zone suffix reads as that date and
      time with whatever zone the suffix reads as. */
  lemma ParseDateTimeOfParts(d: Date, t: Time, z: string)
    requires ValidDate(d) && ValidTime(t)
    requires z == [] || z[0] != '.'
    ensures ParseDateTime(FormatDate(d) + "T" + FormatTime(t) + z)
         == match ParseZone(z)
            case Some(tz) => Some(DateTime(d, t, tz))
            case None => None
  {
    var ds := FormatDate(d);
    var ts := FormatTime(t);
    var s := ds + "T" + ts + z;
    var n := if |s| >= 26 && s[19] == '.' then 15 else 8;
    assert n == |ts| by {
      if t.micro == 0 {
        assert |s| >= 26 ==> s[19] == z[0];
      } else {
        assert s[19] == ts[8];
      }
    }
    assert s[..10] == ds;
    assert s[11..11 + n] == ts;
    assert s[11 + n..] == z;
    ParseFormatDate(d);
    ParseFormatTime(t);
  }

  /** Reading what `isoformat()` wrote gives the same date and time, with the zone
      it reads back as. */
  lemma ParseFormatDateTime(dt: DateTime)
    requires ValidDateTime(dt)
    ensures ParseDateTime(FormatDateTime(dt)) == Some(dt.(tz := Reread(dt.tz)))
  {
    var z := ZoneSuffix(dt.tz);
    ParseDateTimeOfParts(dt.date, dt.time, z);
    if dt.tz.Aware? {
      ParseFormatOffset(dt.tz.offset);
    }
  }

  /** The texts of the documented examples. */
  lemma DocumentedTexts()
    ensures FormatDate(Date(2016, 12, 12)) == "2016-12-12"
    ensures FormatTime(Time(12, 12, 12, 0)) == "12:12:12"
    ensures FormatOffset(-300) == "-05:00"
    ensures FormatDate(Date(1991, 10, 1)) == "1991-10-01"
    ensures FormatTime(Time(12, 0, 0, 0)) == "12:00:00"
  {
    ExampleDate2016();
    ExampleTime2016();
    ExampleOffset();
    ExampleDate1991();
    ExampleTime1991();
  }

  lemma ExampleDate2016()
    ensures FormatDate(Date(2016, 12, 12)) == "2016-12-12"
  {
    ExampleFields();
  }

  lemma ExampleTime2016()
    ensures FormatTime(Time(12, 12, 12, 0)) == "12:12:12"
  {
    ExampleFields();
  }

  lemma ExampleOffset()
    ensures FormatOffset(-300) == "-05:00"
  {
    ExampleFields();
  }

  lemma ExampleDate1991()
    ensures FormatDate(Date(1991, 10, 1)) == "1991-10-01"
  {
    ExampleFields();
  }

  lemma ExampleTime1991()
    ensures FormatTime(Time(12, 0, 0, 0)) == "12:00:00"
  {
    ExampleFields();
  }

  /** The documented value with a numeric offset, as `isoformat()` writes it. */
  lemma ExampleStamp2016()
    ensures ValidDateTime(DateTime(Date(2016, 12, 12), Time(12, 12, 12, 0), Aware(-300, None)))
    ensures FormatDateTime(DateTime(Date(2016, 12, 12), Time(12, 12, 12, 0), Aware(-300, None)))
         == "2016-12-12T12:12:12-05:00"
  {
    ExampleDate2016();
    ExampleTime2016();
    ExampleOffset();
    ExampleTexts();
  }

  /** The documented naive value, as `isoformat()` writes it. */
  lemma ExampleStamp1991()
    ensures ValidDateTime(DateTime(Date(1991, 10, 1), Time(12, 0, 0, 0), Naive))
    ensures FormatDateTime(DateTime(Date(1991, 10, 1), Time(12, 0, 0, 0), Naive)) == "1991-10-01T12:00:00"
  {
    ExampleDate1991();
    ExampleTime1991();
    ExampleTexts();
  }

  /** The documented texts, put together from their parts. */
  lemma ExampleTexts()
    ensures "2016-12-12" + "T" + "12:12:12" + "-05:00" == "2016-12-12T12:12:12-05:00"
    ensures "1991-10-01" + "T" + "12:00:00" + "" == "1991-10-01T12:00:00"
  {
  }

  /** The padded fields of the documented examples. */
  lemma ExampleFields()
    ensures Pad(2016, 4) == "2016" && Pad(1991, 4) == "1991"
    ensures Pad(12, 2) == "12" && Pad(10, 2) == "10" && Pad(5, 2) == "05"
    ensures Pad(1, 2) == "01" && Pad(0, 2) == "00"
  {
    Year2016();
    Year1991();
    TwoDigitFields();
  }

  lemma TwoDigitFields()
    ensures Pad(12, 2) == "12" && Pad(10, 2) == "10" && Pad(5, 2) == "05"
    ensures Pad(1, 2) == "01" && Pad(0, 2) == "00"
  {
    assert Pad(1, 1) == "1" && Pad(0, 1) == "0";
  }

  lemma Year2016()
    ensures Pad(2016, 4) == "2016"
  {
    assert Pad(20, 2) == "20";
    assert Pad(201, 3) == "201";
  }

  lemma Year1991()
    ensures Pad(1991, 4) == "1991"
  {
    assert Pad(19, 2) == "19";
    assert Pad(199, 3) == "199";
  }
}
