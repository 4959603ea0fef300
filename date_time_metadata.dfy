/** Reading a date and time out of a metadata tree (`get_date_time_from_metadata`)
    and writing one into it (`update_date_time_in_metadata`). The time-zone
    database and its `localize` step are foreign and come in as a parameter. */
module DateTimeMetadata {
  import opened Wrappers
  import opened Text
  import opened Calendar
  import opened Iso
  import opened Metadata

  // ---------------------------------------------------------------- writing

  /** What the writer is handed: an ISO 8601 string, a `datetime.datetime`, or
      anything else (a `numpy.datetime64`, a `datetime.date`, ...). */
  datatype StampInput = StringInput(text: string) | DateTimeInput(value: DateTime) | OtherInput

  /** A `datetime.datetime` always holds a valid date and time. */
  predicate WellFormed(v: StampInput) {
    v.DateTimeInput? ==> ValidDateTime(v.value)
  }

  /** The three strings the writer stores; `zone` None when it determined no zone. */
  datatype Fields = Fields(date: string, time: string, zone: Option<string>)

  /** `sp[1]` of an input without `T` raises IndexError; an input that is neither a
      string nor a datetime leaves `date` unbound and raises UnboundLocalError. */
  datatype WriteError = IndexError | UnboundDate

  /** Python truthiness of an optional string. */
  predicate Truthy(v: Option<string>) {
    v.Some? && v.value != ""
  }

  /** The text of a string input before its first `T`. */
  function DatePart(s: string): string {
    Split(s, 'T')[0]
  }

  /** The text of a string input between its first and second `T`. */
  function TimePart(s: string): string
    requires 'T' in s
  {
    Split(s, 'T')[1]
  }

  /** The time part cut at its first `+`, or failing that its first `-`: the time and,
      when a sign was found, the sign followed by the text up to the next one, a `+`
      taking precedence. ZoneSplitAtFirstSign locates the pieces exactly. */
  function ZoneSplit(p: string): (r: (string, Option<string>))
    ensures r.1.None? <==> '+' !in p && '-' !in p
    ensures r.1.None? ==> r.0 == p
    ensures r.1.Some? ==> |r.1.value| >= 1 && r.1.value[0] == (if '+' in p then '+' else '-')
  {
    if '+' in p then
      var q := Split(p, '+');
      (q[0], Some("+" + q[1]))
    else if '-' in p then
      var q := Split(p, '-');
      (q[0], Some("-" + q[1]))
    else (p, None)
  }

  /** The strings `update_date_time_in_metadata` stores for an input. */
  function WriteFields(v: StampInput): (r: Result<Fields, WriteError>)
    requires WellFormed(v)
    // a string without `T` raises IndexError, an input of another type UnboundLocalError
    ensures r.Success? <==> v.DateTimeInput? || (v.StringInput? && 'T' in v.text)
    ensures r.Failure? ==> r.error == (if v.OtherInput? then UnboundDate else IndexError)
  {
    match v
    case StringInput(s) =>
      if 'T' !in s then Failure(IndexError)
      else
        var (time, zone) := ZoneSplit(TimePart(s));
        Success(Fields(DatePart(s), time, zone))
    case DateTimeInput(dt) =>
      var name := TzName(dt.tz);
      Success(Fields(FormatDate(dt.date), FormatTime(dt.time), if Truthy(name) then name else None))
    case OtherInput => Failure(UnboundDate)
  }

  /** The tree after a successful write: date and time set, the zone set when one was
      determined and removed otherwise, every other leaf as before. */
  function Updated(m: map<string, string>, f: Fields): (r: map<string, string>)
    ensures DatePath in r && r[DatePath] == f.date
    ensures TimePath in r && r[TimePath] == f.time
    ensures ZonePath in r <==> Truthy(f.zone)
    ensures Truthy(f.zone) ==> r[ZonePath] == f.zone.value
    ensures forall k :: k != DatePath && k != TimePath && k != ZonePath ==>
      (k in r <==> k in m) && (k in m ==> r[k] == m[k])
  {
    var m1 := m[DatePath := f.date][TimePath := f.time];
    if Truthy(f.zone) then m1[ZonePath := f.zone.value] else m1 - {ZonePath}
  }

  /** `update_date_time_in_metadata(dt, metadata)`: updates the tree in place and returns it. */
  method UpdateDateTimeInMetadata(v: StampInput, metadata: Tree) returns (r: Result<Tree, WriteError>)
    requires WellFormed(v)
    modifies metadata
    ensures WriteFields(v).Failure? ==>
      r == Failure(WriteFields(v).error) && metadata.items == old(metadata.items)
    ensures WriteFields(v).Success? ==>
      r == Success(metadata) && metadata.items == Updated(old(metadata.items), WriteFields(v).value)
  {
    var fields := WriteFields(v);
    if fields.Failure? {
      return Failure(fields.error);
    }
    var f := fields.value;
    metadata.SetItem(DatePath, f.date);
    metadata.SetItem(TimePath, f.time);
    if Truthy(f.zone) {
      metadata.SetItem(ZonePath, f.zone.value);
    }
    if metadata.HasItem(ZonePath) && !Truthy(f.zone) {
      metadata.DelItem(ZonePath);
    }
    return Success(metadata);
  }

  /** A string is written only when it holds a `T`; the date is the text before the
      first `T` and the time part the text between the first and the second `T`. */
  lemma WriteSplitsAtFirstT(s: string)
    ensures WriteFields(StringInput(s)).Success? <==> 'T' in s
    ensures WriteFields(StringInput(s)).Success? ==>
      var d := WriteFields(StringInput(s)).value.date;
      var p := TimePart(s);
      && d == DatePart(s)
      && d + "T" + p <= s
      && 'T' !in d && 'T' !in p
      && (|d| + 1 + |p| == |s| || s[|d| + 1 + |p|] == 'T')
  {
    if 'T' in s {
      SplitFirstTwo(s, 'T');
    }
  }

  /** A string's stored date, `T`, time and zone are, in that order, a prefix of it. */
  lemma WrittenPrefix(s: string)
    requires 'T' in s
    ensures var f := WriteFields(StringInput(s)).value;
      f.date + "T" + f.time + (if f.zone.Some? then f.zone.value else "") <= s
  {
    var q := Split(s, 'T');
    SplitFirstTwo(s, 'T');
    assert q[0] + "T" + q[1] <= s;
    var r := ZoneSplit(q[1]);
    var rest := r.0 + (if r.1.Some? then r.1.value else "");
    ZoneSplitAtFirstSign(q[1]);
    assert rest <= q[1];
    PrefixThrough(s, q[0] + "T", q[1], rest);
    assert q[0] + "T" + r.0 + (if r.1.Some? then r.1.value else "") == (q[0] + "T") + rest;
  }

  /** A `datetime`'s stored date and time read back as its own, and its zone name is
      stored exactly when it is a non-empty one. */
  lemma WrittenDateTime(dt: DateTime)
    requires ValidDateTime(dt)
    ensures var f := WriteFields(DateTimeInput(dt)).value;
      && ParseDate(f.date) == Some(dt.date)
      && ParseTime(f.time) == Some(dt.time)
      && (f.zone.Some? <==> Truthy(TzName(dt.tz)))
      && (f.zone.Some? ==> f.zone == TzName(dt.tz))
  {
    ParseFormatDate(dt.date);
    ParseFormatTime(dt.time);
  }

  /** The zone rule on a time part: a `+` wins over a `-`; the stored time is the text
      before the first sign and the zone the sign followed by the text up to the next
      occurrence of that sign; with no sign there is no zone. */
  lemma ZoneSplitAtFirstSign(p: string)
    ensures var (time, zone) := ZoneSplit(p);
      && (zone.None? <==> '+' !in p && '-' !in p)
      && (zone.None? ==> time == p)
      && (zone.Some? ==>
            var sign := if '+' in p then '+' else '-';
            && |zone.value| >= 1 && zone.value[0] == sign
            && time + zone.value <= p
            && sign !in time && sign !in zone.value[1..]
            && (|time| + |zone.value| == |p| || p[|time| + |zone.value|] == sign))
  {
    if '+' in p {
      SignSplit(p, '+');
    } else if '-' in p {
      SignSplit(p, '-');
    }
  }

  lemma SignSplit(p: string, sign: char)
    requires sign in p
    ensures var q := Split(p, sign);
      && q[0] + ([sign] + q[1]) <= p
      && sign !in q[0] && sign !in ([sign] + q[1])[1..]
      && (|q[0]| + |[sign] + q[1]| == |p| || p[|q[0]| + |[sign] + q[1]|] == sign)
  {
    var q := Split(p, sign);
    SplitFirstTwo(p, sign);
    var z := [sign] + q[1];
    assert z[1..] == q[1];
    assert q[0] + z == q[0] + [sign] + q[1];
    assert |q[0]| + |z| == |q[0]| + 1 + |q[1]|;
  }

  /** The example of the helper's documentation. */
  lemma WriteExample()
    ensures WriteFields(StringInput("2016-12-12T12:12:12-05:00"))
         == Success(Fields("2016-12-12", "12:12:12", Some("-05:00")))
  {
    var dt := DateTime(Date(2016, 12, 12), Time(12, 12, 12, 0), Aware(-300, None));
    ExampleStamp2016();
    WriteFormatted(dt);
    DocumentedTexts();
  }

  /** Writing what `isoformat()` produces stores its date, its time and its offset. */
  lemma WriteFormatted(dt: DateTime)
    requires ValidDateTime(dt)
    ensures WriteFields(StringInput(FormatDateTime(dt)))
         == Success(Fields(FormatDate(dt.date), FormatTime(dt.time),
                           if dt.tz.Naive? then None else Some(FormatOffset(dt.tz.offset))))
  {
    var z := ZoneSuffix(dt.tz);
    if dt.tz.Aware? {
      assert z == [z[0]] + z[1..];
    }
    WriteOfParts(FormatDate(dt.date), FormatTime(dt.time), z);
  }

  /** A date, `T`, a time and a zone suffix, none of them holding the separators of
      the pieces after it, are stored as those pieces. */
  lemma WriteOfParts(ds: string, ts: string, z: string)
    requires 'T' !in ds && 'T' !in ts && '+' !in ts && '-' !in ts
    requires z == [] || ((z[0] == '+' || z[0] == '-') && 'T' !in z[1..] && '+' !in z[1..] && '-' !in z[1..])
    ensures WriteFields(StringInput(ds + "T" + ts + z)) == Success(Fields(ds, ts, if z == [] then None else Some(z)))
  {
    assert 'T' !in ts + z by {
      if z != [] {
        assert z == [z[0]] + z[1..];
      }
    }
    DateTimeParts(ds, ts + z);
    assert ds + "T" + ts + z == ds + "T" + (ts + z);
    ZoneParts(ts, z);
  }

  /** Text without `T` on either side of one `T` splits back into those sides. */
  lemma DateTimeParts(ds: string, rest: string)
    requires 'T' !in ds && 'T' !in rest
    ensures 'T' in ds + "T" + rest
    ensures DatePart(ds + "T" + rest) == ds && TimePart(ds + "T" + rest) == rest
  {
    assert ds + "T" + rest == Join([ds, rest], 'T');
    SplitJoin([ds, rest], 'T');
  }

  /** A sign-free time followed by a zone suffix splits back into the two. */
  lemma ZoneParts(ts: string, z: string)
    requires '+' !in ts && '-' !in ts
    requires z == [] || ((z[0] == '+' || z[0] == '-') && '+' !in z[1..] && '-' !in z[1..])
    ensures ZoneSplit(ts + z) == (ts, if z == [] then None else Some(z))
  {
    if z != [] {
      var sign := z[0];
      var body := z[1..];
      assert z == [sign] + body;
      assert ts + z == Join([ts, body], sign);
      SplitJoin([ts, body], sign);
      if sign == '-' {
        assert '+' !in ts + z;
      }
    } else {
      assert ts + z == ts;
    }
  }

  /** A second write decides every date/time leaf by itself: in particular a
      zone-less value written after a zone-bearing one leaves no stale zone. */
  lemma WriteOverwrites(m: map<string, string>, f1: Fields, f2: Fields)
    ensures Updated(Updated(m, f1), f2) == Updated(m, f2)
  {
    var a := Updated(Updated(m, f1), f2);
    var b := Updated(m, f2);
    assert a.Keys == b.Keys;
  }

  // ---------------------------------------------------------------- reading

  /** What `pytz` answers for a zone name: whether it knows it and, for a known
      zone, the offset and abbreviation `localize` attaches at a wall-clock time. */
  datatype ZoneDb = ZoneDb(known: string -> bool, at: (string, DateTime) -> LocalZone)

  /** What happens to a zone name `pytz` does not know: the source hands the string to
      `pytz.FixedOffset`, which expects a number of minutes and raises; the evidently
      intended behaviour re-reads the date and time with the zone text appended. */
  datatype Fallback = PytzFixedOffset | ReparseWithOffset

  /** A date only, a time only, or a date and time. */
  datatype Value = DateOnly(date: Date) | TimeOnly(time: Time) | Stamp(dt: DateTime)

  /** The result for `formatting` 'ISO', 'datetime' and 'datetime64' respectively;
      the last is the text handed to `numpy.datetime64`. */
  datatype Output = IsoText(text: string) | NativeValue(value: Value) | Datetime64Text(text: string)

  datatype ReadError =
    | NotCanonical(text: string)      // text outside the forms the reader models
    | NotNaive                        // `localize` of a value that already has a zone
    | OffsetNotMinutes                // `pytz.FixedOffset` given a string
    | UnboundResult(formatting: string) // `res` never assigned

  predicate ValidValue(v: Value) {
    match v
    case DateOnly(d) => ValidDate(d)
    case TimeOnly(t) => ValidTime(t)
    case Stamp(dt) => ValidDateTime(dt)
  }

  function Field(m: map<string, string>, path: string): Option<string> {
    if path in m then Some(m[path]) else None
  }

  /** `'%s' % v`. */
  function PyStr(v: Option<string>): string {
    if v.None? then "None" else v.value
  }

  /** Attaching the stored zone to a parsed date and time. */
  function Localize(dt: DateTime, date: string, time: string, zone: string,
                    db: ZoneDb, fallback: Fallback): (r: Result<DateTime, ReadError>)
    requires ValidDateTime(dt)
    ensures r.Success? ==> ValidDateTime(r.value)
    // a known name: `localize` refuses an aware value and otherwise attaches the
    // zone's offset and abbreviation at that wall clock, leaving date and time alone
    ensures db.known(zone) ==> (r.Success? <==> dt.tz.Naive?)
    ensures db.known(zone) && r.Success? ==>
      var z := db.at(zone, dt);
      && r.value.date == dt.date && r.value.time == dt.time
      && r.value.tz == Aware(z.offset, Some(z.abbreviation))
    // an unknown name: `pytz.FixedOffset` raises, or the corrected reader re-reads
    ensures !db.known(zone) && fallback == PytzFixedOffset ==> r == Failure(OffsetNotMinutes)
    ensures !db.known(zone) && fallback == ReparseWithOffset ==>
      (r.Success? <==> ParseDateTime(date + "T" + time + zone).Some?)
  {
    if db.known(zone) then
      if dt.tz.Aware? then Failure(NotNaive)
      else
        var z := db.at(zone, dt);
        Success(dt.(tz := Aware(z.offset, Some(z.abbreviation))))
    else
      match fallback
      case PytzFixedOffset => Failure(OffsetNotMinutes)
      case ReparseWithOffset =>
        var text := date + "T" + time + zone;
        match ParseDateTime(text)
        case Some(again) => Success(again)
        case None => Failure(NotCanonical(text))
  }

  /** The value read from the tree before it is formatted; None when neither a date
      nor a time is present. */
  function ReadValue(m: map<string, string>, db: ZoneDb, fallback: Fallback): (r: Result<Option<Value>, ReadError>)
    ensures r.Success? && r.value.Some? ==> ValidValue(r.value.value)
    // a present field the parser rejects raises, whichever branch reads it
    ensures (Truthy(Field(m, DatePath)) && Truthy(Field(m, TimePath)) &&
             ParseDateTime(m[DatePath] + "T" + m[TimePath]).None?) ==>
      r == Failure(NotCanonical(m[DatePath] + "T" + m[TimePath]))
    ensures !Truthy(Field(m, DatePath)) && Truthy(Field(m, TimePath)) && ParseTime(m[TimePath]).None? ==>
      r == Failure(NotCanonical(m[TimePath]))
    ensures Truthy(Field(m, DatePath)) && !Truthy(Field(m, TimePath)) && ParseDate(m[DatePath]).None? ==>
      r == Failure(NotCanonical(m[DatePath]))
    ensures r == Success(None) <==> !Truthy(Field(m, DatePath)) && !Truthy(Field(m, TimePath))
    ensures r.Success? && r.value.Some? ==>
      var v := r.value.value;
      var date := Truthy(Field(m, DatePath));
      var time := Truthy(Field(m, TimePath));
      && (v.Stamp? <==> date && time)
      && (v.TimeOnly? <==> !date && time)
      && (v.DateOnly? <==> date && !time)
  {
    var date := Field(m, DatePath);
    var time := Field(m, TimePath);
    if Truthy(date) && Truthy(time) then
      var text := date.value + "T" + time.value;
      match ParseDateTime(text)
      case None => Failure(NotCanonical(text))
      case Some(dt) =>
        if ZonePath in m then
          match Localize(dt, date.value, time.value, m[ZonePath], db, fallback)
          case Success(zoned) => Success(Some(Stamp(zoned)))
          case Failure(e) => Failure(e)
        else Success(Some(Stamp(dt)))
    else if Truthy(time) then
      match ParseTime(time.value)
      case Some(t) => Success(Some(TimeOnly(t)))
      case None => Failure(NotCanonical(time.value))
    else if Truthy(date) then
      match ParseDate(date.value)
      case Some(d) => Success(Some(DateOnly(d)))
      case None => Failure(NotCanonical(date.value))
    else Success(None)
  }

  /** `isoformat()` of a value: the text reads back as the value, a date-time with the
      zone its suffix reads back as. */
  function IsoOf(v: Value): (s: string)
    requires ValidValue(v)
    ensures v.DateOnly? ==> ParseDate(s) == Some(v.date)
    ensures v.TimeOnly? ==> ParseTime(s) == Some(v.time)
    ensures v.Stamp? ==> ParseDateTime(s) == Some(v.dt.(tz := Reread(v.dt.tz)))
  {
    match v
    case DateOnly(d) => ParseFormatDate(d); FormatDate(d)
    case TimeOnly(t) => ParseFormatTime(t); FormatTime(t)
    case Stamp(dt) => ParseFormatDateTime(dt); FormatDateTime(dt)
  }

  /** The value in the requested formatting: 'ISO' text that reads back as the value,
      the value itself, or the raw stored strings; any other formatting leaves the
      result unbound. */
  function Render(v: Value, formatting: string, m: map<string, string>): (r: Result<Output, ReadError>)
    requires ValidValue(v)
    ensures r.Success? <==> formatting in ["ISO", "datetime", "datetime64"]
    ensures r.Failure? ==> r.error == UnboundResult(formatting)
    ensures formatting == "ISO" ==> r.Success? && r.value == IsoText(IsoOf(v))
    ensures formatting == "datetime" ==> r.Success? && r.value == NativeValue(v)
    ensures formatting == "datetime64" ==>
      r == Success(Datetime64Text(PyStr(Field(m, DatePath)) + "T" + PyStr(Field(m, TimePath))))
  {
    if formatting == "ISO" then Success(IsoText(IsoOf(v)))
    else if formatting == "datetime" then Success(NativeValue(v))
    else if formatting == "datetime64" then
      Success(Datetime64Text(PyStr(Field(m, DatePath)) + "T" + PyStr(Field(m, TimePath))))
    else Failure(UnboundResult(formatting))
  }

  function Read(m: map<string, string>, formatting: string, db: ZoneDb, fallback: Fallback): (r: Result<Option<Output>, ReadError>)
    // no result exactly when neither a date nor a time is present (or both are empty)
    ensures r == Success(None) <==> !Truthy(Field(m, DatePath)) && !Truthy(Field(m, TimePath))
    // a present field the parser rejects raises, whatever the formatting
    ensures (Truthy(Field(m, DatePath)) && Truthy(Field(m, TimePath)) &&
             ParseDateTime(m[DatePath] + "T" + m[TimePath]).None?) ==>
      r == Failure(NotCanonical(m[DatePath] + "T" + m[TimePath]))
    ensures !Truthy(Field(m, DatePath)) && Truthy(Field(m, TimePath)) && ParseTime(m[TimePath]).None? ==>
      r == Failure(NotCanonical(m[TimePath]))
    ensures Truthy(Field(m, DatePath)) && !Truthy(Field(m, TimePath)) && ParseDate(m[DatePath]).None? ==>
      r == Failure(NotCanonical(m[DatePath]))
    // a value that was found, read with an unknown formatting, hits the unbound result
    ensures formatting != "ISO" && formatting != "datetime" && formatting != "datetime64" ==>
      r == Success(None) || r.Failure?
    // 'datetime64' is built from the raw strings: the zone never enters it
    ensures formatting == "datetime64" && r.Success? && r.value.Some? ==>
      r.value.value == Datetime64Text(PyStr(Field(m, DatePath)) + "T" + PyStr(Field(m, TimePath)))
    // the kind of value follows which fields are present
    ensures formatting == "datetime" && r.Success? && r.value.Some? ==>
      r.value.value.NativeValue? && r.value.value.value.Stamp?
        == (Truthy(Field(m, DatePath)) && Truthy(Field(m, TimePath)))
  {
    match ReadValue(m, db, fallback)
    case Failure(e) => Failure(e)
    case Success(None) => Success(None)
    case Success(Some(v)) =>
      match Render(v, formatting, m)
      case Success(out) => Success(Some(out))
      case Failure(e) => Failure(e)
  }

  /** `get_date_time_from_metadata(metadata, formatting)` as written: it differs from
      the corrected reader only by raising in `pytz.FixedOffset`, and only when a zone
      leaf holds a name the database does not know. */
  function GetDateTimeFromMetadataAsWritten(m: map<string, string>, formatting: string, db: ZoneDb): (r: Result<Option<Output>, ReadError>)
    ensures r == GetDateTimeFromMetadata(m, formatting, db) || r == Failure(OffsetNotMinutes)
    ensures ZonePath !in m || db.known(m[ZonePath]) ==> r == GetDateTimeFromMetadata(m, formatting, db)
  {
    FallbacksDiffer(m, db);
    Read(m, formatting, db, PytzFixedOffset)
  }

  /** `get_date_time_from_metadata(metadata, formatting)` with an unknown zone name
      read as the offset text it is: it never raises in `pytz.FixedOffset`. */
  function GetDateTimeFromMetadata(m: map<string, string>, formatting: string, db: ZoneDb): (r: Result<Option<Output>, ReadError>)
    ensures r != Failure(OffsetNotMinutes)
  {
    Read(m, formatting, db, ReparseWithOffset)
  }

  /** The two fallbacks read the same value, except that the one as written raises
      for a zone name the database does not know. */
  lemma FallbacksDiffer(m: map<string, string>, db: ZoneDb)
    ensures var a := ReadValue(m, db, PytzFixedOffset);
      && (a == ReadValue(m, db, ReparseWithOffset) || a == Failure(OffsetNotMinutes))
      && (ZonePath !in m || db.known(m[ZonePath]) ==> a == ReadValue(m, db, ReparseWithOffset))
  {
  }

  /** A canonical date and time without a stored zone read back as the ISO text
      `date + 'T' + time`, in both versions of the reader. */
  lemma ReadNaiveStamp(m: map<string, string>, d: Date, t: Time, db: ZoneDb, fallback: Fallback)
    requires ValidDate(d) && ValidTime(t)
    requires Field(m, DatePath) == Some(FormatDate(d)) && Field(m, TimePath) == Some(FormatTime(t))
    requires ZonePath !in m
    ensures Read(m, "ISO", db, fallback) == Success(Some(IsoText(FormatDate(d) + "T" + FormatTime(t))))
    ensures Read(m, "datetime", db, fallback) == Success(Some(NativeValue(Stamp(DateTime(d, t, Naive)))))
  {
    var text := FormatDate(d) + "T" + FormatTime(t);
    ParseDateTimeOfParts(d, t, "");
    assert text + "" == text;
    var dt := DateTime(d, t, Naive);
    assert ParseDateTime(text) == Some(dt);
    assert ReadValue(m, db, fallback) == Success(Some(Stamp(dt)));
    assert IsoOf(Stamp(dt)) == text;
  }

  /** The example of the reader's documentation: a tree holding that date and time
      (whatever else it holds) and no zone. */
  lemma ReadExample(m: map<string, string>, db: ZoneDb)
    requires Field(m, DatePath) == Some("1991-10-01") && Field(m, TimePath) == Some("12:00:00")
    requires ZonePath !in m
    ensures GetDateTimeFromMetadata(m, "ISO", db) == Success(Some(IsoText("1991-10-01T12:00:00")))
  {
    var d, t := Date(1991, 10, 1), Time(12, 0, 0, 0);
    DocumentedTexts();
    ReadNaiveStamp(m, d, t, db, ReparseWithOffset);
    ExampleStamp1991();
    assert FormatDateTime(DateTime(d, t, Naive)) == FormatDate(d) + "T" + FormatTime(t);
  }

  /** A canonical date and time with a stored zone name the database does not know:
      the corrected reader re-reads the date and time with the zone text appended,
      the reader as written fails whatever the formatting. */
  lemma ReadUnknownZone(m: map<string, string>, d: Date, t: Time, db: ZoneDb, formatting: string)
    requires ValidDate(d) && ValidTime(t)
    requires Field(m, DatePath) == Some(FormatDate(d)) && Field(m, TimePath) == Some(FormatTime(t))
    requires ZonePath in m && !db.known(m[ZonePath])
    requires ParseZone(m[ZonePath]).Some? && (m[ZonePath] == [] || m[ZonePath][0] != '.')
    ensures var dt := DateTime(d, t, ParseZone(m[ZonePath]).value);
      && Read(m, "ISO", db, ReparseWithOffset) == Success(Some(IsoText(FormatDateTime(dt))))
      && Read(m, "datetime", db, ReparseWithOffset) == Success(Some(NativeValue(Stamp(dt))))
      && Read(m, formatting, db, PytzFixedOffset) == Failure(OffsetNotMinutes)
  {
    UnknownZoneValue(m, d, t, db, ReparseWithOffset);
    UnknownZoneValue(m, d, t, db, PytzFixedOffset);
  }

  /** The value behind ReadUnknownZone, before formatting. */
  lemma UnknownZoneValue(m: map<string, string>, d: Date, t: Time, db: ZoneDb, fallback: Fallback)
    requires ValidDate(d) && ValidTime(t)
    requires Field(m, DatePath) == Some(FormatDate(d)) && Field(m, TimePath) == Some(FormatTime(t))
    requires ZonePath in m && !db.known(m[ZonePath])
    requires ParseZone(m[ZonePath]).Some? && (m[ZonePath] == [] || m[ZonePath][0] != '.')
    ensures ReadValue(m, db, fallback)
         == if fallback == PytzFixedOffset then Failure(OffsetNotMinutes)
            else Success(Some(Stamp(DateTime(d, t, ParseZone(m[ZonePath]).value))))
  {
    var z := m[ZonePath];
    var text := FormatDate(d) + "T" + FormatTime(t);
    ParseDateTimeOfParts(d, t, "");
    assert text + "" == text;
    ParseDateTimeOfParts(d, t, z);
  }

  /** Reading back what a write of `isoformat()` text stored gives the same text and
      the same date and time, provided the zone database does not claim the offset
      text as a zone name. */
  lemma WriteThenRead(m: map<string, string>, dt: DateTime, db: ZoneDb)
    requires ValidDateTime(dt)
    requires dt.tz.Aware? ==> !db.known(FormatOffset(dt.tz.offset))
    ensures var written := Updated(m, WriteFields(StringInput(FormatDateTime(dt))).value);
      && GetDateTimeFromMetadata(written, "ISO", db) == Success(Some(IsoText(FormatDateTime(dt))))
      && GetDateTimeFromMetadata(written, "datetime", db)
         == Success(Some(NativeValue(Stamp(dt.(tz := Reread(dt.tz))))))
  {
    if dt.tz.Aware? {
      WriteThenReadOffset(m, dt, db);
    } else {
      WriteFormatted(dt);
      var written := Updated(m, WriteFields(StringInput(FormatDateTime(dt))).value);
      ReadNaiveStamp(written, dt.date, dt.time, db, ReparseWithOffset);
    }
  }

  /** WriteThenRead for a value with an offset. */
  lemma WriteThenReadOffset(m: map<string, string>, dt: DateTime, db: ZoneDb)
    requires ValidDateTime(dt) && dt.tz.Aware?
    requires !db.known(FormatOffset(dt.tz.offset))
    ensures var written := Updated(m, WriteFields(StringInput(FormatDateTime(dt))).value);
      && GetDateTimeFromMetadata(written, "ISO", db) == Success(Some(IsoText(FormatDateTime(dt))))
      && GetDateTimeFromMetadata(written, "datetime", db)
         == Success(Some(NativeValue(Stamp(dt.(tz := Reread(dt.tz))))))
  {
    WriteFormatted(dt);
    var written := Updated(m, WriteFields(StringInput(FormatDateTime(dt))).value);
    var z := FormatOffset(dt.tz.offset);
    assert written[ZonePath] == z;
    ParseFormatOffset(dt.tz.offset);
    ReadUnknownZone(written, dt.date, dt.time, db, "ISO");
  }

  /** As written, the same round trip fails for every offset-bearing value: the
      offset text is no zone name, and `pytz.FixedOffset` rejects a string. */
  lemma WriteThenReadAsWrittenFails(m: map<string, string>, dt: DateTime, db: ZoneDb, formatting: string)
    requires ValidDateTime(dt) && dt.tz.Aware?
    requires !db.known(FormatOffset(dt.tz.offset))
    ensures var written := Updated(m, WriteFields(StringInput(FormatDateTime(dt))).value);
      GetDateTimeFromMetadataAsWritten(written, formatting, db) == Failure(OffsetNotMinutes)
  {
    WriteFormatted(dt);
    var written := Updated(m, WriteFields(StringInput(FormatDateTime(dt))).value);
    ParseFormatOffset(dt.tz.offset);
    ReadUnknownZone(written, dt.date, dt.time, db, formatting);
  }

  /** The documented example string, written and read back by the source as written. */
  lemma ExampleRoundTripAsWrittenFails(m: map<string, string>, db: ZoneDb)
    requires !db.known("-05:00")
    ensures var written := Updated(m, Fields("2016-12-12", "12:12:12", Some("-05:00")));
      && GetDateTimeFromMetadataAsWritten(written, "ISO", db) == Failure(OffsetNotMinutes)
      && GetDateTimeFromMetadata(written, "ISO", db) == Success(Some(IsoText("2016-12-12T12:12:12-05:00")))
  {
    var dt := DateTime(Date(2016, 12, 12), Time(12, 12, 12, 0), Aware(-300, None));
    ExampleStamp2016();
    ExampleOffset();
    WriteExample();
    WriteThenReadAsWrittenFails(m, dt, db, "ISO");
    WriteThenRead(m, dt, db);
  }

  /** Writing a naive `datetime` and reading it back as 'datetime' gives it back. */
  lemma WriteNaiveDateTimeThenRead(m: map<string, string>, dt: DateTime, db: ZoneDb, fallback: Fallback)
    requires ValidDateTime(dt) && dt.tz.Naive?
    ensures var written := Updated(m, WriteFields(DateTimeInput(dt)).value);
      Read(written, "datetime", db, fallback) == Success(Some(NativeValue(Stamp(dt))))
  {
    var written := Updated(m, WriteFields(DateTimeInput(dt)).value);
    ReadNaiveStamp(written, dt.date, dt.time, db, fallback);
  }

  /** A canonical date and time with a stored zone name the database knows: the value
      is that wall clock with the zone's offset and abbreviation attached by
      `localize`, in both versions of the reader. */
  lemma ReadKnownZone(m: map<string, string>, d: Date, t: Time, db: ZoneDb, fallback: Fallback)
    requires ValidDate(d) && ValidTime(t)
    requires Field(m, DatePath) == Some(FormatDate(d)) && Field(m, TimePath) == Some(FormatTime(t))
    requires ZonePath in m && db.known(m[ZonePath])
    ensures var z := db.at(m[ZonePath], DateTime(d, t, Naive));
      var dt := DateTime(d, t, Aware(z.offset, Some(z.abbreviation)));
      && Read(m, "ISO", db, fallback) == Success(Some(IsoText(FormatDateTime(dt))))
      && Read(m, "datetime", db, fallback) == Success(Some(NativeValue(Stamp(dt))))
  {
    var naive := DateTime(d, t, Naive);
    var z := db.at(m[ZonePath], naive);
    var dt := DateTime(d, t, Aware(z.offset, Some(z.abbreviation)));
    var text := FormatDate(d) + "T" + FormatTime(t);
    ParseDateTimeOfParts(d, t, "");
    assert text + "" == text;
    assert ParseDateTime(text) == Some(naive);
    assert Localize(naive, FormatDate(d), FormatTime(t), m[ZonePath], db, fallback) == Success(dt);
    assert ReadValue(m, db, fallback) == Success(Some(Stamp(dt)));
  }

  /** Writing a `datetime` whose zone has a name the database knows, and which the
      database places at that same offset under that same name, reads it back. */
  lemma WriteZonedDateTimeThenRead(m: map<string, string>, dt: DateTime, db: ZoneDb, fallback: Fallback)
    requires ValidDateTime(dt) && dt.tz.Aware? && Truthy(dt.tz.name)
    requires db.known(dt.tz.name.value)
    requires db.at(dt.tz.name.value, dt.(tz := Naive)) == LocalZone(dt.tz.offset, dt.tz.name.value)
    ensures var written := Updated(m, WriteFields(DateTimeInput(dt)).value);
      Read(written, "datetime", db, fallback) == Success(Some(NativeValue(Stamp(dt))))
  {
    var written := Updated(m, WriteFields(DateTimeInput(dt)).value);
    assert written[ZonePath] == dt.tz.name.value;
    assert dt.(tz := Naive) == DateTime(dt.date, dt.time, Naive);
    ReadKnownZone(written, dt.date, dt.time, db, fallback);
  }

  /** A canonical time without a date reads back as that time of day. */
  lemma ReadTimeOnly(m: map<string, string>, t: Time, db: ZoneDb, fallback: Fallback)
    requires ValidTime(t)
    requires !Truthy(Field(m, DatePath)) && Field(m, TimePath) == Some(FormatTime(t))
    ensures Read(m, "ISO", db, fallback) == Success(Some(IsoText(FormatTime(t))))
    ensures Read(m, "datetime", db, fallback) == Success(Some(NativeValue(TimeOnly(t))))
  {
    ParseFormatTime(t);
    assert ReadValue(m, db, fallback) == Success(Some(TimeOnly(t)));
  }

  /** A canonical date without a time reads back as that date. */
  lemma ReadDateOnly(m: map<string, string>, d: Date, db: ZoneDb, fallback: Fallback)
    requires ValidDate(d)
    requires Field(m, DatePath) == Some(FormatDate(d)) && !Truthy(Field(m, TimePath))
    ensures Read(m, "ISO", db, fallback) == Success(Some(IsoText(FormatDate(d))))
    ensures Read(m, "datetime", db, fallback) == Success(Some(NativeValue(DateOnly(d))))
  {
    ParseFormatDate(d);
    assert ReadValue(m, db, fallback) == Success(Some(DateOnly(d)));
  }
}
