/** The same-day filter applied to each post's `created_at`: parsing the
    `'%a %b %d %H:%M:%S %z %Y'` timestamp and comparing its local calendar
    date with today's. The clock and the local time zone are parameters. */
module Timestamp {
  import opened Wrappers
  import opened Text
  import opened Calendar

  /** The C-locale abbreviations `%a` and `%b` accept, in lower case. */
  const WEEKDAY_NAMES: seq<string> := ["mon", "tue", "wed", "thu", "fri", "sat", "sun"]
  const MONTH_NAMES: seq<string> :=
    ["jan", "feb", "mar", "apr", "may", "jun", "jul", "aug", "sep", "oct", "nov", "dec"]

  /** A parsed timestamp: the wall-clock reading and its UTC offset in
      seconds east of Greenwich (Python's `timezone(timedelta(...))`). */
  datatype Stamp = Stamp(local: DateTime, offset: int)
  {
    predicate Valid() {
      local.Valid() && -SECONDS_PER_DAY < offset < SECONDS_PER_DAY
    }
  }

  /** What the environment supplies: the current instant in seconds since
      the Unix epoch, and the machine's UTC offset in seconds. */
  datatype Clock = Clock(now: int, localOffset: int)

  datatype ParseError = Unparseable(text: string)

  function Lower(c: char): char {
    if 'A' <= c <= 'Z' then (c as int + 32) as char else c
  }

  function Upper(c: char): char {
    if 'a' <= c <= 'z' then (c as int - 32) as char else c
  }

  function LowerAll(s: string): string {
    seq(|s|, i requires 0 <= i < |s| => Lower(s[i]))
  }

  /** Position of the first occurrence of `key` in `names`. */
  function IndexOf(names: seq<string>, key: string): (r: Option<nat>)
    ensures r.Some? ==> r.value < |names| && names[r.value] == key
    ensures r.Some? ==> forall j :: 0 <= j < r.value ==> names[j] != key
    ensures r.None? <==> key !in names
  {
    if names == [] then None
    else if names[0] == key then Some(0)
    else match IndexOf(names[1..], key)
         case None => None
         case Some(i) => Some(i + 1)
  }

  /** Position of the name `s` spells, ignoring ASCII case as `strptime`
      does. */
  function LookupName(names: seq<string>, s: string): Option<nat> {
    IndexOf(names, LowerAll(s))
  }

  /** A lower-case name as it is usually written, with a capital initial. */
  function Capitalized(name: string): (r: string)
    ensures |r| == |name|
  {
    if name == "" then "" else [Upper(name[0])] + name[1..]
  }

  /** The nine text fields of a timestamp and the sign of its offset. */
  datatype Fields = Fields(weekday: string, month: string, day: string,
                           hour: string, minute: string, second: string,
                           sign: char, offHours: string, offMinutes: string,
                           year: string)
  {
    predicate WellFormed() {
      && |weekday| == 3 && |month| == 3 && |day| == 2
      && |hour| == 2 && |minute| == 2 && |second| == 2
      && (sign == '+' || sign == '-') && |offHours| == 2 && |offMinutes| == 2
      && |year| == 4
    }
  }

  /** The layout `Www Mmm DD HH:MM:SS ±HHMM YYYY`, where the offset may also
      be written `±HH:MM`: separators and sign in place, fields cut out. */
  function Split(s: string): (r: Option<Fields>)
    ensures r.Some? ==> r.value.WellFormed()
  {
    if |s| != 30 && |s| != 31 then None
    else
      var colon := |s| == 31;
      var y0 := if colon then 27 else 26;
      if && s[3] == ' ' && s[7] == ' ' && s[10] == ' '
         && s[13] == ':' && s[16] == ':' && s[19] == ' '
         && (s[20] == '+' || s[20] == '-')
         && (colon ==> s[23] == ':')
         && s[y0 - 1] == ' '
      then
        Some(Fields(s[0..3], s[4..7], s[8..10], s[11..13], s[14..16], s[17..19],
                    s[20], s[21..23], if colon then s[24..26] else s[23..25],
                    s[y0..y0 + 4]))
      else None
  }

  /** The date and time fields as `strptime` reads them and the `datetime`
      constructor accepts them. */
  function ConvertDateTime(f: Fields): (r: Option<DateTime>)
    ensures r.Some? ==> r.value.Valid()
  {
    var month := LookupName(MONTH_NAMES, f.month);
    var day := DecimalValue(f.day);
    var hour := DecimalValue(f.hour);
    var minute := DecimalValue(f.minute);
    var second := DecimalValue(f.second);
    var year := DecimalValue(f.year);
    if || month.None? || day.None? || hour.None? || minute.None?
       || second.None? || year.None?
    then None
    else
      var dt := DateTime(year.value, month.value + 1, day.value,
                         hour.value, minute.value, second.value);
      if dt.Valid() then Some(dt) else None
  }

  /** The `%z` offset in seconds: minutes below 60, and the whole offset
      under 24 hours as `timezone` requires. */
  function ConvertOffset(sign: char, offHours: string, offMinutes: string): (r: Option<int>)
    ensures r.Some? ==> -SECONDS_PER_DAY < r.value < SECONDS_PER_DAY
  {
    var hours := DecimalValue(offHours);
    var minutes := DecimalValue(offMinutes);
    if hours.None? || minutes.None? || minutes.value >= 60 then None
    else
      var magnitude := hours.value * 3600 + minutes.value * 60;
      if magnitude >= SECONDS_PER_DAY then None
      else Some(if sign == '-' then -magnitude else magnitude)
  }

  /** The fields as a timestamp. The weekday must be a weekday name but,
      as in `strptime` when the date is complete, is not checked against
      the date. */
  function Convert(f: Fields): (r: Option<Stamp>)
    ensures r.Some? ==> r.value.Valid()
  {
    if LookupName(WEEKDAY_NAMES, f.weekday).None? then None
    else match (ConvertDateTime(f), ConvertOffset(f.sign, f.offHours, f.offMinutes))
      case (Some(dt), Some(offset)) => Some(Stamp(dt, offset))
      case _ => None
  }

  /** `strptime(s, '%a %b %d %H:%M:%S %z %Y')`, `None` where it raises. */
  function Parse(s: string): (r: Option<Stamp>)
    ensures r.Some? ==> r.value.Valid()
  {
    match Split(s)
    case None => None
    case Some(f) => Convert(f)
  }

  /** Python's `date.weekday()`: Monday is 0. */
  function Weekday(dt: DateTime): (w: nat)
    requires dt.Valid()
    ensures w < 7
  {
    (Ordinal(dt.year, dt.month, dt.day) + 6) % 7
  }

  /** The layout `Split` cuts, put back together. */
  function Join(f: Fields, colon: bool): (s: string)
    requires f.WellFormed()
    ensures |s| == if colon then 31 else 30
  {
    f.weekday + " " + f.month + " " + f.day + " "
    + f.hour + ":" + f.minute + ":" + f.second + " "
    + [f.sign] + f.offHours + (if colon then ":" else "") + f.offMinutes
    + " " + f.year
  }

  /** The sign, hours and minutes of the canonical `%z` rendering. */
  function OffsetFields(offset: int): (r: (char, string, string))
    requires -SECONDS_PER_DAY < offset < SECONDS_PER_DAY
    ensures (r.0 == '+' || r.0 == '-') && |r.1| == 2 && |r.2| == 2
  {
    var magnitude := if offset < 0 then -offset else offset;
    (if offset < 0 then '-' else '+', Digits(magnitude / 3600, 2), Digits(magnitude % 3600 / 60, 2))
  }

  /** The fields of the canonical rendering of a timestamp. */
  function FieldsOf(st: Stamp): (f: Fields)
    requires st.Valid()
    ensures f.WellFormed()
  {
    var dt := st.local;
    var (sign, offHours, offMinutes) := OffsetFields(st.offset);
    Fields(Capitalized(WEEKDAY_NAMES[Weekday(dt)]),
           Capitalized(MONTH_NAMES[dt.month - 1]), Digits(dt.day, 2),
           Digits(dt.hour, 2), Digits(dt.minute, 2), Digits(dt.second, 2),
           sign, offHours, offMinutes, Digits(dt.year, 4))
  }

  /** The canonical rendering of a timestamp, with the offset written
      `±HHMM` or, when `colon`, `±HH:MM`. */
  function Format(st: Stamp, colon: bool): (s: string)
    requires st.Valid()
  {
    Join(FieldsOf(st), colon)
  }

  /** Seconds since the Unix epoch of the instant a timestamp denotes. */
  function Instant(st: Stamp): int
    requires st.Valid()
  {
    DayNumber(st.local) * SECONDS_PER_DAY + SecondOfDay(st.local) - st.offset
  }

  /** Days since 1970-01-01 of the local calendar date at instant `t`
      (floor division: Dafny's `/` on a positive divisor rounds down). */
  function LocalDay(t: int, localOffset: int): int {
    (t + localOffset) / SECONDS_PER_DAY
  }

  /** `is_today`: `false` for the empty string, an error for a string the
      grammar rejects, and otherwise whether the timestamp falls on the
      current local calendar date. */
  function IsToday(dateStr: string, clock: Clock): (r: Result<bool, ParseError>)
    ensures dateStr == "" ==> r == Ok(false)
    ensures r.Err? <==> dateStr != "" && Parse(dateStr).None?
    ensures Parse(dateStr).Some? ==> r == Ok(OnToday(Parse(dateStr).value, clock))
  {
    if dateStr == "" then Ok(false)
    else match Parse(dateStr)
      case None => Err(Unparseable(dateStr))
      case Some(st) => Ok(OnToday(st, clock))
  }

  /** Local midnight that starts the current day, as an instant. */
  function StartOfToday(clock: Clock): int {
    LocalDay(clock.now, clock.localOffset) * SECONDS_PER_DAY - clock.localOffset
  }

  lemma FloorDiv(x: int, q: int)
    ensures x / SECONDS_PER_DAY == q <==> q * SECONDS_PER_DAY <= x < q * SECONDS_PER_DAY + SECONDS_PER_DAY
  {
  }

  /** Whether a timestamp falls on the current local calendar date. This
      is a fixed calendar interval, not a rolling window: the instant lies
      in the 24 hours that start at the current local midnight. */
  function OnToday(st: Stamp, clock: Clock): (r: bool)
    requires st.Valid()
    ensures r <==> StartOfToday(clock) <= Instant(st) < StartOfToday(clock) + SECONDS_PER_DAY
  {
    FloorDiv(Instant(st) + clock.localOffset, LocalDay(clock.now, clock.localOffset));
    LocalDay(Instant(st), clock.localOffset) == LocalDay(clock.now, clock.localOffset)
  }

  /** A timestamp written in the machine's own zone is "today" exactly when
      the date written in it is today's local date. */
  lemma {:induction false} OnTodayInOwnZone(st: Stamp, clock: Clock)
    requires st.Valid() && st.offset == clock.localOffset
    ensures OnToday(st, clock) <==> DayNumber(st.local) == LocalDay(clock.now, clock.localOffset)
  {
    var day, second := DayNumber(st.local), SecondOfDay(st.local);
    assert Instant(st) + clock.localOffset == day * SECONDS_PER_DAY + second;
    FloorDiv(day * SECONDS_PER_DAY + second, day);
  }

  /** Each name in a table of distinct lower-case names is found at its
      own position, however it is capitalized. */
  lemma {:induction false} CapitalizedNameFound(names: seq<string>, i: nat)
    requires i < |names|
    requires forall j, k :: 0 <= j < k < |names| ==> names[j] != names[k]
    requires forall j :: 0 <= j < |names| ==> |names[j]| > 0 && 'a' <= names[j][0] <= 'z'
    requires forall j :: 0 <= j < |names| ==> LowerAll(names[j]) == names[j]
    ensures LookupName(names, Capitalized(names[i])) == Some(i)
  {
    var n := names[i];
    var c := Capitalized(n);
    assert LowerAll(c)[0] == n[0];
    forall k | 1 <= k < |n| ensures LowerAll(c)[k] == n[k] {
      assert LowerAll(n)[k] == n[k];
    }
    assert LowerAll(c) == n;
  }

  lemma NameTablesWellFormed()
    ensures forall j, k :: 0 <= j < k < |WEEKDAY_NAMES| ==> WEEKDAY_NAMES[j] != WEEKDAY_NAMES[k]
    ensures forall j :: 0 <= j < |WEEKDAY_NAMES| ==> |WEEKDAY_NAMES[j]| > 0 && 'a' <= WEEKDAY_NAMES[j][0] <= 'z'
    ensures forall j :: 0 <= j < |WEEKDAY_NAMES| ==> LowerAll(WEEKDAY_NAMES[j]) == WEEKDAY_NAMES[j]
    ensures forall j, k :: 0 <= j < k < |MONTH_NAMES| ==> MONTH_NAMES[j] != MONTH_NAMES[k]
    ensures forall j :: 0 <= j < |MONTH_NAMES| ==> |MONTH_NAMES[j]| > 0 && 'a' <= MONTH_NAMES[j][0] <= 'z'
    ensures forall j :: 0 <= j < |MONTH_NAMES| ==> LowerAll(MONTH_NAMES[j]) == MONTH_NAMES[j]
  {
  }

  lemma {:induction false} SplitJoin(f: Fields, colon: bool)
    requires f.WellFormed()
    ensures Split(Join(f, colon)) == Some(f)
  {
    var s := Join(f, colon);
    var head := f.weekday + " " + f.month + " " + f.day + " "
                + f.hour + ":" + f.minute + ":" + f.second + " ";
    var tail := [f.sign] + f.offHours + (if colon then ":" else "") + f.offMinutes
                + " " + f.year;
    assert s == head + tail;
    HeadFields(f, head);
    TailFields(f, colon, tail);
    var m0 := if colon then 4 else 3;
    SliceLeft(head, tail, 0, 3);
    SliceLeft(head, tail, 4, 7);
    SliceLeft(head, tail, 8, 10);
    SliceLeft(head, tail, 11, 13);
    SliceLeft(head, tail, 14, 16);
    SliceLeft(head, tail, 17, 19);
    SliceRight(head, tail, 21, 23);
    SliceRight(head, tail, 20 + m0, 22 + m0);
    SliceRight(head, tail, 23 + m0, 27 + m0);
  }

  lemma SliceLeft(a: string, b: string, i: nat, j: nat)
    requires i <= j <= |a|
    ensures (a + b)[i..j] == a[i..j]
  {
  }

  lemma SliceRight(a: string, b: string, i: nat, j: nat)
    requires |a| <= i <= j <= |a| + |b|
    ensures (a + b)[i..j] == b[i - |a|..j - |a|]
  {
  }

  lemma HeadFields(f: Fields, head: string)
    requires f.WellFormed()
    requires head == f.weekday + " " + f.month + " " + f.day + " "
                     + f.hour + ":" + f.minute + ":" + f.second + " "
    ensures |head| == 20
    ensures head[0..3] == f.weekday && head[3] == ' ' && head[4..7] == f.month && head[7] == ' '
    ensures head[8..10] == f.day && head[10] == ' ' && head[11..13] == f.hour && head[13] == ':'
    ensures head[14..16] == f.minute && head[16] == ':' && head[17..19] == f.second && head[19] == ' '
  {
    FieldAt(head, 0, f.weekday);
    FieldAt(head, 4, f.month);
    FieldAt(head, 8, f.day);
    FieldAt(head, 11, f.hour);
    FieldAt(head, 14, f.minute);
    FieldAt(head, 17, f.second);
  }

  /** A piece of `s` is determined by its characters. */
  lemma FieldAt(s: string, i: nat, piece: string)
    requires i + |piece| <= |s|
    requires forall j :: 0 <= j < |piece| ==> s[i + j] == piece[j]
    ensures s[i..i + |piece|] == piece
  {
  }

  lemma TailFields(f: Fields, colon: bool, tail: string)
    requires f.WellFormed()
    requires tail == [f.sign] + f.offHours + (if colon then ":" else "") + f.offMinutes
                     + " " + f.year
    ensures |tail| == if colon then 11 else 10
    ensures tail[0] == f.sign && tail[1..3] == f.offHours
    ensures colon ==> tail[3] == ':' && tail[4..6] == f.offMinutes && tail[6] == ' ' && tail[7..11] == f.year
    ensures !colon ==> tail[3..5] == f.offMinutes && tail[5] == ' ' && tail[6..10] == f.year
  {
    var m0 := if colon then 4 else 3;
    FieldAt(tail, 1, f.offHours);
    FieldAt(tail, m0, f.offMinutes);
    FieldAt(tail, m0 + 3, f.year);
  }

  lemma MonthNameFound(m: nat)
    requires m < |MONTH_NAMES|
    ensures LookupName(MONTH_NAMES, Capitalized(MONTH_NAMES[m])) == Some(m)
  {
    NameTablesWellFormed();
    CapitalizedNameFound(MONTH_NAMES, m);
  }

  lemma WeekdayNameFound(w: nat)
    requires w < |WEEKDAY_NAMES|
    ensures LookupName(WEEKDAY_NAMES, Capitalized(WEEKDAY_NAMES[w])) == Some(w)
  {
    NameTablesWellFormed();
    CapitalizedNameFound(WEEKDAY_NAMES, w);
  }

  /** The numeric fields of a valid date-time read back as written. */
  lemma DateTimeDigits(dt: DateTime)
    requires dt.Valid()
    ensures DecimalValue(Digits(dt.day, 2)) == Some(dt.day)
    ensures DecimalValue(Digits(dt.hour, 2)) == Some(dt.hour)
    ensures DecimalValue(Digits(dt.minute, 2)) == Some(dt.minute)
    ensures DecimalValue(Digits(dt.second, 2)) == Some(dt.second)
    ensures DecimalValue(Digits(dt.year, 4)) == Some(dt.year)
  {
    assert Pow10(2) == 100 && Pow10(4) == 10000;
    DecimalValueOfDigits(dt.day, 2);
    DecimalValueOfDigits(dt.hour, 2);
    DecimalValueOfDigits(dt.minute, 2);
    DecimalValueOfDigits(dt.second, 2);
    DecimalValueOfDigits(dt.year, 4);
  }

  lemma {:induction false} ConvertDateTimeOfFields(dt: DateTime, f: Fields)
    requires dt.Valid()
    requires f.month == Capitalized(MONTH_NAMES[dt.month - 1])
    requires f.day == Digits(dt.day, 2) && f.hour == Digits(dt.hour, 2)
    requires f.minute == Digits(dt.minute, 2) && f.second == Digits(dt.second, 2)
    requires f.year == Digits(dt.year, 4)
    ensures ConvertDateTime(f) == Some(dt)
  {
    MonthNameFound(dt.month - 1);
    DateTimeDigits(dt);
  }

  lemma HoursMinutes(magnitude: int)
    requires 0 <= magnitude < SECONDS_PER_DAY && magnitude % 60 == 0
    ensures magnitude / 3600 < 24 && magnitude % 3600 / 60 < 60
    ensures (magnitude / 3600) * 3600 + (magnitude % 3600 / 60) * 60 == magnitude
  {
    var h, r := magnitude / 3600, magnitude % 3600;
    var m := r / 60;
    assert magnitude == 60 * (60 * h + m) + r % 60;
    RemainderUnique(magnitude, 60 * h + m, r % 60);
  }

  lemma RemainderUnique(x: int, q: int, t: int)
    requires x == 60 * q + t && 0 <= t < 60
    ensures x % 60 == t
  {
  }

  lemma {:induction false} ConvertOffsetFields(offset: int)
    requires -SECONDS_PER_DAY < offset < SECONDS_PER_DAY && offset % 60 == 0
    ensures var (sign, offHours, offMinutes) := OffsetFields(offset);
            ConvertOffset(sign, offHours, offMinutes) == Some(offset)
  {
    var magnitude := if offset < 0 then -offset else offset;
    WholeMinutes(offset);
    HoursMinutes(magnitude);
    var h, m := magnitude / 3600, magnitude % 3600 / 60;
    assert h * 3600 + m * 60 == magnitude;
    assert OffsetFields(offset) == (if offset < 0 then '-' else '+', Digits(h, 2), Digits(m, 2));
    ConvertOffsetDigits(if offset < 0 then '-' else '+', h, m);
  }

  /** Two-digit hours and minutes read back as the offset they spell. */
  lemma ConvertOffsetDigits(sign: char, h: nat, m: nat)
    requires h < 24 && m < 60
    ensures ConvertOffset(sign, Digits(h, 2), Digits(m, 2))
            == Some(if sign == '-' then -(h * 3600 + m * 60) else h * 3600 + m * 60)
  {
    assert Pow10(2) == 100;
    DecimalValueOfDigits(h, 2);
    DecimalValueOfDigits(m, 2);
  }

  lemma WholeMinutes(offset: int)
    requires offset % 60 == 0
    ensures (if offset < 0 then -offset else offset) % 60 == 0
  {
    var q := offset / 60;
    assert offset == 60 * q;
    if offset < 0 {
      assert -offset == 60 * -q;
    }
  }

  lemma {:induction false} ConvertFieldsOf(st: Stamp)
    requires st.Valid() && st.offset % 60 == 0
    ensures Convert(FieldsOf(st)) == Some(st)
  {
    WeekdayNameFound(Weekday(st.local));
    ConvertDateTimeOfFields(st.local, FieldsOf(st));
    ConvertOffsetFields(st.offset);
  }

  /** Reading back a rendered timestamp gives the timestamp rendered, with
      either way of writing the offset. */
  lemma {:induction false} ParseFormat(st: Stamp, colon: bool)
    requires st.Valid() && st.offset % 60 == 0
    ensures Parse(Format(st, colon)) == Some(st)
  {
    SplitJoin(FieldsOf(st), colon);
    ConvertFieldsOf(st);
  }

  /** Any weekday name is accepted with any date: a timestamp whose weekday
      does not match its date parses as if it did. */
  lemma {:induction false} WeekdayNotChecked(st: Stamp, colon: bool, w: nat)
    requires st.Valid() && st.offset % 60 == 0 && w < 7
    ensures Parse(Join(FieldsOf(st).(weekday := Capitalized(WEEKDAY_NAMES[w])), colon)) == Some(st)
  {
    var f := FieldsOf(st).(weekday := Capitalized(WEEKDAY_NAMES[w]));
    SplitJoin(f, colon);
    ConvertAnyWeekday(st, w);
  }

  lemma ConvertAnyWeekday(st: Stamp, w: nat)
    requires st.Valid() && st.offset % 60 == 0 && w < 7
    ensures Convert(FieldsOf(st).(weekday := Capitalized(WEEKDAY_NAMES[w]))) == Some(st)
  {
    var f := FieldsOf(st).(weekday := Capitalized(WEEKDAY_NAMES[w]));
    WeekdayNameFound(w);
    ConvertDateTimeOfFields(st.local, f);
    ConvertOffsetFields(st.offset);
  }

  /** Two renderings of the same instant, in any two zones and either
      offset style, get the same answer. */
  lemma {:induction false} SameInstantSameAnswer(a: Stamp, colonA: bool, b: Stamp, colonB: bool, clock: Clock)
    requires a.Valid() && a.offset % 60 == 0
    requires b.Valid() && b.offset % 60 == 0
    requires Instant(a) == Instant(b)
    ensures IsToday(Format(a, colonA), clock) == IsToday(Format(b, colonB), clock)
  {
    ParseFormat(a, colonA);
    ParseFormat(b, colonB);
  }

  // ---------------------------------------------------------------------
  // Every accepted string is a rendering

  /** A string `Split` accepts is the layout put back together from the
      fields it cut. */
  lemma {:induction false} SplitJoinBack(s: string)
    requires Split(s).Some?
    ensures Join(Split(s).value, |s| == 31) == s
  {
    var f, colon := Split(s).value, |s| == 31;
    var y0 := if colon then 27 else 26;
    assert s[0..3] == s[..3];
    var p := f.weekday;
    PrefixExtend(s, p, 3, " ");
    p := p + " ";
    PrefixExtend(s, p, 4, f.month);
    p := p + f.month;
    PrefixExtend(s, p, 7, " ");
    p := p + " ";
    PrefixExtend(s, p, 8, f.day);
    p := p + f.day;
    PrefixExtend(s, p, 10, " ");
    p := p + " ";
    PrefixExtend(s, p, 11, f.hour);
    p := p + f.hour;
    PrefixExtend(s, p, 13, ":");
    p := p + ":";
    PrefixExtend(s, p, 14, f.minute);
    p := p + f.minute;
    PrefixExtend(s, p, 16, ":");
    p := p + ":";
    PrefixExtend(s, p, 17, f.second);
    p := p + f.second;
    PrefixExtend(s, p, 19, " ");
    p := p + " ";
    PrefixExtend(s, p, 20, [f.sign]);
    p := p + [f.sign];
    PrefixExtend(s, p, 21, f.offHours);
    p := p + f.offHours;
    var sep := if colon then ":" else "";
    PrefixExtend(s, p, 23, sep);
    p := p + sep;
    PrefixExtend(s, p, 23 + |sep|, f.offMinutes);
    p := p + f.offMinutes;
    PrefixExtend(s, p, y0 - 1, " ");
    p := p + " ";
    PrefixExtend(s, p, y0, f.year);
    p := p + f.year;
    assert s[..|s|] == s;
  }

  /** The date and time fields of an accepted string are the zero-padded
      digits of the date-time read, and the month is its name in some
      capitalization. */
  lemma {:induction false} DateTimeFieldsOfConvert(f: Fields)
    requires f.WellFormed() && ConvertDateTime(f).Some?
    ensures var dt := ConvertDateTime(f).value;
            && f.day == Digits(dt.day, 2) && f.hour == Digits(dt.hour, 2)
            && f.minute == Digits(dt.minute, 2) && f.second == Digits(dt.second, 2)
            && f.year == Digits(dt.year, 4)
            && LowerAll(f.month) == MONTH_NAMES[dt.month - 1]
  {
    DigitsOfDecimalValue(f.day);
    DigitsOfDecimalValue(f.hour);
    DigitsOfDecimalValue(f.minute);
    DigitsOfDecimalValue(f.second);
    DigitsOfDecimalValue(f.year);
  }

  lemma SplitSeconds(h: nat, m: nat)
    requires m < 60
    ensures (h * 3600 + m * 60) / 3600 == h && (h * 3600 + m * 60) % 3600 / 60 == m
  {
  }

  /** The offset fields of an accepted string are the canonical ones of the
      offset read; the sign is too unless the offset is zero. */
  lemma {:induction false} OffsetFieldsOfConvert(sign: char, offHours: string, offMinutes: string)
    requires |offHours| == 2 && |offMinutes| == 2 && (sign == '+' || sign == '-')
    requires ConvertOffset(sign, offHours, offMinutes).Some?
    ensures var offset := ConvertOffset(sign, offHours, offMinutes).value;
            && OffsetFields(offset).1 == offHours && OffsetFields(offset).2 == offMinutes
            && (offset != 0 ==> OffsetFields(offset).0 == sign)
  {
    var h, m := DecimalValue(offHours).value, DecimalValue(offMinutes).value;
    var magnitude: int := h * 3600 + m * 60;
    var offset := ConvertOffset(sign, offHours, offMinutes).value;
    assert offset == if sign == '-' then -magnitude else magnitude;
    assert (if offset < 0 then -offset else offset) == magnitude;
    SplitSeconds(h, m);
    assert OffsetFields(offset).1 == Digits(h, 2) && OffsetFields(offset).2 == Digits(m, 2);
    DigitsOfDecimalValue(offHours);
    DigitsOfDecimalValue(offMinutes);
  }

  /** The converse of `ParseFormat`: a string that parses is the rendering
      of what it parses to, except for the capitalization of the month
      name, the weekday name (any one, in any capitalization), and the sign
      of a zero offset. */
  lemma {:induction false} ParsedIsRendering(s: string)
    requires Parse(s).Some?
    ensures Split(s).Some?
    ensures var st, f := Parse(s).value, Split(s).value;
            && s == Join(FieldsOf(st).(weekday := f.weekday, month := f.month, sign := f.sign), |s| == 31)
            && LowerAll(f.weekday) in WEEKDAY_NAMES
            && LowerAll(f.month) == MONTH_NAMES[st.local.month - 1]
            && (st.offset != 0 ==> f.sign == FieldsOf(st).sign)
  {
    var st, f := Parse(s).value, Split(s).value;
    SplitJoinBack(s);
    DateTimeFieldsOfConvert(f);
    OffsetFieldsOfConvert(f.sign, f.offHours, f.offMinutes);
    assert FieldsOf(st).(weekday := f.weekday, month := f.month, sign := f.sign) == f;
  }
}
