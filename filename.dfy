/** The name `record_live_stream` gives the recording:
    `{uid}-{%Y%m%d_%H%M%S}.mp4`, from the watched account's uid and the
    local time at which recording starts. */
module Filename {
  import opened Wrappers
  import opened Text
  import opened Calendar

  /** The watched account. */
  const UID := "1696708922"

  /** `strftime("%Y%m%d_%H%M%S")` of a local date-time. */
  function TimestampText(dt: DateTime): (s: string)
    requires dt.Valid()
    ensures |s| == 15 && s[8] == '_'
    ensures AllDigits(s[..8]) && AllDigits(s[9..])
  {
    var date := Digits(dt.year, 4) + Digits(dt.month, 2) + Digits(dt.day, 2);
    var time := Digits(dt.hour, 2) + Digits(dt.minute, 2) + Digits(dt.second, 2);
    assert AllDigits(date) && AllDigits(time);
    var s := date + "_" + time;
    assert s[..8] == date && s[9..] == time;
    s
  }

  /** The output file name: the uid, '-', the fifteen-character timestamp
      (eight digits, '_', six digits) and the `.mp4` extension. The
      timestamp reads back as the recording's start time. */
  function OutputFilename(dt: DateTime): (name: string)
    requires dt.Valid()
    ensures |name| == |UID| + 20
    ensures name[..|UID|] == UID && name[|UID|] == '-'
    ensures AllDigits(name[|UID| + 1..|UID| + 9]) && name[|UID| + 9] == '_'
    ensures AllDigits(name[|UID| + 10..|UID| + 16])
    ensures name[|UID| + 16..] == ".mp4"
    ensures ReadTimestamp(name[|UID| + 1..|UID| + 16]) == Some(dt)
  {
    var stamp := TimestampText(dt);
    var name := UID + "-" + stamp + ".mp4";
    assert name[|UID| + 1..|UID| + 9] == stamp[..8];
    assert name[|UID| + 10..|UID| + 16] == stamp[9..];
    assert name[|UID| + 1..|UID| + 16] == stamp;
    ReadTimestampText(dt);
    name
  }

  /** Reads a `%Y%m%d_%H%M%S` timestamp back into its components; `None`
      if the text is not eight digits, '_', six digits. */
  function ReadTimestamp(s: string): (r: Option<DateTime>)
    ensures r.Some? ==> |s| == 15 && s[8] == '_'
  {
    if |s| != 15 || s[8] != '_' then None
    else
      var year := DecimalValue(s[0..4]);
      var month := DecimalValue(s[4..6]);
      var day := DecimalValue(s[6..8]);
      var hour := DecimalValue(s[9..11]);
      var minute := DecimalValue(s[11..13]);
      var second := DecimalValue(s[13..15]);
      if || year.None? || month.None? || day.None? || hour.None?
         || minute.None? || second.None?
      then None
      else Some(DateTime(year.value, month.value, day.value,
                         hour.value, minute.value, second.value))
  }

  /** The timestamp in a file name gives back the time it was written from. */
  lemma {:induction false} ReadTimestampText(dt: DateTime)
    requires dt.Valid()
    ensures ReadTimestamp(TimestampText(dt)) == Some(dt)
  {
    var s := TimestampText(dt);
    assert s[0..4] == Digits(dt.year, 4);
    assert s[4..6] == Digits(dt.month, 2);
    assert s[6..8] == Digits(dt.day, 2);
    assert s[9..11] == Digits(dt.hour, 2);
    assert s[11..13] == Digits(dt.minute, 2);
    assert s[13..15] == Digits(dt.second, 2);
    DecimalValueOfDigits(dt.year, 4);
    DecimalValueOfDigits(dt.month, 2);
    DecimalValueOfDigits(dt.day, 2);
    DecimalValueOfDigits(dt.hour, 2);
    DecimalValueOfDigits(dt.minute, 2);
    DecimalValueOfDigits(dt.second, 2);
  }

  /** Recordings started at different seconds get different file names. */
  lemma {:induction false} DistinctTimesDistinctNames(a: DateTime, b: DateTime)
    requires a.Valid() && b.Valid() && a != b
    ensures OutputFilename(a) != OutputFilename(b)
  {
    ReadTimestampText(a);
    ReadTimestampText(b);
    assert OutputFilename(a)[|UID| + 1..|UID| + 16] == TimestampText(a);
    assert OutputFilename(b)[|UID| + 1..|UID| + 16] == TimestampText(b);
  }
}
