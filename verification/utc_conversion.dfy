/**
 * `convert_to_utc` (login.py, lines 56-61): reads hours out of a stored
 * free-time label and turns them into UTC hours of the day.
 *
 * The user's timezone is an integer hour offset `offset` (the zone is UTC+offset);
 * the timezone database and the current date it anchors to are not modelled.
 */
module UtcConversion {
  import opened Results
  import opened Text
  import opened FreeTimeLabel

  /** Both failures raise `ValueError` in the source. */
  datatype ConvertError =
    | MalformedFreeTime          // a field is not a number, or there are not exactly two
    | HourOutOfRange(hour: int)  // `datetime.replace(hour=...)` accepts only 0..23

  /**
   * The parse at line 57, literally: the text before the first " - " is split
   * at ':' and each piece is read as an integer, and there must be exactly two
   * pieces. For a label "HH:00 - ..." those are the start hour and the start's
   * minute field; the end of the window is never looked at.
   */
  function ParseHours(freeTime: string): Option<(int, int)> {
    var fields := Split(Split(freeTime, " - ")[0], ":");
    if |fields| != 2 then None
    else
      var first := ParseInt(Split(fields[0], ":")[0]);
      var second := ParseInt(Split(fields[1], ":")[0]);
      if first.None? || second.None? then None
      else Some((first.value, second.value))
  }

  /**
   * The UTC hour of the day at which local hour `local` of zone UTC+`offset`
   * falls: going back from UTC by the offset gives the local hour again.
   */
  function UtcHour(local: int, offset: int): (utc: int)
    requires 0 <= local < 24
    ensures 0 <= utc < 24
    ensures (utc + offset) % 24 == local
  {
    (local - offset) % 24
  }

  /** No other hour of the day converts back to `local`: the UTC hour is unique. */
  lemma UtcHourUnique(local: int, offset: int, utc: int)
    requires 0 <= local < 24 && 0 <= utc < 24
    requires (utc + offset) % 24 == local
    ensures utc == UtcHour(local, offset)
  {
  }

  /**
   * `convert_to_utc`: both parsed values must be valid hours of the day
   * (`datetime.replace` raises otherwise); each is then moved to UTC.
   */
  function ConvertToUtc(freeTime: string, offset: int): (r: Result<(int, int), ConvertError>)
    ensures r.Ok? ==> 0 <= r.value.0 < 24 && 0 <= r.value.1 < 24
    ensures r.Ok? <==> (ParseHours(freeTime).Some?
                        && 0 <= ParseHours(freeTime).value.0 < 24
                        && 0 <= ParseHours(freeTime).value.1 < 24)
    ensures r.Ok? ==> r.value == (UtcHour(ParseHours(freeTime).value.0, offset),
                                  UtcHour(ParseHours(freeTime).value.1, offset))
  {
    match ParseHours(freeTime)
    case None => Err(MalformedFreeTime)
    case Some((start, end)) =>
      if !(0 <= start < 24) then Err(HourOutOfRange(start))
      else if !(0 <= end < 24) then Err(HourOutOfRange(end))
      else Ok((UtcHour(start, offset), UtcHour(end, offset)))
  }

  /**
   * Reading a label back: the first value is the slider's start hour (the
   * round trip of the start), the second is always 0, the minute field,
   * whatever end the user chose.
   */
  lemma ParseHoursOfLabel(start: int, end: int)
    requires IsSliderHour(start) && IsSliderHour(end)
    ensures ParseHours(Label(start, end)) == Some((start, 0))
  {
    var hh := Pad2(start);
    FirstFieldOfLabel(start, end);
    StartFields(hh);
    SplitNone(hh, ":");
    SplitNone("00", ":");
    TwoDigitsValue("00");
  }

  /** The text before the first " - " of a label is its start time "HH:00". */
  lemma FirstFieldOfLabel(start: int, end: int)
    requires IsSliderHour(start) && IsSliderHour(end)
    ensures Split(Label(start, end), " - ")[0] == Pad2(start) + ":00"
  {
    var head := Pad2(start) + ":00";
    var tail := Pad2(ShownEnd(end)) + ":00" + (if end > 24 then NextDaySuffix else "");
    assert Label(start, end) == head + " - " + tail;
    SplitAfter(head, " - ", tail);
  }

  /** A start time "HH:00" splits at ':' into the hour and the minute field. */
  lemma StartFields(hh: string)
    requires |hh| == 2 && AllDigits(hh)
    ensures Split(hh + ":00", ":") == [hh, "00"]
  {
    assert hh + ":00" == hh + ":" + "00";
    SplitAfter(hh, ":", "00");
    SplitNone("00", ":");
  }

  /**
   * Converting a stored label: a start of 24 or more (the slider allows up to
   * 48) is rejected; otherwise the start becomes `(start - offset) mod 24` and
   * the "end" is local midnight in UTC, `(-offset) mod 24`, for every end.
   */
  lemma ConvertLabel(start: int, end: int, offset: int)
    requires IsSliderHour(start) && IsSliderHour(end)
    ensures start < 24 ==> ConvertToUtc(Label(start, end), offset) == Ok(((start - offset) % 24, (0 - offset) % 24))
    ensures start >= 24 ==> ConvertToUtc(Label(start, end), offset) == Err(HourOutOfRange(start))
  {
    ParseHoursOfLabel(start, end);
  }

  /** `ConvertLabel` for a start below 24, with the expected range named by the caller. */
  lemma ConvertLabelTo(start: int, end: int, offset: int, utc: (int, int))
    requires IsSliderHour(start) && IsSliderHour(end) && start < 24
    requires utc == ((start - offset) % 24, (0 - offset) % 24)
    ensures ConvertToUtc(Label(start, end), offset) == Ok(utc)
  {
    ConvertLabel(start, end, offset);
  }

  /** The end hour the user chose has no influence on the converted window. */
  lemma ConvertIgnoresEnd(start: int, end1: int, end2: int, offset: int)
    requires IsSliderHour(start) && IsSliderHour(end1) && IsSliderHour(end2)
    ensures ConvertToUtc(Label(start, end1), offset) == ConvertToUtc(Label(start, end2), offset)
  {
    ConvertLabel(start, end1, offset);
    ConvertLabel(start, end2, offset);
  }

  /**
   * A user in UTC+2 who picked 10 to 12, stored as "10:00 - 12:00": the start
   * becomes 8 UTC, and the end comes out as 22 UTC (local midnight), not 10.
   * The values are parameters fixed by the requires, because on literal
   * arguments the solver unfolds `Split` over the whole text and runs out of
   * resources.
   */
  lemma ConvertExample(start: int, end: int, offset: int)
    requires start == 10 && end == 12 && offset == 2
    ensures Label(start, end) == "10:00 - 12:00"
    ensures ConvertToUtc(Label(start, end), offset) == Ok((8, 22))
  {
    ConvertLabel(start, end, offset);
  }
}
