/**
 * The free-time label stored for a registered user (login.py, lines 45-48).
 *
 * The registration form offers a range slider over 0..48 hours; a value above 24
 * means "that hour on the next day". The chosen pair becomes the label
 * "HH:00 - HH:00", where an end above 24 is shown as `end - 24` followed by
 * " (next day)".
 */
module FreeTimeLabel {
  import opened Results
  import opened Text

  const NextDaySuffix := " (next day)"

  /** The slider's range: both ends lie in 0..48. */
  predicate IsSliderHour(h: int) {
    0 <= h <= 48
  }

  /** The label built from the slider pair `(start, end)`. */
  function Label(start: int, end: int): (freeTime: string)
    requires IsSliderHour(start) && IsSliderHour(end)
    ensures HasSuffix(freeTime, NextDaySuffix) <==> end > 24
    ensures |freeTime| == if end > 24 then 24 else 13
  {
    if end > 24 then
      Pad2(start) + ":00 - " + Pad2(end - 24) + ":00" + NextDaySuffix
    else
      var freeTime := Pad2(start) + ":00 - " + Pad2(end) + ":00";
      assert freeTime[12] != NextDaySuffix[10];
      freeTime
  }

  /** What a reader sees in a label: the two hours shown and whether the next-day mark is present. */
  datatype Shown = Shown(startHour: int, endHour: int, nextDay: bool)

  /**
   * Reads a label the way a person does: two zero-padded hours in the
   * "HH:00 - HH:00" frame, optionally followed by the next-day mark.
   */
  function ParseLabel(freeTime: string): Option<Shown> {
    var nextDay := HasSuffix(freeTime, NextDaySuffix);
    var body := if nextDay then freeTime[..|freeTime| - |NextDaySuffix|] else freeTime;
    if |body| == 13 && AllDigits(body[..2]) && body[2..8] == ":00 - "
       && AllDigits(body[8..10]) && body[10..] == ":00"
    then Some(Shown(DigitsValue(body[..2]), DigitsValue(body[8..10]), nextDay))
    else None
  }

  /** The hour shown as the end of the window: the end itself, or `end - 24` past midnight. */
  function ShownEnd(end: int): int {
    if end > 24 then end - 24 else end
  }

  /**
   * Every label reads back as the slider's start, the shown end, and the
   * next-day mark exactly when `end > 24`; both hours are two-digit fields.
   */
  lemma LabelRoundTrip(start: int, end: int)
    requires IsSliderHour(start) && IsSliderHour(end)
    ensures ParseLabel(Label(start, end)) == Some(Shown(start, ShownEnd(end), end > 24))
  {
    var freeTime := Label(start, end);
    var body := Pad2(start) + ":00 - " + Pad2(ShownEnd(end)) + ":00";
    if end > 24 {
      assert freeTime[..|freeTime| - |NextDaySuffix|] == body;
    }
    assert body[..2] == Pad2(start);
    assert body[8..10] == Pad2(ShownEnd(end));
  }

  /**
   * Conversely, a label that reads back as a window the slider can produce is
   * exactly the label of that slider pair.
   */
  lemma LabelFromShown(freeTime: string, w: Shown)
    requires ParseLabel(freeTime) == Some(w)
    requires w.startHour <= 48
    requires if w.nextDay then 1 <= w.endHour <= 24 else w.endHour <= 24
    ensures freeTime == Label(w.startHour, if w.nextDay then w.endHour + 24 else w.endHour)
  {
    var body := if w.nextDay then freeTime[..|freeTime| - |NextDaySuffix|] else freeTime;
    Pad2OfDigits(body[..2]);
    Pad2OfDigits(body[8..10]);
    assert body == body[..2] + ":00 - " + body[8..10] + ":00";
    if w.nextDay {
      assert freeTime == body + NextDaySuffix;
    }
  }

  /** Two different slider pairs always get different labels. */
  lemma LabelInjective(s1: int, e1: int, s2: int, e2: int)
    requires IsSliderHour(s1) && IsSliderHour(e1) && IsSliderHour(s2) && IsSliderHour(e2)
    requires Label(s1, e1) == Label(s2, e2)
    ensures s1 == s2 && e1 == e2
  {
    LabelRoundTrip(s1, e1);
    LabelRoundTrip(s2, e2);
  }
}
