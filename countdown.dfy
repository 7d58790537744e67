/** The event countdown (public/js/countdown.js): each update shows the time
    left until the page's deadline as " hh:mm:ss", or "00:00:00 - TIME UP"
    once it has passed. The clock reading and `parseInt` are inputs; the
    once-a-second scheduling is not part of this model. */
module Countdown {
  import opened Common
  import opened Text

  /** What the script finds in the page: the two elements, and the
      `data-deadline` attribute of the container (None when absent). */
  datatype Dom = Dom(hasContainer: bool, hasTimer: bool, deadlineAttr: Option<string>)

  datatype Render =
    | NothingRendered
    | Shown(text: string, reload: bool)

  const HourMs: nat := 1000 * 60 * 60
  const MinuteMs: nat := 1000 * 60

  /** Whole hours, minutes below an hour and seconds below a minute in a
      positive number of milliseconds. */
  function Hours(diff: nat): nat { diff / HourMs }
  function Minutes(diff: nat): nat { diff % HourMs / MinuteMs }
  function Seconds(diff: nat): nat { diff % MinuteMs / 1000 }

  /** The fields never overflow into each other, and together they are the
      time left, rounded down to a whole second. */
  lemma ClockArithmetic(diff: nat)
    ensures Minutes(diff) < 60 && Seconds(diff) < 60
    ensures var t := Hours(diff) * 3600000 + Minutes(diff) * 60000 + Seconds(diff) * 1000;
      t <= diff < t + 1000
  {
    var h, rest := diff / HourMs, diff % HourMs;
    assert diff == h * HourMs + rest;
    var m, rest2 := rest / MinuteMs, rest % MinuteMs;
    assert rest == m * MinuteMs + rest2;
    assert diff % MinuteMs == rest2 by {
      assert diff == (h * 60 + m) * MinuteMs + rest2;
    }
  }

  /** The text shown while time is left. */
  function ClockText(diff: nat): string
  {
    " " + Pad2(Hours(diff)) + ":" + Pad2(Minutes(diff)) + ":" + Pad2(Seconds(diff))
  }

  /** The three fields of a clock text, read from its end: hours after the
      leading space, then two-digit minutes, then two-digit seconds. */
  function HoursField(text: string): string requires |text| >= 7 { text[1..|text| - 6] }
  function MinutesField(text: string): string requires |text| >= 7 { text[|text| - 5..|text| - 3] }
  function SecondsField(text: string): string requires |text| >= 7 { text[|text| - 2..] }

  lemma {:induction false} ClockTextShape(diff: nat)
    ensures var text := ClockText(diff);
      && |text| >= 9 && text[0] == ' ' && text[|text| - 6] == ':' && text[|text| - 3] == ':'
      && HoursField(text) == Pad2(Hours(diff))
      && MinutesField(text) == Pad2(Minutes(diff))
      && SecondsField(text) == Pad2(Seconds(diff))
  {
    ClockArithmetic(diff);
    var p, q, r := Pad2(Hours(diff)), Pad2(Minutes(diff)), Pad2(Seconds(diff));
    var head := " " + p;
    var a := head + ":" + q;
    var text := a + ":" + r;
    assert ClockText(diff) == text;
    FieldsOf(a, r);
    FieldsOf(head, q);
    assert text[..|text| - 3] == a;
    assert text[|text| - 5..|text| - 3] == a[|a| - 2..];
    assert text[1..|text| - 6] == a[..|a| - 3][1..];
  }

  /** A clock text reads back as the hours, minutes and seconds left, the
      minutes and seconds each exactly two digits wide. */
  lemma ClockTextRoundTrip(diff: nat)
    ensures var text := ClockText(diff);
      && |text| >= 9 && text[0] == ' ' && text[|text| - 6] == ':' && text[|text| - 3] == ':'
      && AllDigits(HoursField(text)) && AllDigits(MinutesField(text)) && AllDigits(SecondsField(text))
      && |HoursField(text)| >= 2
    ensures var text := ClockText(diff);
      && DigitsValue(HoursField(text)) == Hours(diff)
      && DigitsValue(MinutesField(text)) == Minutes(diff) < 60
      && DigitsValue(SecondsField(text)) == Seconds(diff) < 60
  {
    ClockTextShape(diff);
    ClockArithmetic(diff);
    Pad2Value(Hours(diff));
    Pad2Value(Minutes(diff));
    Pad2Value(Seconds(diff));
  }

  /** Hours are padded to a minimum width only: from 100 hours on the field
      is the plain decimal number, wider than two digits. */
  lemma LongCountdownsWidenHours(diff: nat)
    requires diff >= 100 * HourMs
    ensures |HoursField(ClockText(diff))| > 2
    ensures HoursField(ClockText(diff)) == NatToString(Hours(diff))
  {
    ClockTextShape(diff);
    HundredHours(diff);
    var h := Hours(diff);
    assert NatToString(h) == NatToString(h / 10) + [DigitChar(h % 10)];
  }

  lemma HundredHours(diff: nat)
    requires diff >= 100 * HourMs
    ensures Hours(diff) >= 100
  {
    var h, rest := diff / HourMs, diff % HourMs;
    assert diff == h * HourMs + rest && rest < HourMs;
  }

  /** One call of `updateTimer`, which the DOMContentLoaded handler makes
      first: `parseInt` parses the attribute (None for NaN), `now` is the
      clock in milliseconds and `path` the location's path name. */
  function Update(dom: Dom, parseInt: string -> Option<int>, now: int, path: string): (r: Render)
    ensures r == NothingRendered <==>
      !dom.hasContainer || !dom.hasTimer || dom.deadlineAttr.None? || dom.deadlineAttr == Some("")
    ensures r.Shown? ==> r == Tick(parseInt(dom.deadlineAttr.value), now, path)
  {
    if !dom.hasContainer || !dom.hasTimer then NothingRendered
    else if dom.deadlineAttr.None? || dom.deadlineAttr.value == "" then NothingRendered
    else Tick(parseInt(dom.deadlineAttr.value), now, path)
  }

  /** What an update shows for the parsed deadline: NaN fields for a
      deadline that is not a number, TIME UP (and a reload away from the egg
      master page) once it has passed, and the time left otherwise. */
  function Tick(deadline: Option<int>, now: int, path: string): (r: Render)
    ensures r.Shown?
    ensures deadline.None? ==> r == Shown(" NaN:NaN:NaN", false)
    ensures deadline.Some? && deadline.value - now <= 0 ==> r == Shown("00:00:00 - TIME UP", path != "/egg-master")
    ensures deadline.Some? && deadline.value - now > 0 ==> !r.reload && r.text == ClockText(deadline.value - now)
  {
    if deadline.None? then Shown(" NaN:NaN:NaN", false)
    else if deadline.value - now <= 0 then Shown("00:00:00 - TIME UP", path != "/egg-master")
    else Shown(ClockText(deadline.value - now), false)
  }
}
