/** The cook timer of a recipe page (public/timer.js).

    The page's state is the elapsed whole seconds, whether the one-second
    interval is active ("running"), and whether the "burned" pop-up is shown.
    Four user or scheduler actions change it: start, pause, stop and the tick
    that the active interval fires once a second. Each action is given here
    as a pure step function from the old state to the new state plus the
    events it emits (outcome reports to the stats endpoint, the alarm, the
    burn level and the pan animation commands sent to the animation frame),
    and the class `Timer` at the end holds
    the same state in fields and is specified by those step functions. */
module CookTimer {
  import opened Text

  datatype Outcome = Cooked | Burned

  /** Effects the page has on the world outside its own variables. */
  datatype Event =
    | Reported(outcome: Outcome)   // a POST of the outcome to the stats endpoint
    | AlarmPlayed                  // the alarm sound is rewound and played
    | AlarmStopped                 // the alarm sound is paused and rewound
    | BurnLevelSet(level: real)    // the animation is told the burn level
    | PanStarted                   // the pan animation is set to speed 300 and started
    | PanStopped                   // the pan animation is stopped

  /** What the page reads from the timer area's data attributes when it loads:
      the winning and losing times in minutes, the recipe id (empty when the
      attribute is missing or empty) and whether an animation frame with its
      hooks (burn level, pan speed, pan start and stop) is present. */
  datatype Config = Config(cookMinutes: real, loseMinutes: real, recipeId: string, animated: bool)
  {
    /** The progress computation divides by the winning time and by the gap
        between the two times; the page never checks either, so the model
        asks for both to be positive. */
    predicate Valid() { 0.0 < cookMinutes < loseMinutes }
  }

  datatype State = State(seconds: nat, running: bool, losePopup: bool)

  /** The state after an action and the events the action emitted, in order. */
  datatype Step = Step(state: State, events: seq<Event>)

  /** Burn level at which the animation shows the egg as cooked. */
  const HappyLevel: real := 0.3

  // ---------------------------------------------------------------------
  // Pure pieces: progress, display, buttons, classification
  // ---------------------------------------------------------------------

  /** The burn level for the animation: a linear ramp from 0 to HappyLevel
      up to the winning time, then a second linear ramp that reaches 1 at
      the losing time and keeps rising after it. */
  function AnimationProgress(currentSeconds: real, winMins: real, loseMins: real): (p: real)
    requires 0.0 < winMins < loseMins
    ensures 0.0 <= currentSeconds ==> 0.0 <= p
    ensures currentSeconds <= winMins * 60.0 ==> p <= HappyLevel
    ensures currentSeconds > winMins * 60.0 ==> p > HappyLevel
  {
    var winSecs := winMins * 60.0;
    var loseSecs := loseMins * 60.0;
    if currentSeconds <= winSecs then
      (currentSeconds / winSecs) * HappyLevel
    else
      var progress := (currentSeconds - winSecs) / (loseSecs - winSecs);
      HappyLevel + progress * (1.0 - HappyLevel)
  }

  /** `Math.min(progress, 1)`: what the tick actually hands to the animation. */
  function BurnLevel(progress: real): (level: real)
    ensures level <= 1.0
    ensures progress <= 1.0 ==> level == progress
    ensures progress >= 1.0 ==> level == 1.0
  {
    if progress < 1.0 then progress else 1.0
  }

  /** The level a tick at `seconds` hands to the animation. */
  function LevelAt(c: Config, seconds: nat): (level: real)
    requires c.Valid()
    ensures 0.0 <= level <= 1.0
  {
    var progress := AnimationProgress(seconds as real, c.cookMinutes, c.loseMinutes);
    BurnLevel(progress)
  }

  lemma DivideMonotone(a: real, b: real, d: real)
    requires a <= b && 0.0 < d
    ensures a / d <= b / d
  {
  }

  /** The progress never goes down as time passes. */
  lemma ProgressMonotone(a: real, b: real, winMins: real, loseMins: real)
    requires 0.0 < winMins < loseMins
    requires a <= b
    ensures AnimationProgress(a, winMins, loseMins) <= AnimationProgress(b, winMins, loseMins)
  {
    var winSecs, loseSecs := winMins * 60.0, loseMins * 60.0;
    if b <= winSecs {
      DivideMonotone(a, b, winSecs);
    } else if winSecs < a {
      DivideMonotone(a - winSecs, b - winSecs, loseSecs - winSecs);
    }
  }

  /** A later tick never hands the animation a lower level. */
  lemma LevelAtMonotone(c: Config, a: nat, b: nat)
    requires c.Valid() && a <= b
    ensures LevelAt(c, a) <= LevelAt(c, b)
  {
    ProgressMonotone(a as real, b as real, c.cookMinutes, c.loseMinutes);
  }

  /** The two knees of the curve: HappyLevel exactly at the winning time and
      full intensity exactly at the losing time; from then on the level handed
      to the animation stays at 1. */
  lemma ProgressAtThresholds(winMins: real, loseMins: real, later: real)
    requires 0.0 < winMins < loseMins
    requires later >= loseMins * 60.0
    ensures AnimationProgress(winMins * 60.0, winMins, loseMins) == HappyLevel
    ensures AnimationProgress(loseMins * 60.0, winMins, loseMins) == 1.0
    ensures BurnLevel(AnimationProgress(later, winMins, loseMins)) == 1.0
  {
    var winSecs, loseSecs := winMins * 60.0, loseMins * 60.0;
    assert (loseSecs - winSecs) / (loseSecs - winSecs) == 1.0;
    ProgressMonotone(loseSecs, later, winMins, loseMins);
  }

  /** The "mm:ss" text of the timer display; minutes are at least two digits
      and grow past two after 99 minutes. */
  function Display(seconds: nat): string
  {
    Pad2(seconds / 60) + ":" + Pad2(seconds % 60)
  }

  /** Reads a display text back as seconds. */
  function DisplaySeconds(text: string): nat
    requires |text| >= 3 && AllDigits(text[..|text| - 3]) && AllDigits(text[|text| - 2..])
  {
    DigitsValue(text[..|text| - 3]) * 60 + DigitsValue(text[|text| - 2..])
  }

  /** The display is a minutes field of at least two digits, a colon and a
      seconds field of exactly two digits. */
  lemma DisplayShape(seconds: nat)
    ensures var text := Display(seconds);
      && |text| >= 5 && text[|text| - 3] == ':'
      && text[..|text| - 3] == Pad2(seconds / 60) && text[|text| - 2..] == Pad2(seconds % 60)
  {
    var p, q := Pad2(seconds / 60), Pad2(seconds % 60);
    FieldsOf(p, q);
    assert Display(seconds) == p + ":" + q;
  }

  /** The display splits `seconds` into whole minutes and a seconds field
      below 60 and loses nothing: the text reads back as the same number of
      seconds. */
  lemma {:induction false} DisplayRoundTrip(seconds: nat)
    ensures var text := Display(seconds);
      && |text| >= 5 && text[|text| - 3] == ':'
      && AllDigits(text[..|text| - 3]) && AllDigits(text[|text| - 2..])
    ensures var text := Display(seconds);
      && DigitsValue(text[..|text| - 3]) == seconds / 60
      && DigitsValue(text[|text| - 2..]) == seconds % 60 < 60
      && DisplaySeconds(text) == seconds
  {
    DisplayShape(seconds);
    var m, s := seconds / 60, seconds % 60;
    Pad2Value(m);
    Pad2Value(s);
    assert DigitsValue(Pad2(m)) * 60 + DigitsValue(Pad2(s)) == seconds;
  }

  datatype Buttons = Buttons(startDisabled: bool, pauseDisabled: bool, stopDisabled: bool)

  /** The enablement of the three buttons, derived from the state each time
      it changes. */
  function ButtonStates(running: bool, seconds: nat): (b: Buttons)
    ensures b.startDisabled <==> running
    ensures b.pauseDisabled <==> !running
    ensures b.stopDisabled <==> !running && seconds == 0
    ensures b.startDisabled != b.pauseDisabled
    ensures !b.pauseDisabled ==> !b.stopDisabled
  {
    Buttons(running, !running, !running && seconds == 0)
  }

  /** The tick that brings the elapsed time to `seconds` is the burning one. */
  predicate Burnt(c: Config, seconds: nat)
  {
    seconds as real >= c.loseMinutes * 60.0
  }

  /** Stopping at `seconds` counts as a properly cooked egg. */
  predicate CookedWindow(c: Config, seconds: nat)
  {
    seconds as real >= c.cookMinutes * 60.0 && seconds as real < c.loseMinutes * 60.0
  }

  /** The alarm condition `Math.abs(seconds - cook*60) < 0.5`. */
  predicate AlarmDue(c: Config, seconds: nat)
  {
    var d := seconds as real - c.cookMinutes * 60.0;
    -0.5 < d < 0.5
  }

  /** The first whole second at or after the losing time. */
  function BurnSecond(c: Config): (b: nat)
    requires c.Valid()
    ensures Burnt(c, b)
    ensures b > 0 && !Burnt(c, b - 1)
  {
    var x := c.loseMinutes * 60.0;
    if x.Floor as real == x then x.Floor else x.Floor + 1
  }

  lemma BurntIff(c: Config, seconds: nat)
    requires c.Valid()
    ensures Burnt(c, seconds) <==> seconds >= BurnSecond(c)
  {
    if seconds < BurnSecond(c) {
      assert (seconds as real) <= (BurnSecond(c) - 1) as real;
    }
  }

  /** The report the page sends for an outcome: nothing without a recipe id,
      since `recordStat` returns before the request in that case. */
  function ReportEvents(c: Config, o: Outcome): (ev: seq<Event>)
    ensures Reports(ev) == if c.recipeId == "" then [] else [o]
    ensures forall e :: e in ev ==> e.Reported?
  {
    if c.recipeId == "" then [] else [Reported(o)]
  }

  /** The outcomes reported by a sequence of events, in order. */
  function Reports(events: seq<Event>): (r: seq<Outcome>)
    ensures |r| <= |events|
  {
    if events == [] then []
    else (if events[0].Reported? then [events[0].outcome] else []) + Reports(events[1..])
  }

  lemma {:induction false} ReportsAppend(a: seq<Event>, b: seq<Event>)
    ensures Reports(a + b) == Reports(a) + Reports(b)
    decreases |a|
  {
    if a != [] {
      var head := if a[0].Reported? then [a[0].outcome] else [];
      assert (a + b)[0] == a[0];
      assert (a + b)[1..] == a[1..] + b;
      assert Reports(a + b) == head + Reports(a[1..] + b);
      ReportsAppend(a[1..], b);
      assert Reports(a) == head + Reports(a[1..]);
      assert head + (Reports(a[1..]) + Reports(b)) == (head + Reports(a[1..])) + Reports(b);
    } else {
      assert a + b == b;
    }
  }

  // ---------------------------------------------------------------------
  // The four actions, as functions of the state
  // ---------------------------------------------------------------------

  /** `startTimer`: does nothing when already running; otherwise hides the
      pop-up, starts the interval without touching the elapsed time and
      starts the pan animation; reports nothing. */
  function StartStep(c: Config, s: State): (r: Step)
    ensures r.state.seconds == s.seconds && r.state.running
    ensures s.running ==> r == Step(s, [])
    ensures !s.running ==> !r.state.losePopup
    ensures !s.running ==> r.events == if c.animated then [PanStarted] else []
    ensures Reports(r.events) == [] && Levels(r.events) == []
  {
    OneEvent(PanStarted);
    if s.running then Step(s, [])
    else Step(State(s.seconds, true, false), if c.animated then [PanStarted] else [])
  }

  /** `pauseTimer`: acts only while running; clears the interval, keeps the
      elapsed time, stops the alarm and the pan animation; reports nothing. */
  function PauseStep(c: Config, s: State): (r: Step)
    ensures !r.state.running
    ensures r.state.seconds == s.seconds && r.state.losePopup == s.losePopup
    ensures !s.running ==> r == Step(s, [])
    ensures s.running ==> r.events == [AlarmStopped] + if c.animated then [PanStopped] else []
    ensures Reports(r.events) == [] && Levels(r.events) == []
  {
    OneEvent(AlarmStopped);
    OneEvent(PanStopped);
    ReportsAppend([AlarmStopped], [PanStopped]);
    LevelsAppend([AlarmStopped], [PanStopped]);
    if !s.running then Step(s, [])
    else Step(s.(running := false), [AlarmStopped] + if c.animated then [PanStopped] else [])
  }

  /** The burn levels sent by a sequence of events, in order. */
  function Levels(events: seq<Event>): (r: seq<real>)
    ensures |r| <= |events|
  {
    if events == [] then []
    else (if events[0].BurnLevelSet? then [events[0].level] else []) + Levels(events[1..])
  }

  lemma {:induction false} LevelsAppend(a: seq<Event>, b: seq<Event>)
    ensures Levels(a + b) == Levels(a) + Levels(b)
    decreases |a|
  {
    if a != [] {
      var head := if a[0].BurnLevelSet? then [a[0].level] else [];
      assert (a + b)[0] == a[0];
      assert (a + b)[1..] == a[1..] + b;
      assert Levels(a + b) == head + Levels(a[1..] + b);
      LevelsAppend(a[1..], b);
      assert Levels(a) == head + Levels(a[1..]);
      assert head + (Levels(a[1..]) + Levels(b)) == (head + Levels(a[1..])) + Levels(b);
    } else {
      assert a + b == b;
    }
  }

  /** The events other than reports: the commands sent to the alarm and the
      animation, in order. */
  function Commands(events: seq<Event>): (r: seq<Event>)
    ensures |r| <= |events|
  {
    if events == [] then []
    else (if events[0].Reported? then [] else [events[0]]) + Commands(events[1..])
  }

  lemma {:induction false} CommandsAppend(a: seq<Event>, b: seq<Event>)
    ensures Commands(a + b) == Commands(a) + Commands(b)
    decreases |a|
  {
    if a != [] {
      var head := if a[0].Reported? then [] else [a[0]];
      assert (a + b)[0] == a[0];
      assert (a + b)[1..] == a[1..] + b;
      assert Commands(a + b) == head + Commands(a[1..] + b);
      CommandsAppend(a[1..], b);
      assert Commands(a) == head + Commands(a[1..]);
      assert head + (Commands(a[1..]) + Commands(b)) == (head + Commands(a[1..])) + Commands(b);
    } else {
      assert a + b == b;
    }
  }

  /** What one event contributes to the reports, the levels and the
      commands. */
  lemma OneEvent(e: Event)
    ensures Reports([e]) == if e.Reported? then [e.outcome] else []
    ensures Levels([e]) == if e.BurnLevelSet? then [e.level] else []
    ensures Commands([e]) == if e.Reported? then [] else [e]
  {
    assert [e][1..] == [];
  }

  /** The events of a report only. */
  lemma ReportCommands(c: Config, o: Outcome)
    ensures Commands(ReportEvents(c, o)) == [] && Levels(ReportEvents(c, o)) == []
  {
    OneEvent(Reported(o));
  }

  /** Reports, levels and commands of three event runs in a row. */
  lemma Append3(a: seq<Event>, b: seq<Event>, d: seq<Event>)
    ensures Reports(a + b + d) == Reports(a) + Reports(b) + Reports(d)
    ensures Levels(a + b + d) == Levels(a) + Levels(b) + Levels(d)
    ensures Commands(a + b + d) == Commands(a) + Commands(b) + Commands(d)
  {
    ReportsAppend(a, b);
    ReportsAppend(a + b, d);
    LevelsAppend(a, b);
    LevelsAppend(a + b, d);
    CommandsAppend(a, b);
    CommandsAppend(a + b, d);
  }

  /** What the losing tick adds after the burn level: the alarm stopped,
      then the 'burned' report. */
  function BurnEvents(c: Config): (ev: seq<Event>)
    ensures Reports(ev) == Reports(ReportEvents(c, Burned))
    ensures Levels(ev) == [] && Commands(ev) == [AlarmStopped]
  {
    OneEvent(AlarmStopped);
    ReportCommands(c, Burned);
    ReportsAppend([AlarmStopped], ReportEvents(c, Burned));
    LevelsAppend([AlarmStopped], ReportEvents(c, Burned));
    CommandsAppend([AlarmStopped], ReportEvents(c, Burned));
    [AlarmStopped] + ReportEvents(c, Burned)
  }

  /** The events of one tick whose increment brought the time to `seconds`:
      the alarm when the winning time is reached, the clamped burn level of
      that second when an animation is present, and on the losing tick the
      alarm stopped and a 'burned' report. The pan animation is left alone,
      even by the losing tick. */
  function TickEvents(c: Config, seconds: nat): (ev: seq<Event>)
    requires c.Valid()
    ensures Reports(ev) == if Burnt(c, seconds) then Reports(ReportEvents(c, Burned)) else []
    ensures Levels(ev) == if c.animated then [LevelAt(c, seconds)] else []
    ensures Commands(ev) ==
      (if AlarmDue(c, seconds) then [AlarmPlayed] else [])
      + (if c.animated then [BurnLevelSet(LevelAt(c, seconds))] else [])
      + (if Burnt(c, seconds) then [AlarmStopped] else [])
  {
    var alarm := if AlarmDue(c, seconds) then [AlarmPlayed] else [];
    var level := if c.animated then [BurnLevelSet(LevelAt(c, seconds))] else [];
    var burn := if Burnt(c, seconds) then BurnEvents(c) else [];
    OneEvent(AlarmPlayed);
    OneEvent(BurnLevelSet(LevelAt(c, seconds)));
    Append3(alarm, level, burn);
    alarm + level + burn
  }

  /** The interval's callback. It only fires while the interval is active.
      It adds exactly one second; at or past the losing time it clears the
      interval, shows the pop-up and reports 'burned' once, but does not
      reset the elapsed time. */
  function TickStep(c: Config, s: State): (r: Step)
    requires c.Valid() && s.running
    ensures r.state.seconds == s.seconds + 1
    ensures r.state.running <==> !Burnt(c, s.seconds + 1)
    ensures r.state.losePopup <==> s.losePopup || Burnt(c, s.seconds + 1)
    ensures r.events == TickEvents(c, s.seconds + 1)
  {
    Step(TickState(c, s), TickEvents(c, s.seconds + 1))
  }

  /** The state the interval's callback leaves behind. */
  function TickState(c: Config, s: State): State
  {
    var n := s.seconds + 1;
    State(n, !Burnt(c, n), s.losePopup || Burnt(c, n))
  }

  /** The events `resetAnimation` sends: burn level 0, then the pan stopped. */
  function ResetAnimationEvents(c: Config): (ev: seq<Event>)
    ensures Levels(ev) == if c.animated then [0.0] else []
    ensures Reports(ev) == [] && Commands(ev) == ev
  {
    OneEvent(BurnLevelSet(0.0));
    OneEvent(PanStopped);
    ReportsAppend([BurnLevelSet(0.0)], [PanStopped]);
    LevelsAppend([BurnLevelSet(0.0)], [PanStopped]);
    CommandsAppend([BurnLevelSet(0.0)], [PanStopped]);
    assert [BurnLevelSet(0.0), PanStopped] == [BurnLevelSet(0.0)] + [PanStopped];
    if c.animated then [BurnLevelSet(0.0), PanStopped] else []
  }

  /** `stopTimer`: reports 'cooked' when stopped inside the window between
      the two times, never reports 'burned', stops the alarm, always returns
      to zero seconds with the interval cleared and the pop-up hidden, and
      resets the animation to level 0 with the pan stopped. */
  function StopStep(c: Config, s: State): (r: Step)
    ensures r.state == State(0, false, false)
    ensures r.events == (if CookedWindow(c, s.seconds) then ReportEvents(c, Cooked) else [])
      + [AlarmStopped] + ResetAnimationEvents(c)
    ensures Reports(r.events) == if CookedWindow(c, s.seconds) then Reports(ReportEvents(c, Cooked)) else []
    ensures Burned !in Reports(r.events)
    ensures Levels(r.events) == if c.animated then [0.0] else []
    ensures Commands(r.events) == [AlarmStopped] + ResetAnimationEvents(c)
  {
    var report := if CookedWindow(c, s.seconds) then ReportEvents(c, Cooked) else [];
    OneEvent(AlarmStopped);
    ReportCommands(c, Cooked);
    assert Levels(report) == [] && Commands(report) == [];
    ReportsAppend(report, [AlarmStopped]);
    ReportsAppend(report + [AlarmStopped], ResetAnimationEvents(c));
    LevelsAppend(report, [AlarmStopped]);
    LevelsAppend(report + [AlarmStopped], ResetAnimationEvents(c));
    CommandsAppend(report, [AlarmStopped]);
    CommandsAppend(report + [AlarmStopped], ResetAnimationEvents(c));
    Step(State(0, false, false), report + [AlarmStopped] + ResetAnimationEvents(c))
  }

  /** Stop reports exactly one outcome, 'cooked', precisely when there is a
      recipe id and the time is inside the cooked window; otherwise (too
      early, or past the losing time where the tick already reported) it
      reports nothing. */
  lemma StopReportsCookedIff(c: Config, s: State)
    ensures Reports(StopStep(c, s).events) == [Cooked]
        <==> c.recipeId != "" && c.cookMinutes * 60.0 <= s.seconds as real < c.loseMinutes * 60.0
    ensures Reports(StopStep(c, s).events) != [Cooked] ==> Reports(StopStep(c, s).events) == []
  {
  }

  // ---------------------------------------------------------------------
  // Runs of ticks
  // ---------------------------------------------------------------------

  /** Up to `n` ticks in a row with no user action in between. The interval
      is cleared by the burning tick, after which no further tick fires. */
  function RunTicks(c: Config, s: State, n: nat): (r: Step)
    requires c.Valid()
    ensures s.seconds <= r.state.seconds <= s.seconds + n
    ensures r.state.running ==> r.state.seconds == s.seconds + n
    decreases n
  {
    if n == 0 || !s.running then Step(s, [])
    else
      var t := TickStep(c, s);
      var rest := RunTicks(c, t.state, n - 1);
      Step(rest.state, t.events + rest.events)
  }

  /** A run of ticks from a running state is its first tick followed by
      the run from the state that tick leaves. */
  lemma RunTicksStep(c: Config, s: State, n: nat)
    requires c.Valid() && s.running && n > 0
    ensures var t := TickStep(c, s);
      var rest := RunTicks(c, t.state, n - 1);
      RunTicks(c, s, n) == Step(rest.state, t.events + rest.events)
  {
  }

  /** The reports of a run are those of its first tick followed by those of
      the rest of the run. */
  lemma RunReportsStep(c: Config, s: State, n: nat)
    requires c.Valid() && s.running && n > 0
    ensures var t := TickStep(c, s);
      && RunTicks(c, s, n).state == RunTicks(c, t.state, n - 1).state
      && Reports(RunTicks(c, s, n).events) == Reports(t.events) + Reports(RunTicks(c, t.state, n - 1).events)
  {
    var t := TickStep(c, s);
    RunTicksStep(c, s, n);
    ReportsAppend(t.events, RunTicks(c, t.state, n - 1).events);
  }

  /** Before the losing time, ticks only count seconds up: the timer keeps
      running and nothing is reported. */
  lemma {:induction false} TicksBeforeBurn(c: Config, s: State, n: nat)
    requires c.Valid() && s.running
    requires s.seconds + n < BurnSecond(c)
    ensures RunTicks(c, s, n).state == State(s.seconds + n, true, s.losePopup)
    ensures Reports(RunTicks(c, s, n).events) == []
    decreases n
  {
    if n > 0 {
      var t := TickStep(c, s);
      RunReportsStep(c, s, n);
      BurntIff(c, s.seconds + 1);
      TicksBeforeBurn(c, t.state, n - 1);
    }
  }

  /** The state a run of ticks leaves and the outcomes it reports, computed
      from the tick's state change and its report alone. */
  function RunOutcome(c: Config, s: State, n: nat): (State, seq<Outcome>)
    requires c.Valid()
    decreases n
  {
    if n == 0 || !s.running then (s, [])
    else
      var rest := RunOutcome(c, TickState(c, s), n - 1);
      var report := if Burnt(c, s.seconds + 1) then Reports(ReportEvents(c, Burned)) else [];
      (rest.0, report + rest.1)
  }

  /** The run of ticks leaves the state and reports the outcomes that
      RunOutcome computes. */
  lemma {:induction false} RunOutcomeOfTicks(c: Config, s: State, n: nat)
    requires c.Valid()
    ensures RunTicks(c, s, n).state == RunOutcome(c, s, n).0
    ensures Reports(RunTicks(c, s, n).events) == RunOutcome(c, s, n).1
    decreases n
  {
    if n > 0 && s.running {
      RunReportsStep(c, s, n);
      RunOutcomeOfTicks(c, TickState(c, s), n - 1);
    }
  }

  /** Counted on RunOutcome: every tick before the burn second keeps the
      timer running and reports nothing; the tick reaching it stops the
      timer, shows the pop-up and reports 'burned'. */
  lemma {:induction false} UnattendedOutcome(c: Config, s: State, extra: nat)
    requires c.Valid() && s.running
    requires s.seconds < BurnSecond(c)
    ensures RunOutcome(c, s, BurnSecond(c) - s.seconds + extra)
      == (State(BurnSecond(c), false, true), Reports(ReportEvents(c, Burned)))
    decreases BurnSecond(c) - s.seconds
  {
    BurntIff(c, s.seconds + 1);
    var n := BurnSecond(c) - s.seconds + extra;
    if s.seconds + 1 < BurnSecond(c) {
      UnattendedOutcome(c, TickState(c, s), extra);
      var rest := RunOutcome(c, TickState(c, s), n - 1);
      assert RunOutcome(c, s, n) == (rest.0, [] + rest.1);
      assert [] + rest.1 == rest.1;
    }
  }

  /** Left alone, a running timer stops itself at the first whole second at
      or past the losing time, shows the pop-up, keeps that elapsed time, and
      has reported exactly one outcome, 'burned' (when it has a recipe id),
      however many more ticks are allowed. */
  lemma UnattendedRunBurnsOnce(c: Config, s: State, extra: nat)
    requires c.Valid() && s.running
    requires s.seconds < BurnSecond(c)
    ensures var r := RunTicks(c, s, BurnSecond(c) - s.seconds + extra);
      && r.state == State(BurnSecond(c), false, true)
      && Reports(r.events) == Reports(ReportEvents(c, Burned))
  {
    RunOutcomeOfTicks(c, s, BurnSecond(c) - s.seconds + extra);
    UnattendedOutcome(c, s, extra);
  }

  /** Of two ticks in a row, the second never sends a lower burn level than
      the first. */
  lemma TickLevelsRise(c: Config, s: State)
    requires c.Valid() && c.animated && s.running && TickStep(c, s).state.running
    ensures var t := TickStep(c, s);
      |Levels(t.events)| == |Levels(TickStep(c, t.state).events)| == 1
      && Levels(t.events)[0] <= Levels(TickStep(c, t.state).events)[0]
  {
    var t := TickStep(c, s);
    LevelAtMonotone(c, s.seconds + 1, t.state.seconds + 1);
  }

  /** A recipe with a winning time of 30 s and a losing time of 60 s burns
      at the sixtieth second. */
  lemma HalfMinuteBurnSecond(recipeId: string, animated: bool)
    ensures Config(0.5, 1.0, recipeId, animated).Valid()
    ensures BurnSecond(Config(0.5, 1.0, recipeId, animated)) == 60
  {
  }

  /** With that recipe, stopping after 45 s reports one 'cooked' and
      stopping after 10 s reports nothing. */
  lemma HalfMinuteEggStops(recipeId: string, animated: bool)
    requires recipeId != ""
    ensures var c := Config(0.5, 1.0, recipeId, animated);
      var running := StartStep(c, State(0, false, false)).state;
      && Reports(StopStep(c, RunTicks(c, running, 45).state).events) == [Cooked]
      && Reports(RunTicks(c, running, 45).events) == []
      && Reports(StopStep(c, RunTicks(c, running, 10).state).events) == []
  {
    var c := Config(0.5, 1.0, recipeId, animated);
    var running := StartStep(c, State(0, false, false)).state;
    HalfMinuteBurnSecond(recipeId, animated);
    TicksBeforeBurn(c, running, 45);
    TicksBeforeBurn(c, running, 10);
  }

  /** With that recipe, an unattended run reports one 'burned' at 60 s and is
      left at 60 s until the user presses stop, which then reports nothing. */
  lemma HalfMinuteEggUnattended(recipeId: string, animated: bool)
    requires recipeId != ""
    ensures var c := Config(0.5, 1.0, recipeId, animated);
      var running := StartStep(c, State(0, false, false)).state;
      && RunTicks(c, running, 60).state == State(60, false, true)
      && Reports(RunTicks(c, running, 60).events) == [Burned]
      && Reports(StopStep(c, RunTicks(c, running, 60).state).events) == []
  {
    var c := Config(0.5, 1.0, recipeId, animated);
    var running := StartStep(c, State(0, false, false)).state;
    HalfMinuteBurnSecond(recipeId, animated);
    UnattendedRunBurnsOnce(c, running, 0);
    var burnt := RunTicks(c, running, 60).state;
    assert burnt == State(60, false, true);
    assert !CookedWindow(c, burnt.seconds);
  }

  /** After the auto-burn the elapsed time is not reset, so pressing start
      again (its button is enabled) makes the very next tick report 'burned'
      a second time. */
  lemma RestartAfterBurnReportsAgain(c: Config)
    requires c.Valid() && c.recipeId != ""
    ensures var burnt := State(BurnSecond(c), false, true);
      && !ButtonStates(burnt.running, burnt.seconds).startDisabled
      && Reports(TickStep(c, StartStep(c, burnt).state).events) == [Burned]
  {
    BurntIff(c, BurnSecond(c) + 1);
  }

  // ---------------------------------------------------------------------
  // The page's timer, with its state in fields
  // ---------------------------------------------------------------------

  class Timer {
    const config: Config
    var seconds: nat
    var running: bool
    var losePopup: bool
    /** The disabled flags of the three buttons. */
    var buttons: Buttons
    /** Everything the page has emitted so far. */
    var events: seq<Event>

    /** The buttons always reflect the current state. */
    ghost predicate Valid()
      reads this
    {
      config.Valid() && buttons == ButtonStates(running, seconds)
    }

    function Current(): State
      reads this
    {
      State(seconds, running, losePopup)
    }

    /** The text of the timer display, which `updateDisplay` writes after
        every change of the elapsed time. */
    function DisplayText(): string
      reads this
    {
      Display(seconds)
    }

    /** The page load: zero seconds, not running, display and buttons set. */
    constructor (config: Config)
      requires config.Valid()
      ensures Valid() && this.config == config
      ensures Current() == State(0, false, false) && events == []
    {
      this.config := config;
      seconds := 0;
      running := false;
      losePopup := false;
      buttons := ButtonStates(false, 0);
      events := [];
    }

    method Start()
      requires Valid()
      modifies this
      ensures Valid()
      ensures Current() == StartStep(config, old(Current())).state
      ensures events == old(events) + StartStep(config, old(Current())).events
    {
      if running {
        return;
      }
      losePopup := false;
      running := true;
      buttons := ButtonStates(running, seconds);
      if config.animated {
        events := events + [PanStarted];
      }
    }

    method Pause()
      requires Valid()
      modifies this
      ensures Valid()
      ensures Current() == PauseStep(config, old(Current())).state
      ensures events == old(events) + PauseStep(config, old(Current())).events
    {
      if !running {
        return;
      }
      running := false;
      events := events + [AlarmStopped];
      buttons := ButtonStates(running, seconds);
      if config.animated {
        events := events + [PanStopped];
      }
    }

    /** One firing of the interval callback. */
    method Tick()
      requires Valid() && running
      modifies this
      ensures Valid()
      ensures Current() == TickStep(config, old(Current())).state
      ensures events == old(events) + TickStep(config, old(Current())).events
    {
      ghost var before := Current();
      seconds := seconds + 1;
      // the alarm, the burn level and, on the losing tick, the report
      var emitted := TickEvents(config, seconds);
      events := events + emitted;
      if Burnt(config, seconds) {
        running := false;
        losePopup := true;
      }
      buttons := ButtonStates(running, seconds);
      assert Current() == TickState(config, before);
    }

    method Stop()
      requires Valid()
      modifies this
      ensures Valid()
      ensures Current() == StopStep(config, old(Current())).state
      ensures events == old(events) + StopStep(config, old(Current())).events
    {
      ghost var before := Current();
      var emitted: seq<Event> := [];
      if seconds as real >= config.cookMinutes * 60.0 && seconds as real < config.loseMinutes * 60.0 {
        emitted := ReportEvents(config, Cooked);
      }
      running := false;
      seconds := 0;
      emitted := emitted + [AlarmStopped];
      losePopup := false;
      // resetAnimation
      if config.animated {
        emitted := emitted + [BurnLevelSet(0.0), PanStopped];
      }
      assert emitted == StopStep(config, before).events;
      events := events + emitted;
      buttons := ButtonStates(running, seconds);
    }
  }
}
