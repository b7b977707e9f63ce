/** The countdown state of the `PomodoroTimer` class in script.js and its
    transitions, one pure function per operation. DOM updates, logging,
    notifications and sound are not part of the state and are left out. */
module Timer {

  import Display

  /** `currentMode`: the string 'work' or 'rest'. */
  datatype Mode = Work | Rest

  /** The mode's name as the source spells it. */
  function ModeName(m: Mode): string {
    match m
    case Work => "work"
    case Rest => "rest"
  }

  /** The other mode: the choice `toggleMode` makes. */
  function Opposite(m: Mode): (r: Mode)
    ensures r != m
  {
    match m
    case Work => Rest
    case Rest => Work
  }

  /** The preset length of a countdown in seconds: 25 minutes for work,
      5 minutes for anything else. */
  function Preset(m: Mode): (r: int)
    ensures 0 < r
    ensures r == 1500 <==> m == Work
    ensures r == 300 <==> m == Rest
  {
    match m
    case Work => 25 * 60
    case Rest => 5 * 60
  }

  /** ASCII upper-casing of one character, as `toUpperCase` does on the
      letters the mode names use. */
  function UpperChar(c: char): char {
    if 'a' <= c <= 'z' then (c as int - 32) as char else c
  }

  /** `s.charAt(0).toUpperCase() + s.slice(1)`. */
  function Capitalize(s: string): (r: string)
    ensures |r| == |s|
    ensures 0 < |s| ==> r[0] == UpperChar(s[0]) && r[1..] == s[1..]
  {
    if |s| == 0 then s else [UpperChar(s[0])] + s[1..]
  }

  const WorkLabel: string := "Work Time"
  const RestLabel: string := "Rest Time"

  /** The timer label a mode switch writes: the capitalised mode name
      followed by " Time". The label names the mode unambiguously. */
  function LabelOf(m: Mode): (r: string)
    ensures r == WorkLabel <==> m == Work
    ensures r == RestLabel <==> m == Rest
  {
    var name := ModeName(m);
    var r := Capitalize(name) + " Time";
    assert r[..4] == Capitalize(name) && r[0] == UpperChar(name[0]);
    r
  }

  /** The timer's fields. `timeLeft` is an `int` because a tick started at
      zero briefly takes it to -1; `labelText` is the text of the timer label,
      which completion reads to decide whether a work session ended. */
  datatype TimerState = TimerState(
    timeLeft: int,
    totalTime: int,
    isRunning: bool,
    mode: Mode,
    sessionCount: nat,
    labelText: string)

  /** The state invariant between whole operations: the remaining time lies
      within the current countdown, whose length and label are those of the
      current mode. */
  predicate Valid(s: TimerState) {
    && 0 <= s.timeLeft <= s.totalTime
    && s.totalTime == Preset(s.mode)
    && s.labelText == LabelOf(s.mode)
  }

  /** The state the constructor builds: an idle 25-minute work countdown,
      with the label showing "Work Time". */
  function Init(): (r: TimerState)
    ensures Valid(r)
    ensures !r.isRunning && r.mode == Work && r.sessionCount == 0
    ensures r.timeLeft == r.totalTime == 1500
  {
    TimerState(25 * 60, 25 * 60, false, Work, 0, WorkLabel)
  }

  /** `start()`: begins ticking unless already running, which is a no-op.
      No time, mode, label or session field changes. */
  function Start(s: TimerState): (r: TimerState)
    ensures r.isRunning
    ensures r.(isRunning := s.isRunning) == s
    ensures s.isRunning ==> r == s
  {
    if !s.isRunning then s.(isRunning := true) else s
  }

  /** `pause()`: stops ticking if running, otherwise a no-op. Nothing but
      the run state changes. */
  function Pause(s: TimerState): (r: TimerState)
    ensures !r.isRunning
    ensures r.(isRunning := s.isRunning) == s
    ensures !s.isRunning ==> r == s
  {
    if s.isRunning then s.(isRunning := false) else s
  }

  /** `reset()`: stops ticking and refills the countdown to its total,
      whatever the run state was; mode, total, label and count are kept. */
  function Reset(s: TimerState): (r: TimerState)
    ensures !r.isRunning
    ensures r.timeLeft == r.totalTime == s.totalTime
    ensures r.(timeLeft := s.timeLeft, isRunning := s.isRunning) == s
  {
    var p := Pause(s);
    p.(timeLeft := p.totalTime)
  }

  /** Whether completion counts a session: the source compares the label
      text, not `currentMode`. For every label a mode switch can write, the
      test counts exactly the work mode, and no text counts more than one
      session. */
  function SessionIncrement(text: string): (n: nat)
    ensures n <= 1
    ensures forall m: Mode :: text == LabelOf(m) ==> (n == 1 <==> m == Work)
  {
    if text == WorkLabel then 1 else 0
  }

  /** `complete()`: stops ticking, clamps the remaining time to zero and, when
      the label reads "Work Time", counts one more session. Total, mode and
      label are kept. */
  function Complete(s: TimerState): (r: TimerState)
    ensures !r.isRunning && r.timeLeft == 0
    ensures r.sessionCount == s.sessionCount + SessionIncrement(s.labelText)
    ensures r.totalTime == s.totalTime && r.mode == s.mode && r.labelText == s.labelText
  {
    var p := Pause(s).(timeLeft := 0);
    if p.labelText == WorkLabel then p.(sessionCount := p.sessionCount + 1) else p
  }

  /** One firing of the interval callback, which exists only while running:
      the remaining time drops by one and, once it is at or below zero, the
      countdown completes. */
  function Tick(s: TimerState): (r: TimerState)
    requires s.isRunning
    ensures r.timeLeft == if s.timeLeft - 1 <= 0 then 0 else s.timeLeft - 1
    ensures r.isRunning <==> s.timeLeft - 1 > 0
    ensures r.sessionCount == s.sessionCount + (if s.timeLeft - 1 <= 0 then SessionIncrement(s.labelText) else 0)
    ensures r.totalTime == s.totalTime && r.mode == s.mode && r.labelText == s.labelText
  {
    var d := s.(timeLeft := s.timeLeft - 1);
    if d.timeLeft <= 0 then Complete(d) else d
  }

  /** `switchMode(m)`: stops ticking and loads the preset countdown and label
      of `m`, even when `m` is already the current mode. The session count is
      kept, and the result satisfies the invariant from any prior state. */
  function SwitchMode(s: TimerState, m: Mode): (r: TimerState)
    ensures Valid(r)
    ensures !r.isRunning && r.mode == m
    ensures r.timeLeft == r.totalTime == Preset(m)
    ensures r.labelText == LabelOf(m)
    ensures r.sessionCount == s.sessionCount
  {
    var p := Pause(s);
    var newTime := Preset(m);
    var q := p.(totalTime := newTime, timeLeft := newTime, labelText := LabelOf(m));
    q.(mode := m)
  }

  /** `toggleMode()`: switches to the mode that is not current. */
  function ToggleMode(s: TimerState): (r: TimerState)
    ensures Valid(r)
    ensures r.mode != s.mode
    ensures !r.isRunning && r.timeLeft == r.totalTime
    ensures r.sessionCount == s.sessionCount
  {
    SwitchMode(s, Opposite(s.mode))
  }

  /** What `updateDisplay()` publishes: the countdown text and the progress
      width in percent. */
  datatype View = View(timeText: string, progress: real)

  function Render(s: TimerState): (v: View)
    requires s.totalTime != 0
    ensures Valid(s) ==> |v.timeText| == 5 && Display.ParseClock(v.timeText).Some?
    ensures Valid(s) ==> Display.ParseClock(v.timeText).value == s.timeLeft
    ensures Valid(s) ==> 0.0 <= v.progress <= 100.0
    ensures s.totalTime > 0 ==> (v.progress == 0.0 <==> s.timeLeft == s.totalTime)
    ensures s.totalTime > 0 ==> (v.progress == 100.0 <==> s.timeLeft == 0)
  {
    var v := View(Display.FormatClock(s.timeLeft), Display.Progress(s.totalTime, s.timeLeft));
    if Valid(s) then
      Display.ClockShape(s.timeLeft);
      Display.ClockRoundTrip(s.timeLeft);
      Display.ProgressBounds(s.totalTime, s.timeLeft);
      Display.ProgressEnds(s.totalTime, s.timeLeft);
      v
    else if s.totalTime > 0 then
      Display.ProgressEnds(s.totalTime, s.timeLeft);
      v
    else
      v
  }

  // ---- Properties of single operations --------------------------------

  /** In a valid state the label and the mode agree, so counting by label
      text is counting work completions. */
  lemma LabelKeysMode(s: TimerState)
    requires Valid(s)
    ensures s.labelText == WorkLabel <==> s.mode == Work
    ensures SessionIncrement(s.labelText) == (if s.mode == Work then 1 else 0)
  {
  }

  /** Every whole operation keeps the invariant. The tick keeps it even
      though its decrement alone may not: from 0 it passes through -1. */
  lemma OperationsPreserveValid(s: TimerState)
    requires Valid(s)
    ensures Valid(Start(s)) && Valid(Pause(s)) && Valid(Reset(s))
    ensures s.isRunning ==> Valid(Tick(s))
  {
  }

  /** The decrement half of a tick leaves the invariant when started from
      00:00; completion restores it. */
  lemma TickFromZeroDipsBelowZero(s: TimerState)
    requires Valid(s) && s.isRunning && s.timeLeft == 0
    ensures !Valid(s.(timeLeft := s.timeLeft - 1))
    ensures s.(timeLeft := s.timeLeft - 1).timeLeft == -1
    ensures Tick(s) == Complete(s.(timeLeft := -1))
    ensures Valid(Tick(s)) && Tick(s).timeLeft == 0
  {
  }

  lemma StartPauseIdempotent(s: TimerState)
    ensures Start(Start(s)) == Start(s)
    ensures Pause(Pause(s)) == Pause(s)
    ensures Reset(Reset(s)) == Reset(s)
  {
  }

  /** Pausing undoes a start from idle; starting undoes a pause from running. */
  lemma StartPauseInverse(s: TimerState)
    ensures !s.isRunning ==> Pause(Start(s)) == s
    ensures s.isRunning ==> Start(Pause(s)) == s
  {
  }

  /** Switching to the current mode is not a no-op: it stops the countdown
      and refills it, exactly as a reset does in a valid state. */
  lemma SwitchToSameModeResets(s: TimerState)
    requires Valid(s)
    ensures SwitchMode(s, s.mode) == Reset(s)
  {
  }

  /** Toggling twice returns to the original mode with a full countdown, not
      the time that was left: in a valid state it is a reset. */
  lemma ToggleTwiceIsReset(s: TimerState)
    requires Valid(s)
    ensures ToggleMode(ToggleMode(s)).mode == s.mode
    ensures ToggleMode(ToggleMode(s)) == Reset(s)
  {
  }

  /** The mode switch depends only on the target mode and the session count:
      whatever ran before is discarded. */
  lemma SwitchModeForgetsCountdown(s: TimerState, t: TimerState, m: Mode)
    requires s.sessionCount == t.sessionCount
    ensures SwitchMode(s, m) == SwitchMode(t, m)
  {
  }

}
