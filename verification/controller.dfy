/** The timer driven by its events: the four buttons wired in
    `initializeEventListeners` and the interval callback that `start()`
    installs. The interval exists only from `start()` until the
    `clearInterval` in `pause()`, so a tick is an event that can only happen
    while the timer runs. */
module Controller {

  import opened Optional
  import opened Timer

  datatype Event =
    | StartPressed
    | PausePressed
    | ResetPressed
    | ModeTogglePressed
    | IntervalFired

  /** An event can happen in a state: buttons always, the interval callback
      only while an interval is installed. */
  predicate Enabled(s: TimerState, e: Event) {
    e.IntervalFired? ==> s.isRunning
  }

  /** The state after one event, or `None` when the event cannot happen.
      Each button has its own effect: start and pause change only the run
      state, reset refills the countdown, and the mode button loads the other
      mode's preset and label. */
  function Step(s: TimerState, e: Event): (r: Option<TimerState>)
    ensures r.Some? <==> Enabled(s, e)
    ensures r.Some? && e.IntervalFired? ==> r.value == Tick(s)
    ensures e.StartPressed? ==> r.value.isRunning && r.value.(isRunning := s.isRunning) == s
    ensures e.PausePressed? ==> !r.value.isRunning && r.value.(isRunning := s.isRunning) == s
    ensures e.ResetPressed? ==>
              && !r.value.isRunning && r.value.timeLeft == s.totalTime
              && r.value.(timeLeft := s.timeLeft, isRunning := s.isRunning) == s
    ensures e.ModeTogglePressed? ==>
              && !r.value.isRunning && r.value.mode == Opposite(s.mode)
              && r.value.timeLeft == r.value.totalTime == Preset(Opposite(s.mode))
              && r.value.labelText == LabelOf(Opposite(s.mode))
              && r.value.sessionCount == s.sessionCount
  {
    match e
    case StartPressed => Some(Start(s))
    case PausePressed => Some(Pause(s))
    case ResetPressed => Some(Reset(s))
    case ModeTogglePressed => Some(ToggleMode(s))
    case IntervalFired => if s.isRunning then Some(Tick(s)) else None
  }

  /** The state after a sequence of events, or `None` if one of them cannot
      happen where it occurs. */
  function Run(s: TimerState, evs: seq<Event>): Option<TimerState>
    decreases |evs|
  {
    if |evs| == 0 then Some(s)
    else match Step(s, evs[0])
      case None => None
      case Some(t) => Run(t, evs[1..])
  }

  /** `n` consecutive firings of the interval callback. */
  function Ticks(n: nat): (r: seq<Event>)
    ensures |r| == n
  {
    if n == 0 then [] else [IntervalFired] + Ticks(n - 1)
  }

  /** Running two sequences one after the other is running their
      concatenation. */
  lemma {:induction false} RunAppend(s: TimerState, a: seq<Event>, b: seq<Event>, t: TimerState)
    requires Run(s, a) == Some(t)
    ensures Run(s, a + b) == Run(t, b)
    decreases |a|
  {
    if |a| > 0 {
      assert (a + b)[0] == a[0];
      assert (a + b)[1..] == a[1..] + b;
      RunAppend(Step(s, a[0]).value, a[1..], b, t);
    } else {
      assert a + b == b;
    }
  }

  /** Every event keeps the invariant. */
  lemma StepPreservesValid(s: TimerState, e: Event)
    requires Valid(s) && Step(s, e).Some?
    ensures Valid(Step(s, e).value)
  {
    OperationsPreserveValid(s);
  }

  /** Hence `0 <= timeLeft <= totalTime`, with the total and label those of
      the mode, after every whole sequence of events. */
  lemma {:induction false} RunPreservesValid(s: TimerState, evs: seq<Event>)
    requires Valid(s) && Run(s, evs).Some?
    ensures Valid(Run(s, evs).value)
    decreases |evs|
  {
    if |evs| > 0 {
      var t := Step(s, evs[0]).value;
      StepPreservesValid(s, evs[0]);
      RunPreservesValid(t, evs[1..]);
    }
  }

  /** Every state the timer can reach from page load satisfies the
      invariant, so completion's label test is a test of the mode there. */
  lemma ReachableIsValid(evs: seq<Event>)
    requires Run(Init(), evs).Some?
    ensures Valid(Run(Init(), evs).value)
    ensures Run(Init(), evs).value.labelText == WorkLabel <==> Run(Init(), evs).value.mode == Work
  {
    RunPreservesValid(Init(), evs);
  }

  /** The session count never drops, and moves only on ticks. */
  lemma {:induction false} SessionCountMonotone(s: TimerState, evs: seq<Event>)
    requires Run(s, evs).Some?
    ensures Run(s, evs).value.sessionCount >= s.sessionCount
    ensures (forall i :: 0 <= i < |evs| ==> !evs[i].IntervalFired?) ==>
              Run(s, evs).value.sessionCount == s.sessionCount
    decreases |evs|
  {
    if |evs| > 0 {
      var t := Step(s, evs[0]).value;
      SessionCountMonotone(t, evs[1..]);
      assert forall i :: 0 <= i < |evs| - 1 ==> evs[1..][i] == evs[i + 1];
    }
  }

  /** Only start and pause presses. */
  predicate StartPauseOnly(evs: seq<Event>) {
    forall i :: 0 <= i < |evs| ==> evs[i].StartPressed? || evs[i].PausePressed?
  }

  /** After any non-empty run of start and pause presses the timer runs
      exactly when the last press was start, and only the run state has
      changed. */
  lemma {:induction false} LastStartPauseWins(s: TimerState, evs: seq<Event>)
    requires |evs| > 0 && StartPauseOnly(evs)
    ensures Run(s, evs).Some?
    ensures Run(s, evs).value.isRunning <==> evs[|evs| - 1].StartPressed?
    ensures Run(s, evs).value.(isRunning := s.isRunning) == s
    decreases |evs|
  {
    var t := Step(s, evs[0]).value;
    if |evs| == 1 {
      assert Run(t, evs[1..]) == Some(t);
    } else {
      assert StartPauseOnly(evs[1..]) by {
        assert forall i :: 0 <= i < |evs| - 1 ==> evs[1..][i] == evs[i + 1];
      }
      LastStartPauseWins(t, evs[1..]);
    }
  }

  /** While more than `n` seconds are left, `n` ticks just count down and the
      timer keeps running. */
  lemma {:induction false} TicksCountDown(s: TimerState, n: nat)
    requires s.isRunning && n < s.timeLeft
    ensures Run(s, Ticks(n)) == Some(s.(timeLeft := s.timeLeft - n))
    decreases n
  {
    if n > 0 {
      var t := Tick(s);
      assert t == s.(timeLeft := s.timeLeft - 1);
      assert Ticks(n)[1..] == Ticks(n - 1);
      TicksCountDown(t, n - 1);
    }
  }

  /** A single event runs as one step. */
  lemma RunSingle(s: TimerState, e: Event)
    ensures Run(s, [e]) == Step(s, e)
  {
    assert [e][1..] == [];
  }

  /** The last second: one tick from 1 completes the countdown. */
  lemma LastTickCompletes(s: TimerState)
    requires s.isRunning && s.timeLeft == 1
    ensures Run(s, [IntervalFired]) ==
              Some(s.(isRunning := false, timeLeft := 0,
                      sessionCount := s.sessionCount + SessionIncrement(s.labelText)))
  {
    RunSingle(s, IntervalFired);
  }

  /** A running countdown with `k >= 1` seconds left completes after exactly
      `k` ticks: stopped at zero, with one more session when the label reads
      "Work Time". */
  lemma CountdownCompletes(s: TimerState)
    requires s.isRunning && 1 <= s.timeLeft
    ensures Run(s, Ticks(s.timeLeft)) ==
              Some(s.(isRunning := false, timeLeft := 0,
                      sessionCount := s.sessionCount + SessionIncrement(s.labelText)))
  {
    var k := s.timeLeft;
    var last := s.(timeLeft := 1);
    var done := s.(isRunning := false, timeLeft := 0,
                   sessionCount := s.sessionCount + SessionIncrement(s.labelText));
    var before := Ticks(k - 1);
    assert Run(s, before) == Some(last) by {
      TicksCountDown(s, k - 1);
    }
    assert Run(s, before + [IntervalFired]) == Run(last, [IntervalFired]) by {
      RunAppend(s, before, [IntervalFired], last);
    }
    assert Run(last, [IntervalFired]) == Some(done) by {
      LastTickCompletes(last);
    }
    assert Ticks(k) == before + [IntervalFired] by {
      TicksSnoc(k);
    }
  }

  lemma {:induction false} TicksSnoc(n: nat)
    requires n > 0
    ensures Ticks(n) == Ticks(n - 1) + [IntervalFired]
    decreases n
  {
    if n > 1 {
      TicksSnoc(n - 1);
    }
  }

  /** Started from idle with `k >= 1` seconds left, the countdown completes
      after `k` ticks. */
  lemma StartedCountdownCompletes(s: TimerState)
    requires !s.isRunning && 1 <= s.timeLeft
    ensures Run(s, [StartPressed] + Ticks(s.timeLeft)) ==
              Some(s.(timeLeft := 0, sessionCount := s.sessionCount + SessionIncrement(s.labelText)))
  {
    RunSingle(s, StartPressed);
    RunAppend(s, [StartPressed], Ticks(s.timeLeft), Start(s));
    CountdownCompletes(Start(s));
  }

  /** From page load: start, then one tick for each of the `n == 1500`
      seconds of the work preset, completes the work session: 00:00, idle,
      one session counted. The length is a parameter, pinned by the
      precondition, because a literal `Ticks(1500)` makes the verifier
      unfold the tick sequence 1500 times. */
  lemma FirstWorkSession(n: nat)
    requires n == Init().totalTime
    ensures n == 1500
    ensures Run(Init(), [StartPressed] + Ticks(n)) ==
              Some(Init().(timeLeft := 0, sessionCount := 1))
  {
    StartedCountdownCompletes(Init());
  }

  /** Pressing start again at 00:00 completes once more after a single tick
      (the count passes through -1), and in work mode counts another
      session. */
  lemma RestartAtZeroCountsAgain(s: TimerState)
    requires Valid(s) && !s.isRunning && s.timeLeft == 0
    ensures Run(s, [StartPressed, IntervalFired]) ==
              Some(s.(sessionCount := s.sessionCount + (if s.mode == Work then 1 else 0)))
  {
    var t := Start(s);
    assert Run(s, [StartPressed, IntervalFired]) == Run(t, [IntervalFired]);
    RunSingle(t, IntervalFired);
  }

  /** Toggling the mode twice gives the original mode with its full preset,
      whatever was left of the countdown. */
  lemma DoubleTogglePress(s: TimerState)
    requires Valid(s)
    ensures Run(s, [ModeTogglePressed, ModeTogglePressed]) == Some(Reset(s))
  {
    ToggleTwiceIsReset(s);
    var t := ToggleMode(s);
    assert Run(s, [ModeTogglePressed, ModeTogglePressed]) == Run(t, [ModeTogglePressed]);
    RunSingle(t, ModeTogglePressed);
  }

}
