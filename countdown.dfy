/** The countdown engine: a configured duration, the seconds left, whether it
    is running, the stored interval handle and the one-second interval it has
    scheduled with the runtime. The engine's behaviour is given by pure step
    functions over a state value; the class Countdown keeps the same state in
    fields and its handlers are proved to perform exactly those steps. */
module CountdownEngine {
  import opened Intervals
  import opened Clock

  /** The duration a freshly mounted countdown starts with. */
  const INITIAL_SECONDS := 60

  /** `intervalId` is the component's stored handle; `scheduled` is the
      interval the runtime still fires for this engine; `nextHandle` stands
      for the runtime's supply of fresh handles; `cues` counts the
      completion sounds requested. */
  datatype State = State(
    totalTime: int,
    timeLeft: int,
    isRunning: bool,
    intervalId: Option<Handle>,
    scheduled: Option<Handle>,
    nextHandle: Handle,
    cues: nat)

  /** The engine runs exactly while an interval is scheduled, the stored
      handle names that interval, and every stored handle, stale or not,
      came from the runtime's supply. */
  predicate Inv(s: State) {
    && (s.isRunning <==> s.scheduled.Some?)
    && (s.scheduled.Some? ==> s.intervalId == s.scheduled)
    && (s.intervalId.Some? ==> s.intervalId.value < s.nextHandle)
  }

  /** The remaining time lies between zero and the duration. */
  predicate Bounded(s: State) {
    0 <= s.timeLeft <= s.totalTime
  }

  /** The integer basis of the progress bar: seconds already counted down. */
  function Elapsed(s: State): (e: int)
    ensures Bounded(s) ==> 0 <= e <= s.totalTime
    ensures s.totalTime - e == s.timeLeft
  {
    s.totalTime - s.timeLeft
  }

  function Mounted(firstHandle: Handle): State {
    State(INITIAL_SECONDS, INITIAL_SECONDS, false, None, None, firstHandle, 0)
  }

  // ---- The handlers, as steps on the state ----

  /** handleTimeChange: both the duration and the remaining time take the
      new value; nothing checks whether the engine is running. */
  function Configure(s: State, seconds: int): State {
    s.(totalTime := seconds, timeLeft := seconds)
  }

  /** startTimer: ignored while running or when no time is left; otherwise a
      fresh one-second interval is scheduled and its handle stored. */
  function Start(s: State): State {
    if s.isRunning || s.timeLeft <= 0 then s
    else
      var id := s.nextHandle;
      s.(intervalId := Some(id), scheduled := Some(id), nextHandle := id + 1, isRunning := true)
  }

  /** The interval's callback: from one second or less the count ends at 0,
      the interval cancels itself, the engine stops and the completion cue
      is requested; the stored handle is left as it was. Otherwise one
      second is taken off. */
  function Tick(s: State): State
    requires s.scheduled.Some?
  {
    if s.timeLeft <= 1 then
      s.(scheduled := Cancel(s.scheduled, s.scheduled.value), isRunning := false,
         cues := s.cues + 1, timeLeft := 0)
    else
      s.(timeLeft := s.timeLeft - 1)
  }

  /** pauseTimer: ignored unless running with a stored handle; otherwise the
      interval is cancelled, the handle dropped and the engine stopped. */
  function Pause(s: State): State {
    if !s.isRunning || s.intervalId.None? then s
    else s.(scheduled := Cancel(s.scheduled, s.intervalId.value), intervalId := None, isRunning := false)
  }

  /** resetTimer: any stored handle is cancelled and dropped, the remaining
      time goes back to the duration and the engine stops. */
  function Reset(s: State): State {
    var s' := if s.intervalId.Some? then s.(scheduled := Cancel(s.scheduled, s.intervalId.value), intervalId := None) else s;
    s'.(timeLeft := s.totalTime, isRunning := false)
  }

  // ---- Event traces ----

  datatype Event = TimeChanged(seconds: int) | StartPressed | IntervalFired | PausePressed | ResetPressed

  /** One event; the interval fires only while it is scheduled, so a firing
      after cancellation changes nothing. */
  function Step(s: State, e: Event): State {
    match e
    case TimeChanged(n) => Configure(s, n)
    case StartPressed => Start(s)
    case IntervalFired => if s.scheduled.Some? then Tick(s) else s
    case PausePressed => Pause(s)
    case ResetPressed => Reset(s)
  }

  function Run(s: State, events: seq<Event>): State
    decreases |events|
  {
    if events == [] then s else Run(Step(s, events[0]), events[1..])
  }

  /** k firings of the interval in a row. */
  function Ticks(k: nat): seq<Event> {
    seq(k, _ => IntervalFired)
  }

  lemma {:induction false} RunAppend(s: State, a: seq<Event>, b: seq<Event>)
    ensures Run(s, a + b) == Run(Run(s, a), b)
    decreases |a|
  {
    if a == [] {
      assert a + b == b;
    } else {
      assert (a + b)[0] == a[0];
      assert (a + b)[1..] == a[1..] + b;
      RunAppend(Step(s, a[0]), a[1..], b);
    }
  }

  // ---- What each handler does ----

  lemma ConfigureIgnoresRunState(s: State, seconds: int)
    ensures var r := Configure(s, seconds);
      r.totalTime == seconds && r.timeLeft == seconds
      && r.isRunning == s.isRunning && r.scheduled == s.scheduled && r.intervalId == s.intervalId
      && r.cues == s.cues
      && (Inv(s) ==> Inv(r))
      && (seconds >= 0 ==> Bounded(r))
  {
  }

  lemma StartIsGuarded(s: State)
    requires Inv(s)
    ensures s.isRunning || s.timeLeft <= 0 ==> Start(s) == s
    ensures !s.isRunning && s.timeLeft > 0 ==>
      var r := Start(s);
      r.isRunning && r.scheduled == Some(s.nextHandle) && r.intervalId == r.scheduled
      && r.intervalId != s.intervalId
      && r.timeLeft == s.timeLeft && r.totalTime == s.totalTime && r.cues == s.cues
    ensures Inv(Start(s)) && (Bounded(s) ==> Bounded(Start(s)))
  {
  }

  lemma TickCountsDown(s: State)
    requires Inv(s) && s.scheduled.Some?
    ensures s.timeLeft > 1 ==>
      Tick(s) == s.(timeLeft := s.timeLeft - 1) && Tick(s).isRunning
    ensures s.timeLeft <= 1 ==>
      var r := Tick(s);
      r.timeLeft == 0 && !r.isRunning && r.scheduled.None? && r.cues == s.cues + 1
      && r.totalTime == s.totalTime && r.intervalId == s.intervalId && r.intervalId.Some?
    ensures Inv(Tick(s)) && (Bounded(s) ==> Bounded(Tick(s)))
  {
  }

  lemma PauseSpec(s: State)
    requires Inv(s)
    ensures !s.isRunning ==> Pause(s) == s
    ensures s.isRunning ==>
      var r := Pause(s);
      !r.isRunning && r.scheduled.None? && r.intervalId.None?
      && r.timeLeft == s.timeLeft && r.totalTime == s.totalTime && r.cues == s.cues
    ensures Pause(Pause(s)) == Pause(s)
    ensures Inv(Pause(s)) && (Bounded(s) ==> Bounded(Pause(s)))
  {
  }

  lemma ResetSpec(s: State)
    requires Inv(s)
    ensures var r := Reset(s);
      r.timeLeft == s.totalTime && r.totalTime == s.totalTime && !r.isRunning
      && r.scheduled.None? && r.intervalId.None? && r.cues == s.cues
    ensures Reset(Reset(s)) == Reset(s)
    ensures Inv(Reset(s)) && (s.totalTime >= 0 ==> Bounded(Reset(s)))
  {
  }

  /** The component's effect on `intervalId` clears the previously stored
      handle each time the stored handle changes. After any step of a
      reachable engine that changes it, that clearing changes nothing: the
      old handle names no interval that is still scheduled. */
  lemma CleanupAfterStepIsNoOp(s: State, e: Event)
    requires Inv(s)
    ensures var r := Step(s, e);
      r.intervalId != s.intervalId && s.intervalId.Some? ==> Cancel(r.scheduled, s.intervalId.value) == r.scheduled
  {
  }

  // ---- Properties of whole traces ----

  predicate NonNegativeDurations(events: seq<Event>) {
    forall i :: 0 <= i < |events| && events[i].TimeChanged? ==> events[i].seconds >= 0
  }

  /** Every reachable state keeps the handle invariant, and as long as only
      non-negative durations are configured the remaining time stays
      between zero and the duration. */
  lemma {:induction false} RunKeepsInvariants(s: State, events: seq<Event>)
    requires Inv(s)
    ensures var r := Run(s, events);
      Inv(r) && (Bounded(s) && NonNegativeDurations(events) ==> Bounded(r) && 0 <= Elapsed(r) <= r.totalTime)
    decreases |events|
  {
    if events != [] {
      var s' := Step(s, events[0]);
      match events[0] {
        case TimeChanged(n) => ConfigureIgnoresRunState(s, n);
        case StartPressed => StartIsGuarded(s);
        case IntervalFired => if s.scheduled.Some? { TickCountsDown(s); }
        case PausePressed => PauseSpec(s);
        case ResetPressed => ResetSpec(s);
      }
      assert NonNegativeDurations(events) ==> NonNegativeDurations(events[1..]) by {
        if NonNegativeDurations(events) {
          forall i | 0 <= i < |events[1..]| && events[1..][i].TimeChanged?
            ensures events[1..][i].seconds >= 0
          {
            assert events[1..][i] == events[i + 1];
          }
        }
      }
      RunKeepsInvariants(s', events[1..]);
    }
  }

  /** Once no interval is scheduled, the passing of time changes nothing. */
  lemma {:induction false} IdleIgnoresTicks(s: State, k: nat)
    requires s.scheduled.None?
    ensures Run(s, Ticks(k)) == s
    decreases k
  {
    if k > 0 {
      assert Ticks(k)[1..] == Ticks(k - 1);
      IdleIgnoresTicks(s, k - 1);
    }
  }

  /** From a running state with m > 0 seconds left, k < m firings leave m - k
      seconds and the engine running; from the m-th firing on the count is 0,
      the engine is idle and the completion cue has been requested once. */
  lemma {:induction false} TicksCountDown(s: State, k: nat)
    requires Inv(s) && s.isRunning && s.timeLeft > 0
    ensures var r := Run(s, Ticks(k));
      r.totalTime == s.totalTime
      && (k < s.timeLeft ==> r == s.(timeLeft := s.timeLeft - k) && r.isRunning)
      && (k >= s.timeLeft ==> r.timeLeft == 0 && !r.isRunning && r.scheduled.None? && r.cues == s.cues + 1)
    decreases k
  {
    if k > 0 {
      assert Ticks(k)[0] == IntervalFired;
      assert Ticks(k)[1..] == Ticks(k - 1);
      var s' := Tick(s);
      assert Run(s, Ticks(k)) == Run(s', Ticks(k - 1));
      if s.timeLeft > 1 {
        TicksCountDown(s', k - 1);
      } else {
        IdleIgnoresTicks(s', k - 1);
      }
    }
  }

  /** Configuring n > 0 seconds and pressing start, from any reachable state
      (running or not), then letting the interval fire k times. */
  lemma CountdownFromConfigure(s: State, n: int, k: nat)
    requires Inv(s) && n > 0
    ensures var r := Run(s, [TimeChanged(n), StartPressed] + Ticks(k));
      r.totalTime == n
      && (k < n ==> r.timeLeft == n - k && r.isRunning && r.cues == s.cues)
      && (k >= n ==> r.timeLeft == 0 && !r.isRunning && r.scheduled.None? && r.cues == s.cues + 1)
  {
    var s' := Start(Configure(s, n));
    RunAppend(s, [TimeChanged(n), StartPressed], Ticks(k));
    assert [TimeChanged(n), StartPressed][1..] == [StartPressed];
    assert Run(Configure(s, n), [StartPressed]) == Run(s', []);
    assert Run(s, [TimeChanged(n), StartPressed]) == s';
    TicksCountDown(s', k);
  }

  // ---- Derived values ----

  /** The mm:ss display: Math.floor(timeLeft / 60) and timeLeft % 60, each
      rendered with String and padded to two characters, joined by ':'. */
  function FormatMmSs(timeLeft: int): string {
    Join2(timeLeft / 60, JsRem(timeLeft, 60))
  }

  /** The count a mm:ss display stands for: its minutes times 60 plus its
      seconds. */
  function SecondsShown(r: string): int
    requires |r| >= 3
  {
    Value(r[..|r| - 3]) * 60 + Value(r[|r| - 2..])
  }

  /** For a non-negative count the display shows Math.floor(t / 60) minutes
      and t % 60 seconds, which together give the count back; it is five
      characters long below 100 minutes. */
  lemma FormatMmSsReadsBack(t: nat)
    ensures Shows2(FormatMmSs(t), t / 60, t % 60)
    ensures |FormatMmSs(t)| >= 5 && (t < 6000 <==> |FormatMmSs(t)| == 5)
    ensures SecondsShown(FormatMmSs(t)) == t
  {
    var m, sec := t / 60, t % 60;
    assert JsRem(t, 60) == sec;
    Join2ReadsBack(m, sec);
    assert m * 60 + sec == t;
  }

  lemma FormatMmSsExamples()
    ensures FormatMmSs(65) == "01:05"
    ensures FormatMmSs(60) == "01:00"
    ensures FormatMmSs(0) == "00:00"
  {
    assert Decimal(1) == "1" && Decimal(5) == "5" && Decimal(0) == "0";
  }

  /** A negative count, reachable through a negative minutes entry, shows
      the floored minutes and a negative seconds part. */
  lemma FormatMmSsNegative()
    ensures FormatMmSs(-295) == "-5:-55"
  {
    assert -295 / 60 == -5;
    assert Decimal(5) == "5";
    assert Decimal(55) == Decimal(5) + ['5'];
  }

  /** A JavaScript number as far as the progress bar sees it. */
  datatype Percent = NaN | PlusInfinity | MinusInfinity | Finite(value: real)

  /** ((totalTime - timeLeft) / totalTime) * 100, as written: with a zero
      duration the division gives NaN or an infinity. Rounding of floating
      point is not modelled. */
  function ProgressPercent(totalTime: int, timeLeft: int): (p: Percent)
    ensures totalTime != 0 <==> p.Finite?
    ensures p.Finite? ==> p.value * totalTime as real == (totalTime - timeLeft) as real * 100.0
  {
    if totalTime == 0 then
      (if timeLeft == 0 then NaN else if timeLeft > 0 then MinusInfinity else PlusInfinity)
    else
      Finite((totalTime - timeLeft) as real / totalTime as real * 100.0)
  }

  /** A reset countdown of zero seconds, which the editor can configure,
      shows NaN per cent. */
  lemma ProgressOfZeroDuration()
    ensures ProgressPercent(0, 0) == NaN
  {
  }

  /** The progress as evidently intended: a zero duration, which leaves the
      start button disabled, shows 0 per cent instead of NaN. The result is
      always finite, agrees with the quotient as written for every other
      duration, and within the bounds the invariant keeps it lies between 0
      at the start and 100 at the end. */
  function ProgressPercentGuarded(totalTime: int, timeLeft: int): (p: Percent)
    ensures p.Finite?
    ensures totalTime == 0 ==> p.value == 0.0
    ensures totalTime != 0 ==> p.value * totalTime as real == (totalTime - timeLeft) as real * 100.0
    ensures 0 <= timeLeft <= totalTime ==> 0.0 <= p.value <= 100.0
    ensures 0 <= timeLeft == totalTime ==> p.value == 0.0
    ensures timeLeft == 0 && totalTime > 0 ==> p.value == 100.0
  {
    if totalTime == 0 then Finite(0.0)
    else
      var x := (totalTime - timeLeft) as real / totalTime as real;
      assert 0 <= timeLeft <= totalTime ==> 0.0 <= x <= 1.0;
      ProgressPercent(totalTime, timeLeft)
  }

  /** Configure 65 seconds and start: the display reads 01:05; five seconds
      later it reads 01:00 and 500/65 per cent have elapsed. */
  lemma SixtyFiveSecondExample(s: State)
    requires Inv(s)
    ensures var r := Run(s, [TimeChanged(65)]);
      FormatMmSs(r.timeLeft) == "01:05"
    ensures var r := Run(s, [TimeChanged(65), StartPressed] + Ticks(5));
      r.isRunning && FormatMmSs(r.timeLeft) == "01:00"
      && ProgressPercent(r.totalTime, r.timeLeft) == Finite(500.0 / 65.0)
  {
    FormatMmSsExamples();
    CountdownFromConfigure(s, 65, 5);
  }

  // ---- The component ----

  class Countdown {
    var totalTime: int
    var timeLeft: int
    var isRunning: bool
    var intervalId: Option<Handle>
    ghost var scheduled: Option<Handle>
    var nextHandle: Handle
    ghost var cues: nat

    ghost function Snapshot(): State
      reads this
    {
      State(totalTime, timeLeft, isRunning, intervalId, scheduled, nextHandle, cues)
    }

    ghost predicate Valid()
      reads this
    {
      Inv(Snapshot())
    }

    /** Mounting: 60 seconds, idle, no interval. */
    constructor (firstHandle: Handle)
      ensures Valid() && Bounded(Snapshot())
      ensures Snapshot() == Mounted(firstHandle)
    {
      totalTime, timeLeft, isRunning := INITIAL_SECONDS, INITIAL_SECONDS, false;
      intervalId, scheduled, nextHandle, cues := None, None, firstHandle, 0;
    }

    method HandleTimeChange(seconds: int)
      requires Valid()
      modifies this
      ensures Valid()
      ensures Snapshot() == Configure(old(Snapshot()), seconds)
    {
      totalTime := seconds;
      timeLeft := seconds;
    }

    method StartTimer()
      requires Valid()
      modifies this
      ensures Valid()
      ensures Snapshot() == Start(old(Snapshot()))
    {
      if isRunning || timeLeft <= 0 {
        return;
      }
      var id := nextHandle;
      nextHandle := nextHandle + 1;
      scheduled := Some(id);
      intervalId := Some(id);
      isRunning := true;
    }

    /** One firing of the scheduled interval. */
    method OnTick()
      requires Valid() && scheduled.Some?
      modifies this
      ensures Valid()
      ensures Snapshot() == Tick(old(Snapshot()))
    {
      if timeLeft <= 1 {
        scheduled := Cancel(scheduled, scheduled.value);
        isRunning := false;
        cues := cues + 1;
        timeLeft := 0;
      } else {
        timeLeft := timeLeft - 1;
      }
    }

    method PauseTimer()
      requires Valid()
      modifies this
      ensures Valid()
      ensures Snapshot() == Pause(old(Snapshot()))
    {
      if !isRunning || intervalId.None? {
        return;
      }
      scheduled := Cancel(scheduled, intervalId.value);
      intervalId := None;
      isRunning := false;
    }

    method ResetTimer()
      requires Valid()
      modifies this
      ensures Valid()
      ensures Snapshot() == Reset(old(Snapshot()))
    {
      if intervalId.Some? {
        scheduled := Cancel(scheduled, intervalId.value);
        intervalId := None;
      }
      timeLeft := totalTime;
      isRunning := false;
    }

    /** The mm:ss display of the remaining time; while that is not negative
      it shows the minutes and the seconds below 60, which give the
      remaining time back. */
    function FormattedTime(): (r: string)
      reads this
      ensures timeLeft >= 0 ==> Shows2(r, timeLeft / 60, timeLeft % 60)
      ensures timeLeft >= 0 ==> |r| >= 5 && SecondsShown(r) == timeLeft
    {
      if timeLeft >= 0 then
        FormatMmSsReadsBack(timeLeft);
        FormatMmSs(timeLeft)
      else
        FormatMmSs(timeLeft)
    }
  }

  /** A mounted countdown configured with n > 0 seconds, started, and left
      to k <= n firings of its interval: what the display, the run state and
      the sound show. */
  method RunCountdown(n: int, k: nat) returns (left: int, running: bool, ghost cues: nat, display: string)
    requires 0 < n && k <= n
    ensures k < n ==> left == n - k && running && cues == 0
    ensures k == n ==> left == 0 && !running && cues == 1 && display == "00:00"
  {
    var c := new Countdown(1);
    c.HandleTimeChange(n);
    c.StartTimer();
    var i := 0;
    while i < k
      invariant 0 <= i <= k
      invariant c.Valid() && c.totalTime == n
      invariant i < n ==> c.timeLeft == n - i && c.isRunning && c.cues == 0
      invariant i == n ==> c.timeLeft == 0 && !c.isRunning && c.cues == 1
    {
      c.OnTick();
      i := i + 1;
    }
    left, running := c.timeLeft, c.isRunning;
    cues := c.cues;
    display := c.FormattedTime();
    FormatMmSsExamples();
  }
}
