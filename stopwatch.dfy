/** The stopwatch engine: elapsed milliseconds, whether it is running, the
    stored interval handle and the 10 ms interval it has scheduled with the
    runtime. As for the countdown, pure step functions give the behaviour and
    the class Stopwatch is proved to perform them on its fields. */
module StopwatchEngine {
  import opened Intervals
  import opened Clock

  /** Milliseconds added by each firing of the interval. */
  const TICK_MS := 10

  datatype State = State(
    time: int,
    isRunning: bool,
    intervalId: Option<Handle>,
    scheduled: Option<Handle>,
    nextHandle: Handle)

  /** The elapsed time is a non-negative multiple of 10 ms; the engine runs
      exactly while an interval is scheduled, and the stored handle is always
      the scheduled one. */
  predicate Inv(s: State) {
    && s.time >= 0 && s.time % TICK_MS == 0
    && (s.isRunning <==> s.scheduled.Some?)
    && s.intervalId == s.scheduled
    && (s.scheduled.Some? ==> s.scheduled.value < s.nextHandle)
  }

  function Mounted(firstHandle: Handle): State {
    State(0, false, None, None, firstHandle)
  }

  // ---- The handlers, as steps on the state ----

  /** startTimer: ignored while running; otherwise a fresh 10 ms interval is
      scheduled and its handle stored. */
  function Start(s: State): State {
    if s.isRunning then s
    else
      var id := s.nextHandle;
      s.(intervalId := Some(id), scheduled := Some(id), nextHandle := id + 1, isRunning := true)
  }

  /** The interval's callback adds 10 ms, whatever time really passed. */
  function Tick(s: State): State
    requires s.scheduled.Some?
  {
    s.(time := s.time + TICK_MS)
  }

  /** pauseTimer: ignored unless running with a stored handle; otherwise the
      interval is cancelled, the handle dropped and the engine stopped. */
  function Pause(s: State): State {
    if !s.isRunning || s.intervalId.None? then s
    else s.(scheduled := Cancel(s.scheduled, s.intervalId.value), intervalId := None, isRunning := false)
  }

  /** resetTimer: any stored handle is cancelled and dropped, the time goes
      back to 0 and the engine stops. */
  function Reset(s: State): State {
    var s' := if s.intervalId.Some? then s.(scheduled := Cancel(s.scheduled, s.intervalId.value), intervalId := None) else s;
    s'.(time := 0, isRunning := false)
  }

  // ---- Event traces ----

  datatype Event = StartPressed | IntervalFired | PausePressed | ResetPressed

  /** One event; the interval fires only while it is scheduled. */
  function Step(s: State, e: Event): State {
    match e
    case StartPressed => Start(s)
    case IntervalFired => if s.scheduled.Some? then Tick(s) else s
    case PausePressed => Pause(s)
    case ResetPressed => Reset(s)
  }

  function Run(s: State, events: seq<Event>): State
    decreases |events|
  {
    if events == [] then s else Run(Step(s, events[0]), events[1..])
  }

  /** k firings of the interval in a row. */
  function Ticks(k: nat): seq<Event> {
    seq(k, _ => IntervalFired)
  }

  lemma {:induction false} RunAppend(s: State, a: seq<Event>, b: seq<Event>)
    ensures Run(s, a + b) == Run(Run(s, a), b)
    decreases |a|
  {
    if a == [] {
      assert a + b == b;
    } else {
      assert (a + b)[0] == a[0];
      assert (a + b)[1..] == a[1..] + b;
      RunAppend(Step(s, a[0]), a[1..], b);
    }
  }

  // ---- What each handler does ----

  lemma StartIsGuarded(s: State)
    requires Inv(s)
    ensures s.isRunning ==> Start(s) == s
    ensures !s.isRunning ==>
      var r := Start(s);
      r.isRunning && r.scheduled == Some(s.nextHandle) && r.intervalId == r.scheduled
      && r.intervalId != s.intervalId && r.time == s.time
    ensures Inv(Start(s))
  {
  }

  lemma TickAddsTen(s: State)
    requires Inv(s) && s.scheduled.Some?
    ensures Tick(s).time == s.time + TICK_MS
    ensures Tick(s).isRunning && Tick(s).scheduled == s.scheduled
    ensures Inv(Tick(s))
  {
  }

  lemma PauseSpec(s: State)
    requires Inv(s)
    ensures !s.isRunning ==> Pause(s) == s
    ensures s.isRunning ==>
      var r := Pause(s);
      !r.isRunning && r.scheduled.None? && r.intervalId.None? && r.time == s.time
    ensures Pause(Pause(s)) == Pause(s)
    ensures Inv(Pause(s))
  {
  }

  lemma ResetSpec(s: State)
    requires Inv(s)
    ensures var r := Reset(s);
      r.time == 0 && !r.isRunning && r.scheduled.None? && r.intervalId.None?
    ensures Reset(Reset(s)) == Reset(s)
    ensures Inv(Reset(s))
  {
  }

  // ---- Properties of whole traces ----

  /** Every reachable state keeps the invariant: in particular the time is
      always a non-negative multiple of 10 ms. */
  lemma {:induction false} RunKeepsInvariant(s: State, events: seq<Event>)
    requires Inv(s)
    ensures Inv(Run(s, events))
    decreases |events|
  {
    if events != [] {
      match events[0] {
        case StartPressed => StartIsGuarded(s);
        case IntervalFired => if s.scheduled.Some? { TickAddsTen(s); }
        case PausePressed => PauseSpec(s);
        case ResetPressed => ResetSpec(s);
      }
      RunKeepsInvariant(Step(s, events[0]), events[1..]);
    }
  }

  /** Once no interval is scheduled, the passing of time changes nothing. */
  lemma {:induction false} IdleIgnoresTicks(s: State, k: nat)
    requires s.scheduled.None?
    ensures Run(s, Ticks(k)) == s
    decreases k
  {
    if k > 0 {
      assert Ticks(k)[1..] == Ticks(k - 1);
      IdleIgnoresTicks(s, k - 1);
    }
  }

  /** While running, k firings add exactly 10·k ms and change nothing else. */
  lemma {:induction false} TicksAccumulate(s: State, k: nat)
    requires Inv(s) && s.isRunning
    ensures Run(s, Ticks(k)) == s.(time := s.time + TICK_MS * k)
    decreases k
  {
    if k > 0 {
      assert Ticks(k)[0] == IntervalFired;
      assert Ticks(k)[1..] == Ticks(k - 1);
      TickAddsTen(s);
      TicksAccumulate(Tick(s), k - 1);
    }
  }

  /** Reset, start, and k firings, from any reachable state, give 10·k ms. */
  lemma FromResetTicks(s: State, k: nat)
    requires Inv(s)
    ensures var r := Run(s, [ResetPressed, StartPressed] + Ticks(k));
      r.time == TICK_MS * k && r.isRunning
  {
    var s' := Start(Reset(s));
    ResetSpec(s);
    StartIsGuarded(Reset(s));
    RunAppend(s, [ResetPressed, StartPressed], Ticks(k));
    assert [ResetPressed, StartPressed][1..] == [StartPressed];
    assert Run(Reset(s), [StartPressed]) == Run(s', []);
    assert Run(s, [ResetPressed, StartPressed]) == s';
    TicksAccumulate(s', k);
  }

  // ---- The display ----

  /** The three fields of the mm:ss:cc display: Math.floor(time / 60000),
      Math.floor((time % 60000) / 1000) and Math.floor((time % 1000) / 10). */
  function Fields(t: nat): (f: (nat, nat, nat))
    ensures f.1 < 60 && f.2 < 100
    ensures f.0 * 60000 + f.1 * 1000 + f.2 * 10 + t % 10 == t
  {
    var minutes := t / 60000;
    var rest := t % 60000;
    var seconds := rest / 1000;
    var centis := (t % 1000) / 10;
    assert t == minutes * 60000 + rest;
    assert rest == seconds * 1000 + rest % 1000;
    assert rest % 1000 == t % 1000 by {
      assert t == (minutes * 60 + seconds) * 1000 + rest % 1000;
    }
    assert t % 1000 == centis * 10 + t % 10 by {
      assert t == (minutes * 6000 + seconds * 100 + centis) * 10 + (t % 1000) % 10;
    }
    (minutes, seconds, centis)
  }

  function FormatMmSsCc(t: nat): string {
    var f := Fields(t);
    Join3(f.0, f.1, f.2)
  }

  /** The display shows Math.floor(t / 60000) minutes, seconds below 60
      and hundredths below 100. */
  lemma FormatMmSsCcReadsBack(t: nat)
    ensures |FormatMmSsCc(t)| >= 8
    ensures Shows3(FormatMmSsCc(t), t / 60000, (t % 60000) / 1000, (t % 1000) / 10)
    ensures (t % 60000) / 1000 < 60 && (t % 1000) / 10 < 100
  {
    var f := Fields(t);
    assert f == (t / 60000, (t % 60000) / 1000, (t % 1000) / 10);
    Join3ReadsBack(f.0, f.1, f.2);
  }

  /** The milliseconds an mm:ss:cc display stands for. */
  function MillisShown(r: string): int
    requires |r| >= 6
  {
    Value(r[..|r| - 6]) * 60000 + Value(r[|r| - 5..|r| - 3]) * 1000 + Value(r[|r| - 2..]) * TICK_MS
  }

  /** A display of a, b and c stands for a minutes, b seconds and c
      hundredths. */
  lemma ShownFields(r: string, a: int, b: int, c: int)
    requires Shows3(r, a, b, c)
    ensures MillisShown(r) == a * 60000 + b * 1000 + c * TICK_MS
  {
  }

  /** For a whole number of hundredths, which every reachable time is, the
      display gives the elapsed time back exactly. */
  lemma FormatMmSsCcRecombines(t: nat)
    requires t % TICK_MS == 0
    ensures |FormatMmSsCc(t)| >= 8 && MillisShown(FormatMmSsCc(t)) == t
  {
    var f := Fields(t);
    FormatMmSsCcReadsBack(t);
    assert f == (t / 60000, (t % 60000) / 1000, (t % 1000) / 10);
    ShownFields(FormatMmSsCc(t), f.0, f.1, f.2);
  }

  lemma FormatMmSsCcExample()
    ensures FormatMmSsCc(1500) == "00:01:50"
  {
    assert Fields(1500) == (0, 1, 50);
    assert Decimal(1) == "1" && Decimal(0) == "0";
    assert Decimal(50) == Decimal(5) + ['0'];
  }

  // ---- The component ----

  class Stopwatch {
    var time: int
    var isRunning: bool
    var intervalId: Option<Handle>
    ghost var scheduled: Option<Handle>
    var nextHandle: Handle

    ghost function Snapshot(): State
      reads this
    {
      State(time, isRunning, intervalId, scheduled, nextHandle)
    }

    ghost predicate Valid()
      reads this
    {
      Inv(Snapshot())
    }

    /** Mounting: zero elapsed time, idle, no interval. */
    constructor (firstHandle: Handle)
      ensures Valid() && Snapshot() == Mounted(firstHandle)
    {
      time, isRunning := 0, false;
      intervalId, scheduled, nextHandle := None, None, firstHandle;
    }

    method StartTimer()
      requires Valid()
      modifies this
      ensures Valid()
      ensures Snapshot() == Start(old(Snapshot()))
    {
      if isRunning {
        return;
      }
      var id := nextHandle;
      nextHandle := nextHandle + 1;
      scheduled := Some(id);
      intervalId := Some(id);
      isRunning := true;
    }

    /** One firing of the scheduled interval. */
    method OnTick()
      requires Valid() && scheduled.Some?
      modifies this
      ensures Valid()
      ensures Snapshot() == Tick(old(Snapshot()))
    {
      time := time + TICK_MS;
    }

    method PauseTimer()
      requires Valid()
      modifies this
      ensures Valid()
      ensures Snapshot() == Pause(old(Snapshot()))
    {
      if !isRunning || intervalId.None? {
        return;
      }
      scheduled := Cancel(scheduled, intervalId.value);
      intervalId := None;
      isRunning := false;
    }

    method ResetTimer()
      requires Valid()
      modifies this
      ensures Valid()
      ensures Snapshot() == Reset(old(Snapshot()))
    {
      if intervalId.Some? {
        scheduled := Cancel(scheduled, intervalId.value);
        intervalId := None;
      }
      time := 0;
      isRunning := false;
    }

    /** The display shows the minutes, the seconds and the hundredths of the
        elapsed time, and reads back as exactly that time. */
    function FormattedTime(): (r: string)
      reads this
      requires Valid()
      ensures Shows3(r, time / 60000, (time % 60000) / 1000, (time % 1000) / 10)
      ensures |r| >= 8 && MillisShown(r) == time
    {
      FormatMmSsCcReadsBack(time);
      FormatMmSsCcRecombines(time);
      FormatMmSsCc(time)
    }
  }

  /** A mounted stopwatch, started and left to k firings of its interval. */
  method RunStopwatch(k: nat) returns (time: int, running: bool, display: string)
    ensures time == TICK_MS * k && running
    ensures k == 150 ==> display == "00:01:50"
  {
    var w := new Stopwatch(1);
    w.StartTimer();
    var i := 0;
    while i < k
      invariant 0 <= i <= k
      invariant w.Valid() && w.isRunning && w.time == TICK_MS * i
    {
      w.OnTick();
      i := i + 1;
    }
    time, running := w.time, w.isRunning;
    display := w.FormattedTime();
    FormatMmSsCcExample();
  }
}
