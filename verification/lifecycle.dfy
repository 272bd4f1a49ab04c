/** The whole screen as an event-driven system: the in-memory state plus the
    preference store, driven by button presses, countdown callbacks and the
    screen stopping and starting, each at a wall-clock time. */
module Lifecycle {
  import opened TimerModel
  import opened Transitions
  import opened Persistence

  datatype System = System(mem: TimerState, prefs: Prefs)

  datatype Event =
    | SetPressed(input: string)
    | StartPressed
    | TogglePressed
    | ResetPressed
    | CountdownTick(left: int)
    | CountdownFinish
    | ScreenStop
    | ScreenStart(recreated: bool, loadedAt: int)
      // a new instance after a rotation, or the same one; `loadedAt` is the
      // clock read that computes what is left, the event's own time the read
      // taken when a running countdown is started again

  datatype Timed = Timed(at: int, event: Event)

  /** The events the running program can deliver in a state: the countdown
      reports ticks only while running, each no larger than what was left
      and never negative. */
  predicate Enabled(sys: System, e: Event) {
    e.CountdownTick? ==> sys.mem.active && 0 <= e.left <= sys.mem.remaining
  }

  /** Only stopping writes the store, and stopping leaves the screen's
      fields alone. */
  function Step(sys: System, e: Event, now: int): (r: System)
    ensures e.ScreenStop? ==> r.mem == sys.mem
    ensures !e.ScreenStop? ==> r.prefs == sys.prefs
  {
    match e
    case SetPressed(input) => sys.(mem := SetClicked(sys.mem, input).state)
    case StartPressed => sys.(mem := StartTimer(sys.mem, now).state)
    case TogglePressed => sys.(mem := ToggleClicked(sys.mem, now).state)
    case ResetPressed => sys.(mem := ResetTimer(sys.mem))
    case CountdownTick(left) => sys.(mem := Tick(sys.mem, left))
    case CountdownFinish => sys.(mem := Finish(sys.mem))
    case ScreenStop => sys.(prefs := OnStop(sys.mem, sys.prefs))
    case ScreenStart(recreated, loadedAt) =>
      sys.(mem := OnStart(if recreated then Create() else sys.mem, sys.prefs, loadedAt, now).state)
  }

  /** The earliest clock read an event makes. */
  function FirstRead(e: Event, now: int): int {
    if e.ScreenStart? then e.loadedAt else now
  }

  /** Both the screen's fields and what the store would reload are valid. */
  predicate Inv(sys: System, now: int) {
    ValidAt(sys.mem, now) && ValidAt(Saved(sys.prefs), now)
  }

  /** Every enabled event keeps the invariant: the running and paused flags
      are never both set and the remaining time stays within the cap. The
      invariant is assumed at some time `before` no later than the event's
      first clock read. */
  lemma {:induction false} StepPreservesInv(sys: System, e: Event, before: int, now: int)
    requires Inv(sys, before) && before <= FirstRead(e, now) <= now && Enabled(sys, e)
    ensures Inv(Step(sys, e, now), now)
  {
    ValidAtLater(Saved(sys.prefs), before, now);
    match e
    case ScreenStop =>
      ValidAtLater(sys.mem, before, now);
      SavedAfterStop(sys.mem, sys.prefs);
    case ScreenStart(recreated, loadedAt) =>
      OnStartPreservesValid(if recreated then Create() else sys.mem, sys.prefs, before, loadedAt, now);
    case _ =>
      ValidAtLater(sys.mem, before, now);
  }

  /** Clock reads never go backwards: each event's first read is no earlier
      than the previous event's time (or `since` for the first event), and
      no later than its own. */
  predicate Chronological(trace: seq<Timed>, since: int)
    decreases |trace|
  {
    |trace| == 0 ||
    (since <= FirstRead(trace[0].event, trace[0].at) <= trace[0].at &&
     Chronological(trace[1..], trace[0].at))
  }

  predicate Admissible(sys: System, trace: seq<Timed>)
    decreases |trace|
  {
    |trace| == 0 ||
    (Enabled(sys, trace[0].event) && Admissible(Step(sys, trace[0].event, trace[0].at), trace[1..]))
  }

  function Run(sys: System, trace: seq<Timed>): System
    decreases |trace|
  {
    if |trace| == 0 then sys else Run(Step(sys, trace[0].event, trace[0].at), trace[1..])
  }

  function LastTime(trace: seq<Timed>, since: int): int {
    if |trace| == 0 then since else trace[|trace| - 1].at
  }

  /** The initial screen, with nothing ever saved, satisfies the invariant. */
  lemma InitialInv(now: int)
    ensures Inv(System(Create(), EmptyPrefs), now)
  {
  }

  /** Along any admissible, chronological run the invariant holds at the time
      of the last event. */
  lemma {:induction false} RunPreservesInv(sys: System, trace: seq<Timed>, since: int)
    requires Inv(sys, since) && Admissible(sys, trace) && Chronological(trace, since)
    ensures Inv(Run(sys, trace), LastTime(trace, since))
    decreases |trace|
  {
    if |trace| > 0 {
      var first := trace[0];
      StepPreservesInv(sys, first.event, since, first.at);
      var rest := trace[1..];
      RunPreservesInv(Step(sys, first.event, first.at), rest, first.at);
      if |rest| > 0 {
        assert LastTime(rest, first.at) == LastTime(trace, since);
      }
    }
  }
}
