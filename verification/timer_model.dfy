/** The state the timer screen keeps in its fields, the messages it can pop up,
    and the invariant every transition keeps. Times are milliseconds; `now` is
    the wall clock (`System.currentTimeMillis`) passed in explicitly. */
module TimerModel {
  import opened Outcomes

  /** Sentinel for "no time has been set" (remaining) or "never started" (end). */
  const NoTimeSet: int := -1
  /** Longest duration accepted: 100 hours. */
  const MaxDuration: int := 360_000_000
  const MsPerMinute: int := 60_000

  /** The five fields the activity keeps about the countdown. */
  datatype TimerState = TimerState(
    startTime: int,   // duration last set, after capping
    endTime: int,     // wall-clock instant the countdown reaches zero
    remaining: int,   // milliseconds left, or NoTimeSet
    active: bool,     // counting down
    paused: bool)     // stopped mid-countdown, resumable

  /** The short messages the screen shows when an action is refused. */
  datatype Toast =
    | EmptyTime       // "Time cannot be empty"
    | InvalidFormat   // "Invalid format"
    | InputTimeFirst  // "Input a time first"

  /** A user action's effect: the new state and the message shown, if any. */
  datatype Response = Response(state: TimerState, toast: Option<Toast>)

  /** The fields of a newly created screen: both times unset, nothing running;
      the start time keeps Java's default of zero. */
  function Create(): (s: TimerState)
    ensures s.remaining == NoTimeSet && s.endTime == NoTimeSet
    ensures !s.active && !s.paused
    ensures s.startTime == 0
  {
    TimerState(0, NoTimeSet, NoTimeSet, false, false)
  }

  /** The clock-free part of the invariant. */
  predicate Valid(s: TimerState) {
    && 0 <= s.startTime <= MaxDuration
    && (s.remaining == NoTimeSet || 0 <= s.remaining <= MaxDuration)
    && !(s.active && s.paused)
    && (s.remaining == NoTimeSet ==> !s.active && !s.paused)
  }

  /** The invariant at wall-clock time `now`: a running countdown ends no more
      than the cap into the future, so recomputing the remaining time from the
      end time never exceeds the cap. */
  predicate ValidAt(s: TimerState, now: int) {
    Valid(s) && (s.active ==> s.endTime <= now + MaxDuration)
  }

  /** The invariant survives the clock moving forward. */
  lemma ValidAtLater(s: TimerState, now: int, later: int)
    requires ValidAt(s, now) && now <= later
    ensures ValidAt(s, later)
  {
  }
}
