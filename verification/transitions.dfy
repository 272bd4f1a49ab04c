/** The screen's actions on the timer state: set, start, pause, the
    pause/resume toggle, reset, and the countdown's tick and finish callbacks.
    Each is a pure function of the state (and of `now` where the source reads
    the clock). */
module Transitions {
  import opened Outcomes
  import opened TimerModel
  import opened MinutesInput

  /** `setTimer`: store the duration, capped at 100 hours, as both the start
      time and the time remaining. Flags and end time are left alone. */
  function SetTimer(s: TimerState, ms: int): (r: TimerState)
    ensures r.startTime <= ms && r.startTime <= MaxDuration
    ensures r.startTime == ms || r.startTime == MaxDuration
    ensures r.remaining == r.startTime
    ensures r.endTime == s.endTime && r.active == s.active && r.paused == s.paused
  {
    var capped := if ms <= MaxDuration then ms else MaxDuration;
    s.(startTime := capped, remaining := capped)
  }

  /** The Set button: validate the minutes field, then set the timer. A
      refused input shows its message and changes nothing. */
  function SetClicked(s: TimerState, input: string): (r: Response)
    ensures ParseMinutes(input).Err? ==> r.state == s && r.toast == Some(ParseMinutes(input).error)
    ensures ParseMinutes(input).Ok? ==>
      var ms := ParseMinutes(input).value;
      && r.toast.None?
      && 0 < r.state.remaining <= MaxDuration
      && r.state.remaining == (if ms <= MaxDuration then ms else MaxDuration)
      && r.state.startTime == r.state.remaining
      && r.state.endTime == s.endTime
      && r.state.active == s.active && r.state.paused == s.paused
  {
    match ParseMinutes(input)
    case Err(toast) => Response(s, Some(toast))
    case Ok(time) => Response(SetTimer(s, time), None)
  }

  /** `startTimer`: the end time is recomputed from the clock before the
      check for an unset duration, so even a refused start moves it. */
  function StartTimer(s: TimerState, now: int): (r: Response)
    ensures r.state.endTime == now + s.remaining
    ensures r.state.startTime == s.startTime && r.state.remaining == s.remaining
    ensures s.remaining == NoTimeSet ==>
      r.toast == Some(InputTimeFirst) && r.state.active == s.active && r.state.paused == s.paused
    ensures s.remaining != NoTimeSet ==> r.toast.None? && r.state.active && !r.state.paused
  {
    var timed := s.(endTime := now + s.remaining);
    if s.remaining == NoTimeSet then
      Response(timed, Some(InputTimeFirst))
    else
      Response(timed.(active := true, paused := false), None)
  }

  /** `pauseTimer`: stop counting, keep every time field. */
  function PauseTimer(s: TimerState): (r: TimerState)
    ensures !r.active && r.paused
    ensures r.startTime == s.startTime && r.endTime == s.endTime && r.remaining == s.remaining
  {
    s.(active := false, paused := true)
  }

  /** The pause/resume button: pause a running countdown, otherwise start.
      A start writes the end time before its sentinel check, so even a
      refused start leaves the end time at `now - 1`. */
  function ToggleClicked(s: TimerState, now: int): (r: Response)
    ensures s.active ==>
      && r.toast.None? && !r.state.active && r.state.paused
      && r.state.startTime == s.startTime && r.state.endTime == s.endTime
      && r.state.remaining == s.remaining
    ensures !s.active && s.remaining != NoTimeSet ==>
      && r.toast.None? && r.state.active && !r.state.paused
      && r.state.remaining == s.remaining && r.state.startTime == s.startTime
    ensures !s.active && s.remaining == NoTimeSet ==>
      && r.toast == Some(InputTimeFirst) && !r.state.active && r.state.paused == s.paused
      && r.state.startTime == s.startTime && r.state.remaining == NoTimeSet
    ensures !s.active ==> r.state.endTime == now + s.remaining
  {
    if s.active then Response(PauseTimer(s), None) else StartTimer(s, now)
  }

  /** `resetTimer`: stop, clear both flags and forget the remaining time; the
      start and end times are deliberately left as they were. */
  function ResetTimer(s: TimerState): (r: TimerState)
    ensures !r.active && !r.paused && r.remaining == NoTimeSet
    ensures r.startTime == s.startTime && r.endTime == s.endTime
  {
    s.(active := false, paused := false, remaining := NoTimeSet)
  }

  /** The countdown's `onTick(l)`: `l` milliseconds are left. */
  function Tick(s: TimerState, left: int): (r: TimerState)
    ensures r.remaining == left
    ensures r.startTime == s.startTime && r.endTime == s.endTime
    ensures r.active == s.active && r.paused == s.paused
  {
    s.(remaining := left)
  }

  /** The countdown's `onFinish`: neither running nor paused any more. */
  function Finish(s: TimerState): (r: TimerState)
    ensures !r.active && !r.paused
    ensures r.startTime == s.startTime && r.endTime == s.endTime && r.remaining == s.remaining
  {
    s.(active := false, paused := false)
  }

  // ---- Relations between the actions ----

  /** Reset is idempotent. */
  lemma ResetIdempotent(s: TimerState)
    ensures ResetTimer(ResetTimer(s)) == ResetTimer(s)
  {
  }

  /** After a reset, start is refused until a duration is set again. */
  lemma StartAfterResetRefused(s: TimerState, now: int)
    ensures StartTimer(ResetTimer(s), now).toast == Some(InputTimeFirst)
    ensures !StartTimer(ResetTimer(s), now).state.active
  {
  }

  /** Pause followed by reset leaves the countdown fields of a fresh screen. */
  lemma PauseThenResetIsFresh(s: TimerState)
    ensures var r := ResetTimer(PauseTimer(s));
      r.remaining == Create().remaining && r.active == Create().active && r.paused == Create().paused
  {
  }

  /** Pausing and then pressing the toggle again resumes exactly as a start
      from the time that was left. */
  lemma PauseThenResume(s: TimerState, pausedAt: int, resumedAt: int)
    requires Valid(s) && s.active
    ensures ToggleClicked(ToggleClicked(s, pausedAt).state, resumedAt) == StartTimer(s, resumedAt)
    ensures ToggleClicked(s, pausedAt).state.remaining == s.remaining
  {
  }

  /** A set followed by a start runs the (capped) duration from `now`. */
  lemma SetThenStart(s: TimerState, input: string, now: int)
    requires ParseMinutes(input).Ok?
    ensures var r := StartTimer(SetClicked(s, input).state, now);
      var ms := ParseMinutes(input).value;
      && r.toast.None? && r.state.active && !r.state.paused
      && r.state.remaining == (if ms <= MaxDuration then ms else MaxDuration)
      && r.state.endTime == now + r.state.remaining
  {
  }
}
