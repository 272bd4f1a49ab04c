/** Saving the five fields when the screen stops (`onStop`) and reloading them
    when it starts again (`onStart`), including the reconciliation of a
    countdown that kept running, by the wall clock, while the screen was
    away. The preference store is two maps, one per value type. */
module Persistence {
  import opened TimerModel
  import opened Transitions

  const StartTimeKey: string := "timer_start_time"
  const EndTimeKey: string := "timer_end_time"
  const TimeRemainingKey: string := "timer_time_remaining"
  const TimerActiveKey: string := "timer_timer_active"
  const TimerPausedKey: string := "timer_timer_paused"

  /** The shared-preferences file: its long and boolean entries. */
  datatype Prefs = Prefs(longs: map<string, int>, bools: map<string, bool>)

  /** A store nothing has been written to yet. */
  const EmptyPrefs: Prefs := Prefs(map[], map[])

  /** Which controls the screen shows: the input surface, or pause/reset. */
  datatype Layout = InputLayout | ControlsLayout

  /** The state after `onStart` and the layout it chose. */
  datatype Resumed = Resumed(state: TimerState, layout: Layout)

  /** `getLong`: the stored entry, or the default when there is none. */
  function GetLong(p: Prefs, key: string, default: int): (r: int)
    ensures key in p.longs ==> r == p.longs[key]
    ensures key !in p.longs ==> r == default
  {
    if key in p.longs then p.longs[key] else default
  }

  /** `getBoolean`: the stored entry, or the default when there is none. */
  function GetBool(p: Prefs, key: string, default: bool): (r: bool)
    ensures key in p.bools ==> r == p.bools[key]
    ensures key !in p.bools ==> r == default
  {
    if key in p.bools then p.bools[key] else default
  }

  /** `onStop`: write the five fields; every other entry is kept. */
  function OnStop(s: TimerState, p: Prefs): (r: Prefs)
    ensures r.longs.Keys == p.longs.Keys + {StartTimeKey, EndTimeKey, TimeRemainingKey}
    ensures r.bools.Keys == p.bools.Keys + {TimerActiveKey, TimerPausedKey}
    ensures forall k :: k in p.longs && k != StartTimeKey && k != EndTimeKey && k != TimeRemainingKey ==>
                          r.longs[k] == p.longs[k]
    ensures forall k :: k in p.bools && k != TimerActiveKey && k != TimerPausedKey ==>
                          r.bools[k] == p.bools[k]
  {
    Prefs(
      p.longs[StartTimeKey := s.startTime][EndTimeKey := s.endTime][TimeRemainingKey := s.remaining],
      p.bools[TimerActiveKey := s.active][TimerPausedKey := s.paused])
  }

  /** The state a store holds, each field read with the default `onStart`
      uses for it (the end time's default of 0 applies when it is read). */
  function Saved(p: Prefs): (s: TimerState)
    ensures StartTimeKey !in p.longs ==> s.startTime == 0
    ensures EndTimeKey !in p.longs ==> s.endTime == 0
    ensures TimeRemainingKey !in p.longs ==> s.remaining == NoTimeSet
    ensures TimerActiveKey !in p.bools ==> !s.active
    ensures TimerPausedKey !in p.bools ==> !s.paused
    ensures StartTimeKey in p.longs ==> s.startTime == p.longs[StartTimeKey]
    ensures EndTimeKey in p.longs ==> s.endTime == p.longs[EndTimeKey]
    ensures TimeRemainingKey in p.longs ==> s.remaining == p.longs[TimeRemainingKey]
    ensures TimerActiveKey in p.bools ==> s.active == p.bools[TimerActiveKey]
    ensures TimerPausedKey in p.bools ==> s.paused == p.bools[TimerPausedKey]
  {
    TimerState(
      GetLong(p, StartTimeKey, 0),
      GetLong(p, EndTimeKey, 0),
      GetLong(p, TimeRemainingKey, NoTimeSet),
      GetBool(p, TimerActiveKey, false),
      GetBool(p, TimerPausedKey, false))
  }

  /** `onStart`: reload the fields into the screen's state `mem`. The clock is
      read twice: once (`now`) to compute what is left of a countdown that was
      running, and once more (`restartAt`) inside `startTimer` when that
      countdown is started again, so the new end time is the saved one moved
      by the time between the two reads. A countdown already past its end is
      stopped at zero. The end time is read from the store only for a running
      countdown; otherwise it keeps its in-memory value. */
  function OnStart(mem: TimerState, p: Prefs, now: int, restartAt: int): (r: Resumed)
    ensures r.layout == InputLayout <==> !r.state.active && !r.state.paused
    ensures r.state.startTime == GetLong(p, StartTimeKey, 0)
    ensures !Saved(p).active ==> r.state == Saved(p).(endTime := mem.endTime)
    ensures Saved(p).active && Saved(p).endTime >= now ==>
      && r.state.active && !r.state.paused
      && r.state.remaining == Saved(p).endTime - now
      && r.state.endTime == Saved(p).endTime + (restartAt - now)
  {
    var loaded := mem.(
      startTime := GetLong(p, StartTimeKey, 0),
      remaining := GetLong(p, TimeRemainingKey, NoTimeSet),
      active := GetBool(p, TimerActiveKey, false),
      paused := GetBool(p, TimerPausedKey, false));
    var s :=
      if loaded.active then
        var end := GetLong(p, EndTimeKey, 0);
        var left := end - now;
        if left < 0 then loaded.(endTime := end, remaining := 0, active := false)
        else StartTimer(loaded.(endTime := end, remaining := left), restartAt).state
      else loaded;
    Resumed(s, if !s.active && !s.paused then InputLayout else ControlsLayout)
  }

  // ---- Save and load ----

  /** The store gives back exactly what was written to it. */
  lemma SavedAfterStop(s: TimerState, p: Prefs)
    ensures Saved(OnStop(s, p)) == s
  {
  }

  /** Stopping and restarting the same screen, with both clock reads at the
      same instant, restores every field, provided a running countdown's end
      time is `now` plus what is left (as it is right after a start). */
  lemma StopStartRoundTrip(s: TimerState, p: Prefs, now: int)
    requires Valid(s)
    requires s.active ==> s.endTime - now == s.remaining
    ensures OnStart(s, OnStop(s, p), now, now).state == s
  {
  }

  /** For a running countdown saved with end time `now` plus what is left,
      reloading restores the remaining time and the flags whatever the second
      clock read is; only the end time depends on it, moving by the gap
      between the two reads. */
  lemma RemainingRestoredAnyRestart(s: TimerState, p: Prefs, now: int, restartAt: int)
    requires Valid(s) && s.active && s.endTime - now == s.remaining
    ensures var r := OnStart(s, OnStop(s, p), now, restartAt).state;
      && r.remaining == s.remaining && r.active && !r.paused && r.startTime == s.startTime
      && r.endTime == s.endTime + (restartAt - now)
  {
    SavedAfterStop(s, p);
  }

  /** A new screen instance (after a rotation) restores the same fields, but
      its end time is the unset sentinel unless the countdown was running. */
  lemma RecreatedRoundTrip(s: TimerState, p: Prefs, now: int)
    requires Valid(s)
    requires s.active ==> s.endTime - now == s.remaining
    ensures OnStart(Create(), OnStop(s, p), now, now).state
      == s.(endTime := if s.active then s.endTime else NoTimeSet)
  {
  }

  /** A store never written to yields the defaults: start time 0, no time
      set, neither running nor paused, and the input surface. */
  lemma LoadEmptyStore(mem: TimerState, now: int, restartAt: int)
    ensures OnStart(mem, EmptyPrefs, now, restartAt)
      == Resumed(TimerState(0, mem.endTime, NoTimeSet, false, false), InputLayout)
  {
  }

  /** A countdown that ran past its end while the screen was away is stopped
      at zero; the paused flag and both times are what was saved. */
  lemma ExpiredWhileAway(mem: TimerState, p: Prefs, now: int, restartAt: int)
    requires Saved(p).active && Saved(p).endTime < now
    ensures var r := OnStart(mem, p, now, restartAt).state;
      && r.remaining == 0 && !r.active && r.paused == Saved(p).paused
      && r.startTime == Saved(p).startTime && r.endTime == Saved(p).endTime
  {
  }

  /** A countdown whose end is exactly at the first clock read is started
      again with nothing left, since only a negative difference counts as
      expired; its end time becomes the second clock read. */
  lemma EndingNowRestarts(mem: TimerState, p: Prefs, now: int, restartAt: int)
    requires Saved(p).active && Saved(p).endTime == now
    ensures var r := OnStart(mem, p, now, restartAt).state;
      r.active && !r.paused && r.remaining == 0 && r.endTime == restartAt
  {
  }

  /** A running countdown restarts from the end time entry in the store: what
      is left is that entry minus the first clock read. */
  lemma StoredEndRead(mem: TimerState, p: Prefs, now: int, restartAt: int)
    requires TimerActiveKey in p.bools && p.bools[TimerActiveKey]
    requires EndTimeKey in p.longs && p.longs[EndTimeKey] >= now
    ensures var r := OnStart(mem, p, now, restartAt).state;
      && r.active && r.remaining == p.longs[EndTimeKey] - now
      && r.endTime == p.longs[EndTimeKey] + (restartAt - now)
  {
  }

  /** Restarting a countdown moves its end time by exactly the gap between
      the two clock reads, whichever way that gap goes, and the new end time
      is the second read plus the time left. */
  lemma DriftOnRestart(mem: TimerState, p: Prefs, now: int, restartAt: int)
    requires Saved(p).active && Saved(p).endTime >= now
    ensures var r := OnStart(mem, p, now, restartAt).state;
      && r.endTime - Saved(p).endTime == restartAt - now
      && r.endTime - restartAt == r.remaining
  {
  }

  /** Start a countdown with `left` milliseconds at time `t`, stop the
      screen and come back `away` milliseconds later, the restart reading the
      clock `lag` milliseconds after that: it is still running with
      `left - away` to go and an end time `lag` later than the original, or,
      if it ran out, it is stopped at zero with the original end time. */
  lemma {:induction false} ResumeAfterAway(s: TimerState, mem: TimerState, p: Prefs, t: int, away: nat, lag: nat)
    requires Valid(s) && s.remaining != NoTimeSet
    ensures var started := StartTimer(s, t).state;
      var r := OnStart(mem, OnStop(started, p), t + away, t + away + lag).state;
      && r.active == (away <= s.remaining)
      && r.remaining == (if away <= s.remaining then s.remaining - away else 0)
      && r.endTime == t + s.remaining + (if away <= s.remaining then lag else 0)
      && !r.paused
  {
    var started := StartTimer(s, t).state;
    SavedAfterStop(started, p);
  }

  /** Two sample suspensions: 5000 ms left and 7000 ms away, and 10000 ms
      left and 3000 ms away. */
  lemma AwayExamples(s: TimerState, mem: TimerState, p: Prefs, t: int)
    requires Valid(s)
    ensures s.remaining == 5000 ==>
      var r := OnStart(mem, OnStop(StartTimer(s, t).state, p), t + 7000, t + 7000).state;
      r.remaining == 0 && !r.active
    ensures s.remaining == 10000 ==>
      var r := OnStart(mem, OnStop(StartTimer(s, t).state, p), t + 3000, t + 3000).state;
      r.remaining == 7000 && r.active
  {
    if s.remaining == 5000 {
      ResumeAfterAway(s, mem, p, t, 7000, 0);
    }
    if s.remaining == 10000 {
      ResumeAfterAway(s, mem, p, t, 3000, 0);
    }
  }

  /** Reloading keeps the invariant, provided the clock has not gone back
      since the store was written nor between the two reads. */
  lemma {:induction false} OnStartPreservesValid(mem: TimerState, p: Prefs, saved: int, now: int, restartAt: int)
    requires ValidAt(Saved(p), saved) && saved <= now <= restartAt
    ensures ValidAt(OnStart(mem, p, now, restartAt).state, restartAt)
  {
  }
}
