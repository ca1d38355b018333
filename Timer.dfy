/** The Pomodoro timer of `useTimer`: a countdown anchored to a wall-clock end time that
    cycles through focus, short-break and long-break sessions.

    The clock (`Date.now()`) is the parameter `now`, in milliseconds; the 250 ms interval
    that calls `tick` is the caller calling `Tick`; the completion callback is the session
    type that `Tick` and `CompleteSession` return. */
module Timer {
  import opened Wrappers
  import Text

  datatype SessionType = Focus | ShortBreak | LongBreak

  /** `TimerConfig`: durations in minutes. */
  datatype Config = Config(
    focusDuration: nat,
    shortBreakDuration: nat,
    longBreakDuration: nat,
    pomodorosUntilLongBreak: nat)

  const DefaultConfig := Config(25, 5, 15, 4)

  /** `sessionDuration`: the full length of a session of type `t`, in seconds. */
  function SessionDuration(c: Config, t: SessionType): nat {
    match t
    case Focus => c.focusDuration * 60
    case ShortBreak => c.shortBreakDuration * 60
    case LongBreak => c.longBreakDuration * 60
  }

  /** ECMAScript's `Math.round(ms / 1000)`: the nearest whole number of seconds, a tie
      rounded towards positive infinity. */
  function RoundToSeconds(ms: int): (r: int)
    ensures r * 1000 - 500 <= ms < r * 1000 + 500
  {
    (ms + 500) / 1000
  }

  /** `Math.max(0, Math.round((endTime - now) / 1000))`: whole seconds left until `endTime`. */
  function RemainingAt(endTime: int, now: int): (r: nat)
    ensures r == 0 <==> endTime - now < 500
    ensures r > 0 ==> r * 1000 - 500 <= endTime - now < r * 1000 + 500
  {
    var secs := RoundToSeconds(endTime - now);
    if secs < 0 then 0 else secs
  }

  /** ECMAScript truthiness of `endTime.value`: `null` and `0` are both false. */
  predicate Truthy(endTime: Option<int>) {
    endTime.Some? && endTime.value != 0
  }

  /** `x % n === 0` for non-negative `x` and `n`: when `n` is 0 the remainder is `NaN`,
      which is not equal to 0. */
  predicate IsMultiple(x: nat, n: nat) {
    n != 0 && x % n == 0
  }

  /** The timer's refs, as one value. */
  datatype State = State(
    remaining: nat,
    isRunning: bool,
    sessionType: SessionType,
    completedPomodoros: nat,
    completedBreaks: nat,
    endTime: Option<int>)

  /** The timer runs exactly when it has an end time. */
  predicate Consistent(s: State) {
    s.isRunning <==> s.endTime.Some?
  }

  /** A stopped timer showing the full duration of its session. */
  predicate AtSessionStart(s: State, c: Config) {
    !s.isRunning && s.endTime.None? && s.remaining == SessionDuration(c, s.sessionType)
  }

  /** The state `useTimer` creates. */
  function Initial(c: Config): (s: State)
    ensures Consistent(s) && AtSessionStart(s, c)
    ensures s.sessionType == Focus && s.completedPomodoros == 0 && s.completedBreaks == 0
  {
    State(c.focusDuration * 60, false, Focus, 0, 0, None)
  }

  /** `stop`: the clock halts; nothing but `endTime` and `isRunning` changes. */
  function Stopped(s: State): (r: State)
    ensures Consistent(r) && !r.isRunning
    ensures r.(isRunning := s.isRunning, endTime := s.endTime) == s
  {
    s.(endTime := None, isRunning := false)
  }

  /** `start`: a no-op on a running timer; otherwise the end time is `remaining` seconds
      from `now`. */
  function Started(s: State, now: int): (r: State)
    ensures Consistent(s) ==> Consistent(r)
    ensures s.isRunning ==> r == s
    ensures !s.isRunning ==> r.isRunning && r.endTime == Some(now + s.remaining * 1000)
    ensures r.(isRunning := s.isRunning, endTime := s.endTime) == s
  {
    if s.isRunning then s
    else s.(endTime := Some(now + s.remaining * 1000), isRunning := true)
  }

  /** `pause`: a no-op on a stopped timer; otherwise `remaining` freezes at the seconds
      still left and the clock halts. */
  function Paused(s: State, now: int): (r: State)
    ensures Consistent(s) ==> Consistent(r)
    ensures !s.isRunning ==> r == s
    ensures s.isRunning ==> !r.isRunning && r.endTime.None?
    ensures s.isRunning && Truthy(s.endTime) ==> r.remaining == RemainingAt(s.endTime.value, now)
    ensures s.isRunning && !Truthy(s.endTime) ==> r.remaining == s.remaining
    ensures r.sessionType == s.sessionType
    ensures r.completedPomodoros == s.completedPomodoros && r.completedBreaks == s.completedBreaks
  {
    if !s.isRunning then s
    else
      var captured := if Truthy(s.endTime) then s.(remaining := RemainingAt(s.endTime.value, now)) else s;
      Stopped(captured)
  }

  /** `completeSession`: a finished focus session adds one to `completedPomodoros` and is
      followed by a long break when that count is a multiple of `pomodorosUntilLongBreak`,
      by a short break otherwise; a finished break adds one to `completedBreaks` and is
      followed by focus. The new session starts stopped, at its full duration. */
  function Completed(s: State, c: Config): (r: State)
    ensures Consistent(r) && AtSessionStart(r, c)
    ensures s.sessionType == Focus ==>
      && r.completedPomodoros == s.completedPomodoros + 1
      && r.completedBreaks == s.completedBreaks
      && r.sessionType != Focus
      && (r.sessionType == LongBreak <==> IsMultiple(r.completedPomodoros, c.pomodorosUntilLongBreak))
    ensures s.sessionType != Focus ==>
      && r.completedBreaks == s.completedBreaks + 1
      && r.completedPomodoros == s.completedPomodoros
      && r.sessionType == Focus
  {
    var t := Stopped(s);
    var next :=
      if t.sessionType == Focus then
        var n := t.completedPomodoros + 1;
        t.(completedPomodoros := n,
           sessionType := if IsMultiple(n, c.pomodorosUntilLongBreak) then LongBreak else ShortBreak)
      else
        t.(completedBreaks := t.completedBreaks + 1, sessionType := Focus);
    next.(remaining := SessionDuration(c, next.sessionType))
  }

  /** `tick`: with an end time set, `remaining` is recomputed from the clock, and the session
      completes (its type is reported) exactly when nothing is left. */
  function Ticked(s: State, c: Config, now: int): (r: (State, Option<SessionType>))
    ensures Consistent(s) ==> Consistent(r.0)
    ensures !Truthy(s.endTime) ==> r == (s, None)
    ensures Truthy(s.endTime) ==> (r.1.Some? <==> RemainingAt(s.endTime.value, now) == 0)
    ensures r.1.Some? ==> r.1.value == s.sessionType && r.0 == Completed(s, c)
    ensures Truthy(s.endTime) && r.1.None? ==> r.0 == s.(remaining := RemainingAt(s.endTime.value, now))
  {
    if Truthy(s.endTime) then
      var newRemaining := RemainingAt(s.endTime.value, now);
      var t := s.(remaining := newRemaining);
      if newRemaining <= 0 then (Completed(t, c), Some(s.sessionType)) else (t, None)
    else (s, None)
  }

  /** `reset`: stopped, at the full duration of the current session; nothing else changes. */
  function ResetState(s: State, c: Config): (r: State)
    ensures Consistent(r) && AtSessionStart(r, c)
    ensures r.sessionType == s.sessionType
    ensures r.completedPomodoros == s.completedPomodoros && r.completedBreaks == s.completedBreaks
  {
    var t := Stopped(s);
    t.(remaining := SessionDuration(c, t.sessionType))
  }

  /** `skip`: moves on to the session that completing this one would start, without
      counting it: both counters keep their values. */
  function Skipped(s: State, c: Config): (r: State)
    ensures Consistent(r) && AtSessionStart(r, c)
    ensures r.completedPomodoros == s.completedPomodoros && r.completedBreaks == s.completedBreaks
    ensures r.sessionType == Completed(s, c).sessionType
  {
    var t := Stopped(s);
    var next :=
      if t.sessionType == Focus then
        t.(sessionType :=
             if IsMultiple(t.completedPomodoros + 1, c.pomodorosUntilLongBreak) then LongBreak else ShortBreak)
      else
        t.(sessionType := Focus);
    next.(remaining := SessionDuration(c, next.sessionType))
  }

  /** `setSessionType`: stopped, switched to `type`, at that session's full duration. */
  function WithSessionType(s: State, c: Config, t: SessionType): (r: State)
    ensures Consistent(r) && AtSessionStart(r, c)
    ensures r.sessionType == t
    ensures r.completedPomodoros == s.completedPomodoros && r.completedBreaks == s.completedBreaks
  {
    var u := Stopped(s).(sessionType := t);
    u.(remaining := SessionDuration(c, u.sessionType))
  }

  /** The config watcher: a stopped timer takes the new full duration of its session; a
      running one is left alone. */
  function Reconfigured(s: State, c: Config): (r: State)
    ensures Consistent(s) ==> Consistent(r)
    ensures s.isRunning ==> r == s
    ensures !s.isRunning ==> r.remaining == SessionDuration(c, r.sessionType)
    ensures Consistent(s) && !s.isRunning ==> AtSessionStart(r, c)
    ensures r.(remaining := s.remaining) == s
  {
    if !s.isRunning then s.(remaining := SessionDuration(c, s.sessionType)) else s
  }

  // ---------------------------------------------------------------------------
  // Properties

  /** Division by a positive `n` has a unique quotient and remainder. */
  lemma {:induction false} DivModUnique(y: int, n: int, q: int, m: int)
    requires n > 0 && 0 <= m < n && y == q * n + m
    ensures y / n == q && y % n == m
  {
    var q', m' := y / n, y % n;
    assert y == q' * n + m';
    assert (q - q') * n == m' - m;
    if q > q' {
      MulAtLeast(q - q', n);
    } else if q < q' {
      MulAtLeast(q' - q, n);
    }
  }

  lemma MulAtLeast(a: int, n: int)
    requires a >= 1 && n > 0
    ensures a * n >= n
  {
  }

  lemma {:induction false} SuccessorMultiple(x: nat, n: nat)
    requires n > 0
    ensures (x + 1) % n == 0 <==> x % n == n - 1
  {
    var q, m := x / n, x % n;
    if m == n - 1 {
      DivModUnique(x + 1, n, q + 1, 0);
    } else {
      DivModUnique(x + 1, n, q, m + 1);
    }
  }

  /** Skipping a focus session picks the long break exactly when the completed-focus count is
      one short of a multiple of `pomodorosUntilLongBreak` — the count that completing the
      session would have reached is a multiple. */
  lemma {:induction false} SkipLongBreakBoundary(s: State, c: Config)
    requires c.pomodorosUntilLongBreak > 0
    ensures Skipped(s, c).sessionType == LongBreak <==>
      s.sessionType == Focus && s.completedPomodoros % c.pomodorosUntilLongBreak == c.pomodorosUntilLongBreak - 1
  {
    SuccessorMultiple(s.completedPomodoros, c.pomodorosUntilLongBreak);
  }

  /** Skipping differs from completing only in the two counters. */
  lemma SkipIsUncountedCompletion(s: State, c: Config)
    ensures Skipped(s, c) == Completed(s, c).(completedPomodoros := s.completedPomodoros,
                                              completedBreaks := s.completedBreaks)
  {
  }

  /** A countdown started at `now` reads, `k` whole seconds later, `k` seconds less (never
      below zero): the count is anchored to the end time, not to how often `tick` runs. */
  lemma {:induction false} CountdownAfterWholeSeconds(s: State, now: int, k: nat)
    requires !s.isRunning
    ensures Started(s, now).endTime.Some?
    ensures RemainingAt(Started(s, now).endTime.value, now + 1000 * k) ==
      if k <= s.remaining then s.remaining - k else 0
  {
    var e := now + s.remaining * 1000;
    assert e - (now + 1000 * k) == (s.remaining - k) * 1000;
    RoundWholeSeconds(s.remaining - k);
  }

  lemma {:induction false} RoundWholeSeconds(d: int)
    ensures RoundToSeconds(d * 1000) == d
  {
    var r := RoundToSeconds(d * 1000);
    assert r * 1000 - 500 <= d * 1000 < r * 1000 + 500;
    assert (r - d) * 1000 < 500 && (d - r) * 1000 <= 500;
  }

  /** The remaining time never grows while the clock moves forward. */
  lemma {:induction false} RemainingMonotone(endTime: int, t1: int, t2: int)
    requires t1 <= t2
    ensures RemainingAt(endTime, t2) <= RemainingAt(endTime, t1)
  {
    var a, b := RoundToSeconds(endTime - t1), RoundToSeconds(endTime - t2);
    assert b * 1000 - 500 <= endTime - t2 <= endTime - t1 < a * 1000 + 500;
    assert b < a + 1;
  }

  /** Pausing `k` whole seconds into a session and resuming later leaves exactly the seconds
      not yet spent: elapsed time is counted once. */
  lemma {:induction false} PauseResume(s: State, t0: int, k: nat, t1: int)
    requires !s.isRunning && k <= s.remaining
    requires t0 + s.remaining * 1000 != 0
    ensures var p := Paused(Started(s, t0), t0 + 1000 * k);
      p.remaining == s.remaining - k && !p.isRunning &&
      Started(p, t1).endTime == Some(t1 + (s.remaining - k) * 1000)
  {
    CountdownAfterWholeSeconds(s, t0, k);
  }

  /** A tick at or after the end time completes the session. */
  lemma TickAtEndCompletes(s: State, c: Config, now: int)
    requires Truthy(s.endTime) && s.endTime.value <= now
    ensures Ticked(s, c, now) == (Completed(s, c), Some(s.sessionType))
  {
  }

  // ---------------------------------------------------------------------------
  // formattedTime

  /** `formattedTime`: minutes and seconds, each zero-padded to two digits, joined by ':'. */
  function FormattedTime(remaining: nat): (r: string)
    ensures |r| >= 5 && r[|r| - 3] == ':'
    ensures remaining < 6000 ==> |r| == 5
    ensures remaining >= 600 ==> r[0] != '0'
  {
    var mins, secs := remaining / 60, remaining % 60;
    FaceLayout(TwoDigits(mins), TwoDigits(secs));
    ClockFace(mins, secs)
  }

  lemma FaceLayout(m: string, s: string)
    requires |m| >= 2 && |s| == 2
    ensures |m + ":" + s| == |m| + 3 && (m + ":" + s)[|m|] == ':' && (m + ":" + s)[0] == m[0]
  {
  }

  function ClockFace(mins: nat, secs: nat): string {
    TwoDigits(mins) + ":" + TwoDigits(secs)
  }

  /** `n.toString().padStart(2, '0')`: a numeral of at least two digits that reads back as `n`,
      exactly two below 100. */
  function TwoDigits(n: nat): (r: string)
    ensures |r| >= 2 && Text.AllDigits(r) && Text.DecimalValue(r) == n
    ensures n < 100 ==> |r| == 2
    ensures n >= 10 ==> r == Text.NatToString(n)
  {
    var s := Text.NatToString(n);
    Text.NatToStringLength(n);
    PadTwo(s);
    if |s| == 1 then Text.LeadingZero(s); Text.PadStart(s, 2, '0') else Text.PadStart(s, 2, '0')
  }

  /** Padding to two places adds at most one zero. */
  lemma PadTwo(s: string)
    requires |s| >= 1
    ensures Text.PadStart(s, 2, '0') == if |s| == 1 then "0" + s else s
  {
    if |s| == 1 {
      assert Text.PadStart("0" + s, 2, '0') == "0" + s;
    }
  }

  /** Reads an `MM:SS` clock face back into seconds. */
  function ParseClock(t: string): Option<nat> {
    ParseFields(Text.Split(t, ':'))
  }

  /** A minutes numeral and a two-digit seconds numeral below 60. */
  function ParseFields(parts: seq<string>): Option<nat> {
    if |parts| == 2 && parts[0] != "" && Text.AllDigits(parts[0])
       && |parts[1]| == 2 && Text.AllDigits(parts[1]) && Text.DecimalValue(parts[1]) < 60
    then Some(60 * Text.DecimalValue(parts[0]) + Text.DecimalValue(parts[1]))
    else None
  }

  lemma NoColon(s: string)
    requires Text.AllDigits(s)
    ensures ':' !in s
  {
    forall k | 0 <= k < |s| ensures s[k] != ':' { assert Text.IsDigit(s[k]); }
  }

  /** The clock face is the two numerals joined by ':'. */
  lemma {:induction false} ClockFaceParts(mins: nat, secs: nat)
    ensures Text.Split(ClockFace(mins, secs), ':') == [TwoDigits(mins), TwoDigits(secs)]
  {
    FaceParts(TwoDigits(mins), TwoDigits(secs));
  }

  /** Two numerals joined by ':' split back into the two numerals. */
  lemma {:induction false} FaceParts(m: string, s: string)
    requires Text.AllDigits(m) && Text.AllDigits(s)
    ensures Text.Split(m + ":" + s, ':') == [m, s]
  {
    NoColon(m);
    NoColon(s);
    assert Text.Join([m, s], ':') == m + [':'] + Text.Join([s], ':');
    assert m + ":" + s == Text.Join([m, s], ':');
    Text.SplitJoin([m, s], ':');
  }

  lemma ParseTwoFields(m: string, s: string, mins: nat, secs: nat, total: nat)
    requires m != "" && Text.AllDigits(m) && Text.DecimalValue(m) == mins
    requires |s| == 2 && Text.AllDigits(s) && Text.DecimalValue(s) == secs && secs < 60
    requires total == 60 * mins + secs
    ensures ParseFields([m, s]) == Some(total)
  {
    var parts := [m, s];
    assert parts[0] == m && parts[1] == s;
  }

  lemma {:induction false} ParseClockFace(mins: nat, secs: nat, total: nat)
    requires secs < 60 && total == 60 * mins + secs
    ensures ParseClock(ClockFace(mins, secs)) == Some(total)
  {
    var m, s := TwoDigits(mins), TwoDigits(secs);
    ClockFaceParts(mins, secs);
    ParseTwoFields(m, s, mins, secs, total);
    ParseClockOfParts(ClockFace(mins, secs), [m, s], Some(total));
  }

  lemma ParseClockOfParts(t: string, parts: seq<string>, v: Option<nat>)
    requires Text.Split(t, ':') == parts && ParseFields(parts) == v
    ensures ParseClock(t) == v
  {
  }

  /** Whole minutes and leftover seconds. */
  lemma MinutesSeconds(remaining: nat)
    ensures remaining % 60 < 60 && remaining == 60 * (remaining / 60) + remaining % 60
  {
  }

  /** Reading the clock face gives back the remaining seconds, so distinct times show
      distinct faces. */
  lemma {:induction false} ParseFormattedTime(remaining: nat)
    ensures ParseClock(FormattedTime(remaining)) == Some(remaining)
  {
    MinutesSeconds(remaining);
    ParseClockFace(remaining / 60, remaining % 60, remaining);
  }

  /** Below 100 minutes the face is `MM:SS`: five characters with ':' in the middle. */
  lemma {:induction false} FormattedTimeShape(remaining: nat)
    requires remaining < 6000
    ensures |FormattedTime(remaining)| == 5 && FormattedTime(remaining)[2] == ':'
  {
    var mins, secs := remaining / 60, remaining % 60;
    assert mins < 100;
    FaceShape(TwoDigits(mins), TwoDigits(secs));
  }

  lemma FaceShape(m: string, s: string)
    requires |m| == 2 && |s| == 2
    ensures |m + ":" + s| == 5 && (m + ":" + s)[2] == ':'
  {
  }

  /** A default focus session shows "25:00". */
  lemma {:induction false} FormattedDefaultFocus()
    ensures FormattedTime(SessionDuration(DefaultConfig, Focus)) == "25:00"
  {
    assert SessionDuration(DefaultConfig, Focus) == 1500;
    assert FormattedTime(1500) == ClockFace(25, 0);
    TwentyFive();
    Zero();
    DefaultFace(TwoDigits(25), TwoDigits(0));
  }

  /** The face of the two numerals given as parameters, which keeps the literal
      concatenation out of `FormattedDefaultFocus`. */
  lemma DefaultFace(m: string, s: string)
    requires m == "25" && s == "00"
    ensures m + ":" + s == "25:00"
  {
  }

  lemma TwentyFive()
    ensures TwoDigits(25) == "25"
  {
    assert Text.NatToString(2) == "2";
    assert Text.NatToString(25) == "2" + [Text.DigitChar(5)] == "25";
    PadTwo("25");
  }

  lemma Zero()
    ensures TwoDigits(0) == "00"
  {
    assert Text.NatToString(0) == "0";
    PadTwo("0");
  }

  // ---------------------------------------------------------------------------
  // The composable's refs and controls

  class Timer {
    var config: Config
    var remaining: nat
    var isRunning: bool
    var sessionType: SessionType
    var completedPomodoros: nat
    var completedBreaks: nat
    var endTime: Option<int>

    function Current(): State
      reads this
    {
      State(remaining, isRunning, sessionType, completedPomodoros, completedBreaks, endTime)
    }

    ghost predicate Valid()
      reads this
    {
      Consistent(Current())
    }

    /** `useTimer(config)`. */
    constructor (config: Config)
      ensures Valid() && this.config == config && Current() == Initial(config)
    {
      this.config := config;
      remaining := config.focusDuration * 60;
      isRunning := false;
      sessionType := Focus;
      completedPomodoros := 0;
      completedBreaks := 0;
      endTime := None;
    }

    method Stop()
      modifies this
      ensures config == old(config) && Current() == Stopped(old(Current()))
    {
      endTime := None;
      isRunning := false;
    }

    method Start(now: int)
      requires Valid()
      modifies this
      ensures Valid() && config == old(config) && Current() == Started(old(Current()), now)
    {
      if isRunning {
        return;
      }
      endTime := Some(now + remaining * 1000);
      isRunning := true;
    }

    method Pause(now: int)
      requires Valid()
      modifies this
      ensures Valid() && config == old(config) && Current() == Paused(old(Current()), now)
    {
      if !isRunning {
        return;
      }
      if Truthy(endTime) {
        remaining := RemainingAt(endTime.value, now);
      }
      Stop();
    }

    method CompleteSession() returns (completedType: SessionType)
      requires Valid()
      modifies this
      ensures Valid() && config == old(config) && Current() == Completed(old(Current()), config)
      ensures completedType == old(sessionType)
    {
      Stop();
      completedType := sessionType;
      if completedType == Focus {
        completedPomodoros := completedPomodoros + 1;
        if IsMultiple(completedPomodoros, config.pomodorosUntilLongBreak) {
          sessionType := LongBreak;
        } else {
          sessionType := ShortBreak;
        }
      } else {
        completedBreaks := completedBreaks + 1;
        sessionType := Focus;
      }
      remaining := SessionDuration(config, sessionType);
    }

    /** One run of the interval callback; returns the type of the session it completed. */
    method Tick(now: int) returns (completed: Option<SessionType>)
      requires Valid()
      modifies this
      ensures Valid() && config == old(config)
      ensures (Current(), completed) == Ticked(old(Current()), config, now)
    {
      completed := None;
      if Truthy(endTime) {
        var newRemaining := RemainingAt(endTime.value, now);
        remaining := newRemaining;
        if newRemaining <= 0 {
          var t := CompleteSession();
          completed := Some(t);
        }
      }
    }

    method Reset()
      requires Valid()
      modifies this
      ensures Valid() && config == old(config) && Current() == ResetState(old(Current()), config)
    {
      Stop();
      remaining := SessionDuration(config, sessionType);
    }

    method Skip()
      requires Valid()
      modifies this
      ensures Valid() && config == old(config) && Current() == Skipped(old(Current()), config)
    {
      Stop();
      if sessionType == Focus {
        if IsMultiple(completedPomodoros + 1, config.pomodorosUntilLongBreak) {
          sessionType := LongBreak;
        } else {
          sessionType := ShortBreak;
        }
      } else {
        sessionType := Focus;
      }
      remaining := SessionDuration(config, sessionType);
    }

    method SetSessionType(t: SessionType)
      requires Valid()
      modifies this
      ensures Valid() && config == old(config) && Current() == WithSessionType(old(Current()), config, t)
    {
      Stop();
      sessionType := t;
      remaining := SessionDuration(config, sessionType);
    }

    /** The config ref takes a new value and the deep watcher runs. */
    method SetConfig(c: Config)
      requires Valid()
      modifies this
      ensures Valid() && config == c && Current() == Reconfigured(old(Current()), c)
    {
      config := c;
      if !isRunning {
        remaining := SessionDuration(config, sessionType);
      }
    }
  }
}
