/** Runs of the firmware's own settings that reach the two exceptions of `AlarmRuns`: chains of
    snoozes that carry yesterday's ring to today's alarm time. */
module AlarmWitness {
  import opened AlarmSpec
  import opened AlarmRuns

  const SNOOZE_PRESSED := Buttons(0, 1, 1)
  const MUTE_PRESSED := Buttons(1, 0, 1)

  function Quiet(n: nat): seq<Buttons> {
    seq(n, _ => RELEASED)
  }

  lemma {:induction false} ClockCounts(c: Config, s: Alarm, samples: seq<Buttons>)
    requires ValidConfig(c) && Invariant(c, s)
    ensures var t := Run(c, s, samples);
      SecondsOfDay(t.hour, t.minute, t.second)
      == (SecondsOfDay(s.hour, s.minute, s.second) + |samples|) % 86400
    decreases |samples|
  {
    hide Tick, UpdateClock, SecondsOfDay;
    var start := SecondsOfDay(s.hour, s.minute, s.second);
    SecondsInDay(s.hour, s.minute, s.second);
    if samples == [] {
      ModOf(start, 0, start);
    } else {
      var before := samples[..|samples| - 1];
      var t := Run(c, s, before);
      ClockCounts(c, s, before);
      RunKeepsInvariant(c, s, before);
      UpdateClockAddsOne(t);
      NextMod(start + |before|);
      ButtonsLeaveClock(c, t, samples[|samples| - 1]);
    }
  }

  /** A ring in its first second, t seconds after boot, with all buttons released. */
  predicate FreshRing(s: Alarm, t: nat) {
    FirstSecond(s) && SecondsOfDay(s.hour, s.minute, s.second) == t % 86400
  }

  lemma QuietIsNoPress(s: Alarm, n: nat)
    requires s.last == RELEASED || s.last == SNOOZE_PRESSED || s.last == MUTE_PRESSED
    ensures NoPress(s.last, Quiet(n))
  {
  }

  /** Waiting n ticks winds down by n. */
  lemma Wait(s: Alarm, n: nat)
    requires Invariant(FIRMWARE, s) && n <= Rank(FIRMWARE, s)
    requires s.last == RELEASED || s.last == SNOOZE_PRESSED || s.last == MUTE_PRESSED
    ensures var t := Run(FIRMWARE, s, Quiet(n));
      && Invariant(FIRMWARE, t) && Rank(FIRMWARE, t) == Rank(FIRMWARE, s) - n
      && t.last == (if n == 0 then s.last else RELEASED)
  {
    QuietIsNoPress(s, n);
    WindDown(FIRMWARE, s, Quiet(n));
    RunKeepsInvariant(FIRMWARE, s, Quiet(n));
  }

  /** Ring for d seconds, then snooze to the end of the snooze. */
  function Cycle(d: nat): seq<Buttons>
    requires 1 <= d
  {
    Quiet(d - 1) + [SNOOZE_PRESSED] + Quiet(299)
  }

  lemma SnoozePress(s: Alarm)
    requires Invariant(FIRMWARE, s) && s.active && s.last == RELEASED
    ensures var t := Tick(FIRMWARE, s, SNOOZE_PRESSED);
      Invariant(FIRMWARE, t) && t.snoozed && Rank(FIRMWARE, t) == 318 && t.last == SNOOZE_PRESSED
  {
  }

  predicate FirstSecond(s: Alarm) {
    Invariant(FIRMWARE, s) && s.active && s.activeSeconds == 1 && s.last == RELEASED
  }

  lemma CycleRuns(s: Alarm, d: nat)
    requires 1 <= d
    ensures Run(FIRMWARE, s, Cycle(d))
         == Run(FIRMWARE, Tick(FIRMWARE, Run(FIRMWARE, s, Quiet(d - 1)), SNOOZE_PRESSED), Quiet(299))
    ensures |Cycle(d)| == 299 + d
  {
    RunStep(FIRMWARE, s, Quiet(d - 1), SNOOZE_PRESSED);
    RunJoin(FIRMWARE, s, Quiet(d - 1) + [SNOOZE_PRESSED], Quiet(299));
    hide Tick, Run;
  }

  lemma CycleState(s: Alarm, d: nat)
    requires FirstSecond(s) && 1 <= d <= 19
    ensures FirstSecond(Run(FIRMWARE, s, Cycle(d)))
  {
    hide Tick, Run, Quiet, Invariant, Rank, Cycle;
    var s1 := Run(FIRMWARE, s, Quiet(d - 1));
    var s2 := Tick(FIRMWARE, s1, SNOOZE_PRESSED);
    CycleRuns(s, d);
    FreshByRank(s);
    Wait(s, d - 1);
    FreshByRank(s1);
    SnoozePress(s1);
    Wait(s2, 299);
    FreshByRank(Run(FIRMWARE, s2, Quiet(299)));
  }

  lemma OneCycle(s: Alarm, t: nat, d: nat)
    requires FreshRing(s, t) && 1 <= d <= 19
    ensures FreshRing(Run(FIRMWARE, s, Cycle(d)), t + 299 + d)
  {
    hide Run, Tick, Cycle, Invariant, SecondsOfDay;
    CycleRuns(s, d);
    CycleState(s, d);
    ClockCounts(FIRMWARE, s, Cycle(d));
    AddMod(t, 299 + d);
  }

  lemma FreshByRank(s: Alarm)
    requires Invariant(FIRMWARE, s)
    ensures Rank(FIRMWARE, s) == 19 <==> s.active && s.activeSeconds == 1
    ensures 1 <= Rank(FIRMWARE, s) <= 19 ==> s.active
  {
  }

  lemma AddMod(t: nat, n: nat)
    ensures (t % 86400 + n) % 86400 == (t + n) % 86400
  {
    var x := t % 86400 + n;
    ModOf(t + n, t / 86400 + x / 86400, x % 86400);
  }

  function Cycles(n: nat, d: nat): seq<Buttons>
    requires 1 <= d
  {
    if n == 0 then [] else Cycles(n - 1, d) + Cycle(d)
  }

  lemma {:induction false} ManyCycles(s: Alarm, t: nat, n: nat, d: nat)
    requires FreshRing(s, t) && 1 <= d <= 19
    ensures FreshRing(Run(FIRMWARE, s, Cycles(n, d)), t + Elapsed(n, d))
    decreases n
  {
    hide Run, Cycle, FreshRing;
    if n == 0 {
      RunNothing(FIRMWARE, s);
    } else {
      ManyCycles(s, t, n - 1, d);
      OneCycle(Run(FIRMWARE, s, Cycles(n - 1, d)), t + Elapsed(n - 1, d), d);
      RunJoin(FIRMWARE, s, Cycles(n - 1, d), Cycle(d));
    }
  }

  function Elapsed(n: nat, d: nat): nat {
    if n == 0 then 0 else Elapsed(n - 1, d) + 299 + d
  }

  lemma {:induction false} ElapsedIsProduct(n: nat, d: nat)
    ensures Elapsed(n, d) == n * (299 + d)
  {
    if n == 0 {
    } else {
      ElapsedIsProduct(n - 1, d);
    }
  }

  /** The first ring after boot. */
  lemma FirstFreshRing()
    ensures FreshRing(Run(FIRMWARE, BOOT, Quiet(3)), 3)
  {
    QuietIsNoPress(BOOT, 3);
    UndisturbedRun(FIRMWARE, Quiet(3));
    RunKeepsInvariant(FIRMWARE, BOOT, Quiet(3));
    assert FirstRing(FIRMWARE) == 3;
    hide Run;
  }

  /** The enable button is never pressed. */
  predicate EnableUntouched(samples: seq<Buttons>) {
    forall i :: 0 <= i < |samples| ==> samples[i].enable == 1
  }

  lemma UntouchedTogether(a: seq<Buttons>, b: seq<Buttons>)
    requires EnableUntouched(a) && EnableUntouched(b)
    ensures EnableUntouched(a + b)
  {
  }

  lemma {:induction false} CyclesUntouched(n: nat, d: nat)
    requires 1 <= d
    ensures EnableUntouched(Cycles(n, d))
    decreases n
  {
    hide Cycle;
    if n == 0 {
    } else {
      CyclesUntouched(n - 1, d);
      CycleUntouched(d);
      UntouchedTogether(Cycles(n - 1, d), Cycle(d));
    }
  }

  lemma CycleUntouched(d: nat)
    requires 1 <= d
    ensures EnableUntouched(Cycle(d))
  {
  }

  lemma QuietUntouched(n: nat)
    ensures EnableUntouched(Quiet(n))
  {
  }

  /** Two stretches of cycles after the first ring. */
  lemma RingAt(n: nat, d: nat, m: nat, e: nat) returns (samples: seq<Buttons>)
    requires 1 <= d <= 19 && 1 <= e <= 19
    ensures EnableUntouched(samples)
    ensures FreshRing(Run(FIRMWARE, BOOT, samples), 3 + Elapsed(n, d) + Elapsed(m, e))
  {
    hide Run, Tick, Cycles, Quiet, FreshRing, Elapsed, EnableUntouched;
    FirstFreshRing();
    var s := Run(FIRMWARE, BOOT, Quiet(3));
    ManyCycles(s, 3, n, d);
    ManyCycles(Run(FIRMWARE, s, Cycles(n, d)), 3 + Elapsed(n, d), m, e);
    RunJoin(FIRMWARE, BOOT, Quiet(3), Cycles(n, d));
    RunJoin(FIRMWARE, BOOT, Quiet(3) + Cycles(n, d), Cycles(m, e));
    samples := Quiet(3) + Cycles(n, d) + Cycles(m, e);
    QuietUntouched(3);
    CyclesUntouched(n, d);
    CyclesUntouched(m, e);
    UntouchedTogether(Quiet(3), Cycles(n, d));
    UntouchedTogether(Quiet(3) + Cycles(n, d), Cycles(m, e));
  }

  lemma LaterTime(s: Alarm, t: nat, samples: seq<Buttons>)
    requires FreshRing(s, t) && (t + |samples|) % 86400 == 3
    ensures AtAlarmTime(FIRMWARE, Run(FIRMWARE, s, samples))
  {
    hide Run, Invariant, AtAlarmTime, SecondsOfDay;
    ClockCounts(FIRMWARE, s, samples);
    AddMod(t, |samples|);
    RunKeepsInvariant(FIRMWARE, s, samples);
    ThirdSecond(Run(FIRMWARE, s, samples));
  }

  lemma ThirdSecond(s: Alarm)
    requires Invariant(FIRMWARE, s) && SecondsOfDay(s.hour, s.minute, s.second) == 3
    ensures AtAlarmTime(FIRMWARE, s)
  {
    SecondsOfDayTellsTime(s.hour, s.minute, s.second, 0, 0, 3);
  }

  /** A run from boot whose ring is fired again: it was muted at the alarm time. */
  lemma RefireHappens() returns (samples: seq<Buttons>)
    ensures samples != [] && RefiredAt(FIRMWARE, samples, |samples|)
  {
    hide Run, Tick, Invariant, AtAlarmTime, Refired, Elapsed;
    var before := RingAt(286, 2, 1, 14);
    ElapsedIsProduct(286, 2);
    ElapsedIsProduct(1, 14);
    var s := Run(FIRMWARE, BOOT, before);
    samples := before + [MUTE_PRESSED];
    RunStep(FIRMWARE, s, [], MUTE_PRESSED);
    assert [] + [MUTE_PRESSED] == [MUTE_PRESSED];
    assert Run(FIRMWARE, s, []) == s by { RunNothing(FIRMWARE, s); }
    LaterTime(s, 86402, [MUTE_PRESSED]);
    MutedAtAlarmTime(s);
    assert samples[..|samples| - 1] == before;
  }

  lemma MutedAtAlarmTime(s: Alarm)
    requires FirstSecond(s)
    requires AtAlarmTime(FIRMWARE, Tick(FIRMWARE, s, MUTE_PRESSED))
    ensures Refired(FIRMWARE, s, MUTE_PRESSED)
  {
  }

  /** A run from boot, never disabled, that is silent at its own alarm time: the ring carried
      over by snoozes reaches its auto-mute count in that very tick, and the alarm is lost. */
  lemma LostAlarmHappens() returns (samples: seq<Buttons>)
    ensures forall i :: 0 <= i < |samples| ==> samples[i].enable == 1
    ensures forall i :: 0 <= i <= |samples| ==> Run(FIRMWARE, BOOT, samples[..i]).enabled
    ensures var s := Run(FIRMWARE, BOOT, samples);
      AtAlarmTime(FIRMWARE, s) && s.enabled && Idle(s)
  {
    hide Run, Tick, AtAlarmTime, SecondsOfDay, Invariant, Elapsed;
    var before := RingAt(281, 2, 6, 1);
    ElapsedIsProduct(281, 2);
    ElapsedIsProduct(6, 1);
    var s := Run(FIRMWARE, BOOT, before);
    assert FreshRing(s, 86384);
    samples := before + Quiet(19);
    RunJoin(FIRMWARE, BOOT, before, Quiet(19));
    LaterTime(s, 86384, Quiet(19));
    assert |before + Quiet(19)| == |before| + 19;
    FreshByRank(s);
    Wait(s, 19);
    IdleByRank(Run(FIRMWARE, s, Quiet(19)));
    QuietUntouched(19);
    UntouchedTogether(before, Quiet(19));
    forall i | 0 <= i <= |samples|
      ensures Run(FIRMWARE, BOOT, samples[..i]).enabled
    {
      StaysEnabled(samples[..i]);
    }
    assert samples[..|samples|] == samples;
  }

  lemma IdleByRank(s: Alarm)
    requires Invariant(FIRMWARE, s) && Rank(FIRMWARE, s) == 0
    ensures Idle(s)
  {
  }

  lemma {:induction false} StaysEnabled(samples: seq<Buttons>)
    requires EnableUntouched(samples)
    ensures Run(FIRMWARE, BOOT, samples).enabled
    decreases |samples|
  {
    hide Tick;
    if samples == [] {
    } else {
      var before, now := samples[..|samples| - 1], samples[|samples| - 1];
      StaysEnabled(before);
      TickToggles(FIRMWARE, Run(FIRMWARE, BOOT, before), now);
    }
  }
}
