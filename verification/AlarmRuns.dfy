/** What every run of the alarm clock keeps, and how a ring, a snooze and a press work out. */
module AlarmRuns {
  import opened AlarmSpec
  import opened CText

  // ---------------------------------------------------------------- the invariant at tick ends

  predicate ClockInRange(s: Alarm) {
    0 <= s.hour < 24 && 0 <= s.minute < 60 && 0 <= s.second < 60
  }

  predicate Invariant(c: Config, s: Alarm) {
    && ClockInRange(s)
    && !(s.active && s.snoozed)
    && (!s.enabled ==> !s.active && !s.snoozed)
    && (if s.active then 1 <= s.activeSeconds < c.autoMute else s.activeSeconds == 0)
    && (if s.snoozed then 1 <= s.snoozeLeft < c.snooze else s.snoozeLeft == 0)
  }

  /** The invariant between the buttons and the time check: a snooze may just have begun. */
  predicate AfterButtons(c: Config, s: Alarm) {
    && ClockInRange(s)
    && !(s.active && s.snoozed)
    && (!s.enabled ==> !s.active && !s.snoozed)
    && (if s.active then 1 <= s.activeSeconds < c.autoMute else s.activeSeconds == 0)
    && (if s.snoozed then 1 <= s.snoozeLeft <= c.snooze else s.snoozeLeft == 0)
  }

  lemma HandlersKeep(c: Config, s: Alarm)
    requires ValidConfig(c) && AfterButtons(c, s)
    ensures AfterButtons(c, Snooze(c, s)) && AfterButtons(c, Mute(s)) && AfterButtons(c, ToggleEnabled(s))
  {
  }

  lemma ButtonsKeep(c: Config, s: Alarm, now: Buttons)
    requires ValidConfig(c) && AfterButtons(c, s)
    ensures AfterButtons(c, CheckButtons(c, s, now)) && CheckButtons(c, s, now).last == now
  {
    var s1 := if Pressed(SnoozeHandler, s.last, now) then Snooze(c, s) else s;
    var s2 := if Pressed(MuteHandler, s.last, now) then Mute(s1) else s1;
    HandlersKeep(c, s);
    HandlersKeep(c, s1);
    HandlersKeep(c, s2);
    hide Snooze, Mute, ToggleEnabled;
  }

  lemma TickKeepsInvariant(c: Config, s: Alarm, now: Buttons)
    requires ValidConfig(c) && Invariant(c, s)
    ensures Invariant(c, Tick(c, s, now)) && Tick(c, s, now).last == now
  {
    assert AfterButtons(c, UpdateClock(s));
    ButtonsKeep(c, UpdateClock(s), now);
    hide UpdateClock, CheckButtons;
  }

  lemma {:induction false} RunKeepsInvariant(c: Config, s: Alarm, samples: seq<Buttons>)
    requires ValidConfig(c) && Invariant(c, s)
    ensures Invariant(c, Run(c, s, samples))
    ensures Run(c, s, samples).last == LastSample(s.last, samples)
    decreases |samples|
  {
    if samples == [] {
    } else {
      var before := samples[..|samples| - 1];
      RunKeepsInvariant(c, s, before);
      TickKeepsInvariant(c, Run(c, s, before), samples[|samples| - 1]);
    }
  }

  /** The invariant holds after every run from boot, whatever the buttons do. */
  lemma EveryRunFromBoot(c: Config, samples: seq<Buttons>)
    requires ValidConfig(c)
    ensures Invariant(c, Run(c, BOOT, samples))
  {
    RunKeepsInvariant(c, BOOT, samples);
  }

  // ---------------------------------------------------------------- a tick as a table

  /** A ring that this tick's buttons leave alone. */
  predicate RingsOn(s: Alarm, now: Buttons) {
    && s.active && !Pressed(SnoozeHandler, s.last, now)
    && !Pressed(MuteHandler, s.last, now) && !Pressed(EnableHandler, s.last, now)
  }

  /** A snooze that this tick's buttons leave alone, or begin. */
  predicate SnoozesOn(s: Alarm, now: Buttons) {
    && (s.snoozed || (s.active && Pressed(SnoozeHandler, s.last, now)))
    && !Pressed(MuteHandler, s.last, now) && !Pressed(EnableHandler, s.last, now)
  }

  /** What a tick makes of a state, flag by flag and counter by counter, whatever the order of its
      five functions. */
  lemma TickTable(c: Config, s: Alarm, now: Buttons)
    requires ValidConfig(c) && Invariant(c, s)
    ensures var t := Tick(c, s, now);
      var wakes := s.snoozed && s.snoozeLeft == 1;
      && t.last == now
      && t.enabled == (s.enabled != Pressed(EnableHandler, s.last, now))
      && (t.active <==>
            if RingsOn(s, now) then s.activeSeconds + 1 < c.autoMute
            else if SnoozesOn(s, now) then wakes
            else t.enabled && AtAlarmTime(c, t))
      && (t.snoozed <==> SnoozesOn(s, now) && !wakes)
      && t.activeSeconds == (if !t.active then 0 else if RingsOn(s, now) then s.activeSeconds + 1 else 1)
      && t.snoozeLeft == (if !t.snoozed then 0 else if s.snoozed then s.snoozeLeft - 1 else c.snooze - 1)
  {
    var u := UpdateClock(s);
    assert u.(hour := s.hour, minute := s.minute, second := s.second) == s;
    hide UpdateClock;
  }

  /** Nothing happens unasked, in any run: a snooze begins only with a press during a ring, goes on
      second by second, and a ring begins only at the alarm time or at the end of a snooze. */
  lemma NothingUnasked(c: Config, before: seq<Buttons>, now: Buttons)
    requires ValidConfig(c)
    ensures var s, t := Run(c, BOOT, before), Run(c, BOOT, before + [now]);
      && (!s.snoozed && t.snoozed ==>
            s.active && Pressed(SnoozeHandler, LastSample(RELEASED, before), now) && t.snoozeLeft == c.snooze - 1)
      && (s.snoozed && t.snoozed ==> t.snoozeLeft == s.snoozeLeft - 1)
      && (!s.active && t.active ==>
            t.activeSeconds == 1 && ((AtAlarmTime(c, t) && t.enabled) || (s.snoozed && s.snoozeLeft == 1)))
  {
    hide Run, Tick, Invariant;
    assert Invariant(c, BOOT) by { RunNothing(c, BOOT); EveryRunFromBoot(c, []); }
    RunKeepsInvariant(c, BOOT, before);
    RunStep(c, BOOT, before, now);
    TickTable(c, Run(c, BOOT, before), now);
  }

  /** A ring ends, in any run, only by a press or by its auto-mute count. */
  lemma RingEnds(c: Config, before: seq<Buttons>, now: Buttons)
    requires ValidConfig(c) && Run(c, BOOT, before).active && !Run(c, BOOT, before + [now]).active
    ensures Run(c, BOOT, before).activeSeconds == c.autoMute - 1
            || AnyPress(LastSample(RELEASED, before), now)
  {
    hide Run, Tick, Invariant;
    assert Invariant(c, BOOT) by { RunNothing(c, BOOT); EveryRunFromBoot(c, []); }
    RunKeepsInvariant(c, BOOT, before);
    RunStep(c, BOOT, before, now);
    TickTable(c, Run(c, BOOT, before), now);
  }

  // ---------------------------------------------------------------- inside a tick

  /** What a preempting reader may rely on between any two assignments. */
  predicate SafeToRead(s: Alarm) {
    && 0 <= s.second <= 60 && 0 <= s.minute <= 60 && 0 <= s.hour <= 24
    && (s.second == 60 ==> s.minute < 60 && s.hour < 24)
    && (s.minute == 60 ==> s.hour < 24)
    && !(s.active && s.snoozed)
  }

  /** A number printed with at least two digits. */
  function TwoDigits(n: nat): string {
    if |Decimal(n)| < 2 then "0" + Decimal(n) else Decimal(n)
  }

  /** The clock text of the display. */
  function ClockText(s: Alarm): string
    requires 0 <= s.hour && 0 <= s.minute && 0 <= s.second
  {
    TwoDigits(s.hour) + ":" + TwoDigits(s.minute) + ":" + TwoDigits(s.second)
  }

  lemma TwoDigitsSuffice(n: nat)
    requires n < 100
    ensures |TwoDigits(n)| == 2 && AllDigits(TwoDigits(n)) && NumeralValue(TwoDigits(n)) == n
  {
    assert PowerOfTen(2) == 100;
    DecimalLength(n, 2);
    DecimalReadsBack(n);
    if n < 10 {
      var text := "0" + Decimal(n);
      assert text[..1] == "0" && text[..1][..0] == [];
    }
  }

  /** A text of eight characters, `hh:mm:ss`, whose numbers are those of the clock. */
  predicate ShowsClock(text: string, s: Alarm) {
    && |text| == 8 && text[2] == ':' && text[5] == ':'
    && AllDigits(text[..2]) && AllDigits(text[3..5]) && AllDigits(text[6..])
    && NumeralValue(text[..2]) == s.hour && NumeralValue(text[3..5]) == s.minute
    && NumeralValue(text[6..]) == s.second
  }

  lemma SafeClockText(s: Alarm)
    requires SafeToRead(s)
    ensures ShowsClock(ClockText(s), s)
  {
    hide TwoDigits, AllDigits, NumeralValue;
    TwoDigitsSuffice(s.hour);
    TwoDigitsSuffice(s.minute);
    TwoDigitsSuffice(s.second);
    var h, m, sec := TwoDigits(s.hour), TwoDigits(s.minute), TwoDigits(s.second);
    var text := ClockText(s);
    assert text[..2] == h && text[3..5] == m && text[6..] == sec;
  }

  predicate AllSafe(trace: seq<Alarm>) {
    forall i :: 0 <= i < |trace| ==> SafeToRead(trace[i])
  }

  lemma SafeTogether(a: seq<Alarm>, b: seq<Alarm>)
    requires AllSafe(a) && AllSafe(b)
    ensures AllSafe(a + b)
  {
  }

  lemma ClockTraceSafe(c: Config, s: Alarm)
    requires Invariant(c, s)
    ensures AllSafe(UpdateClockTrace(s))
    ensures Invariant(c, UpdateClock(s))
  {
  }

  lemma HandlerTracesSafe(c: Config, s: Alarm)
    requires ClockInRange(s) && !(s.active && s.snoozed)
    ensures AllSafe(SnoozeTrace(c, s)) && AllSafe(MuteTrace(s)) && AllSafe(ToggleEnabledTrace(s))
    ensures forall t | t == Snooze(c, s) || t == Mute(s) || t == ToggleEnabled(s) ::
      ClockInRange(t) && !(t.active && t.snoozed)
  {
  }

  lemma SampleTraceSafe(s: Alarm, now: Buttons)
    requires ClockInRange(s) && !(s.active && s.snoozed)
    ensures AllSafe(SampleTrace(s, now))
  {
  }

  lemma ButtonsTraceSafe(c: Config, s: Alarm, now: Buttons)
    requires ClockInRange(s) && !(s.active && s.snoozed)
    ensures AllSafe(CheckButtonsTrace(c, s, now))
    ensures ClockInRange(CheckButtons(c, s, now))
    ensures !(CheckButtons(c, s, now).active && CheckButtons(c, s, now).snoozed)
  {
    hide SnoozeTrace, MuteTrace, ToggleEnabledTrace, SampleTrace, Snooze, Mute, ToggleEnabled, SafeToRead, Pressed;
    assert AllSafe([]);
    var s1 := if Pressed(SnoozeHandler, s.last, now) then Snooze(c, s) else s;
    var s2 := if Pressed(MuteHandler, s.last, now) then Mute(s1) else s1;
    var s3 := if Pressed(EnableHandler, s.last, now) then ToggleEnabled(s2) else s2;
    HandlerTracesSafe(c, s);
    HandlerTracesSafe(c, s1);
    HandlerTracesSafe(c, s2);
    var a := if Pressed(SnoozeHandler, s.last, now) then SnoozeTrace(c, s) else [];
    var b := if Pressed(MuteHandler, s.last, now) then MuteTrace(s1) else [];
    var d := if Pressed(EnableHandler, s.last, now) then ToggleEnabledTrace(s2) else [];
    SampleTraceSafe(s3, now);
    SafeTogether(a, b);
    SafeTogether(a + b, d);
    SafeTogether(a + b + d, SampleTrace(s3, now));
  }

  lemma TickTraceSafe(c: Config, s: Alarm, now: Buttons)
    requires ValidConfig(c) && Invariant(c, s)
    ensures AllSafe(TickTrace(c, s, now))
  {
    var s1 := UpdateClock(s);
    var s2 := CheckButtons(c, s1, now);
    var s3 := CheckAlarmTime(c, s2);
    var s4 := UpdateSnooze(s3);
    ClockTraceSafe(c, s);
    ButtonsTraceSafe(c, s1, now);
    assert AllSafe(CheckAlarmTimeTrace(c, s2));
    assert AllSafe(UpdateSnoozeTrace(s3));
    assert AllSafe(UpdateAutoMuteTrace(c, s4));
    hide UpdateClockTrace, CheckButtonsTrace, CheckAlarmTimeTrace, UpdateSnoozeTrace, UpdateAutoMuteTrace;
    var a, b := UpdateClockTrace(s), CheckButtonsTrace(c, s1, now);
    SafeTogether(a, b);
    SafeTogether(a + b, CheckAlarmTimeTrace(c, s2));
    SafeTogether(a + b + CheckAlarmTimeTrace(c, s2), UpdateSnoozeTrace(s3));
    SafeTogether(a + b + CheckAlarmTimeTrace(c, s2) + UpdateSnoozeTrace(s3), UpdateAutoMuteTrace(c, s4));
  }

  lemma {:induction false} RunTraceSafe(c: Config, s: Alarm, samples: seq<Buttons>)
    requires ValidConfig(c) && Invariant(c, s)
    ensures AllSafe(RunTrace(c, s, samples))
    decreases |samples|
  {
    if samples == [] {
    } else {
      var before := samples[..|samples| - 1];
      RunTraceSafe(c, s, before);
      RunKeepsInvariant(c, s, before);
      TickTraceSafe(c, Run(c, s, before), samples[|samples| - 1]);
    }
  }

  /** At every statement boundary of every run the fields are safe to read, and the clock text
      keeps its eight characters and shows the fields. */
  lemma EveryStatementBoundary(c: Config, samples: seq<Buttons>, i: int)
    requires ValidConfig(c) && 0 <= i < |RunTrace(c, BOOT, samples)|
    ensures SafeToRead(RunTrace(c, BOOT, samples)[i])
    ensures ShowsClock(ClockText(RunTrace(c, BOOT, samples)[i]), RunTrace(c, BOOT, samples)[i])
  {
    RunTraceSafe(c, BOOT, samples);
    SafeClockText(RunTrace(c, BOOT, samples)[i]);
  }

  // ---------------------------------------------------------------- winding down

  /** Ticks until silence if no button is pressed. */
  function Rank(c: Config, s: Alarm): int {
    if s.snoozed then s.snoozeLeft + c.autoMute - 1
    else if s.active then c.autoMute - s.activeSeconds
    else 0
  }

  predicate Idle(s: Alarm) {
    !s.active && !s.snoozed
  }

  predicate NoPress(last: Buttons, samples: seq<Buttons>) {
    forall i :: 0 <= i < |samples| ==> !AnyPress(LastSample(last, samples[..i]), samples[i])
  }

  lemma RankStep(c: Config, s: Alarm, now: Buttons)
    requires ValidConfig(c) && Invariant(c, s) && !AnyPress(s.last, now)
    ensures 0 < Rank(c, s) ==> Rank(c, Tick(c, s, now)) == Rank(c, s) - 1
  {
  }

  /** Without presses the machine falls silent after exactly `Rank` ticks, whether or not it
      passes the alarm time on the way, and `Rank` is bounded. */
  lemma {:induction false} WindDown(c: Config, s: Alarm, samples: seq<Buttons>)
    requires ValidConfig(c) && Invariant(c, s)
    requires NoPress(s.last, samples) && |samples| <= Rank(c, s)
    ensures Rank(c, Run(c, s, samples)) == Rank(c, s) - |samples|
    ensures Idle(Run(c, s, samples)) <==> |samples| == Rank(c, s)
    ensures Rank(c, s) <= c.snooze - 1 + c.autoMute - 1
    decreases |samples|
  {
    hide Tick, Invariant, Rank, Idle, AnyPress;
    RunKeepsInvariant(c, s, samples);
    RankBound(c, s);
    RankBound(c, Run(c, s, samples));
    if samples == [] {
    } else {
      var before := samples[..|samples| - 1];
      assert forall i :: 0 <= i < |before| ==> before[..i] == samples[..i];
      WindDown(c, s, before);
      RunKeepsInvariant(c, s, before);
      RankStep(c, Run(c, s, before), samples[|samples| - 1]);
    }
  }

  lemma RankBound(c: Config, s: Alarm)
    requires ValidConfig(c) && Invariant(c, s)
    ensures 0 <= Rank(c, s) <= c.snooze - 1 + c.autoMute - 1
    ensures Idle(s) <==> Rank(c, s) == 0
  {
  }

  lemma {:induction false} RunJoin(c: Config, s: Alarm, a: seq<Buttons>, b: seq<Buttons>)
    ensures Run(c, s, a + b) == Run(c, Run(c, s, a), b)
    decreases |b|
  {
    hide Tick;
    if b == [] {
      assert a + b == a;
    } else {
      var b0 := b[..|b| - 1];
      RunJoin(c, s, a, b0);
      assert (a + b)[..|a + b| - 1] == a + b0;
    }
  }

  lemma RunNothing(c: Config, s: Alarm)
    ensures Run(c, s, []) == s
  {
  }

  lemma SnoozePressTick(c: Config, s: Alarm, now: Buttons)
    requires ValidConfig(c) && Invariant(c, s) && s.active && Pressed(SnoozeHandler, s.last, now)
    requires !Pressed(MuteHandler, s.last, now) && !Pressed(EnableHandler, s.last, now)
    ensures var t := Tick(c, s, now);
      t.snoozed && t.snoozeLeft == c.snooze - 1
  {
  }

  lemma RankTells(c: Config, s: Alarm)
    requires ValidConfig(c) && Invariant(c, s)
    ensures s.snoozed <==> Rank(c, s) >= c.autoMute
    ensures s.snoozed ==> s.snoozeLeft == Rank(c, s) - (c.autoMute - 1)
    ensures s.active && s.activeSeconds == 1 <==> Rank(c, s) == c.autoMute - 1
  {
  }

  /** A ring that is snoozed in any run and then left alone stays snoozed, second by second, and
      begins anew `snooze` - 1 ticks after the press. */
  lemma SnoozeRingsAgain(c: Config, before: seq<Buttons>, now: Buttons, quiet: seq<Buttons>)
    requires ValidConfig(c) && Run(c, BOOT, before).active
    requires Pressed(SnoozeHandler, LastSample(RELEASED, before), now)
    requires !Pressed(MuteHandler, LastSample(RELEASED, before), now)
    requires !Pressed(EnableHandler, LastSample(RELEASED, before), now)
    requires NoPress(now, quiet) && |quiet| <= c.snooze - 1
    ensures var t := Run(c, BOOT, before + [now] + quiet);
      if |quiet| < c.snooze - 1 then t.snoozed && t.snoozeLeft == c.snooze - 1 - |quiet|
      else t.active && t.activeSeconds == 1
  {
    hide Run, Tick, Invariant, Pressed, NoPress;
    var s := Run(c, BOOT, before);
    assert Invariant(c, BOOT) by { RunNothing(c, BOOT); EveryRunFromBoot(c, []); }
    RunKeepsInvariant(c, BOOT, before);
    RunStep(c, BOOT, before, now);
    RunJoin(c, BOOT, before + [now], quiet);
    TickKeepsInvariant(c, s, now);
    SnoozePressTick(c, s, now);
    var t := Tick(c, s, now);
    WindDown(c, t, quiet);
    RunKeepsInvariant(c, t, quiet);
    RankTells(c, Run(c, t, quiet));
  }

  /** With the firmware's settings the ring begins anew 299 ticks after the press, not before. */
  lemma SnoozeRingsAgainFirmware(before: seq<Buttons>, now: Buttons, quiet: seq<Buttons>)
    requires Run(FIRMWARE, BOOT, before).active
    requires Pressed(SnoozeHandler, LastSample(RELEASED, before), now)
    requires !Pressed(MuteHandler, LastSample(RELEASED, before), now)
    requires !Pressed(EnableHandler, LastSample(RELEASED, before), now)
    requires NoPress(now, quiet) && |quiet| <= 299
    ensures Run(FIRMWARE, BOOT, before + [now] + quiet).active <==> |quiet| == 299
  {
    hide Run, NoPress;
    SnoozeRingsAgain(FIRMWARE, before, now, quiet);
    EveryRunFromBoot(FIRMWARE, before + [now] + quiet);
  }

  // ---------------------------------------------------------------- the length of a ring

  /** A mute press exactly at the alarm time that rings again in the same tick. */
  predicate Refired(c: Config, s: Alarm, now: Buttons) {
    var t := Tick(c, s, now);
    s.active && Pressed(MuteHandler, s.last, now) && AtAlarmTime(c, t) && t.activeSeconds == 1
  }

  /** While a ring goes on, its count grows by one a tick, except when it is fired again. */
  lemma RingStep(c: Config, s: Alarm, now: Buttons)
    requires ValidConfig(c) && Invariant(c, s)
    requires s.active && Tick(c, s, now).active
    ensures if Refired(c, s, now) then Tick(c, s, now).activeSeconds == 1
            else Tick(c, s, now).activeSeconds == s.activeSeconds + 1
  {
  }

  predicate RefiredAt(c: Config, samples: seq<Buttons>, j: int)
    requires 1 <= j <= |samples|
  {
    Refired(c, Run(c, BOOT, samples[..j - 1]), samples[j - 1])
  }

  lemma PrefixStep(c: Config, samples: seq<Buttons>, j: int)
    requires 1 <= j <= |samples|
    ensures Run(c, BOOT, samples[..j]) == Tick(c, Run(c, BOOT, samples[..j - 1]), samples[j - 1])
  {
    hide Tick;
    assert samples[..j][..j - 1] == samples[..j - 1];
  }

  lemma {:induction false} RingCounts(c: Config, samples: seq<Buttons>, k: nat, j: int)
    requires ValidConfig(c) && k <= j <= |samples|
    requires forall i :: k <= i <= j ==> Run(c, BOOT, samples[..i]).active
    requires forall i :: k < i <= j ==> !RefiredAt(c, samples, i)
    ensures Run(c, BOOT, samples[..j]).activeSeconds == Run(c, BOOT, samples[..k]).activeSeconds + j - k
    decreases j
  {
    hide Run, Tick, Refired, Invariant;
    if k == j {
    } else {
      RingCounts(c, samples, k, j - 1);
      EveryRunFromBoot(c, samples[..j - 1]);
      PrefixStep(c, samples, j);
      assert !RefiredAt(c, samples, j);
      assert Run(c, BOOT, samples[..j]).active;
      RingStep(c, Run(c, BOOT, samples[..j - 1]), samples[j - 1]);
    }
  }

  /** A ring seen at `autoMute` consecutive tick ends was fired again after the first of them. */
  lemma RingBound(c: Config, samples: seq<Buttons>, k: nat)
    requires ValidConfig(c) && k + c.autoMute - 1 <= |samples|
    requires forall i :: k <= i < k + c.autoMute ==> Run(c, BOOT, samples[..i]).active
    ensures exists j :: k < j < k + c.autoMute && RefiredAt(c, samples, j)
  {
    var last := k + c.autoMute - 1;
    EveryRunFromBoot(c, samples[..k]);
    EveryRunFromBoot(c, samples[..last]);
    assert Run(c, BOOT, samples[..k]).active && Run(c, BOOT, samples[..last]).active;
    if forall j :: k < j < k + c.autoMute ==> !RefiredAt(c, samples, j) {
      RingCounts(c, samples, k, last);
      assert false;
    }
  }

  // ---------------------------------------------------------------- no lost alarm

  lemma AlarmTimeTick(c: Config, s: Alarm, now: Buttons)
    requires ValidConfig(c) && Invariant(c, s)
    requires AtAlarmTime(c, Tick(c, s, now)) && Tick(c, s, now).enabled
    ensures Idle(Tick(c, s, now)) <==>
      && s.active && s.activeSeconds == c.autoMute - 1
      && !Pressed(SnoozeHandler, s.last, now) && !Pressed(MuteHandler, s.last, now)
  {
  }

  /** In every run, at a tick end on the alarm time with the alarm enabled, the alarm rings or is
      snoozed, except exactly when that tick ends a ring that was already running. */
  lemma NoLostAlarm(c: Config, before: seq<Buttons>, now: Buttons)
    requires ValidConfig(c)
    requires AtAlarmTime(c, Run(c, BOOT, before + [now])) && Run(c, BOOT, before + [now]).enabled
    ensures var s := Run(c, BOOT, before);
      Idle(Run(c, BOOT, before + [now])) <==>
        && s.active && s.activeSeconds == c.autoMute - 1
        && !Pressed(SnoozeHandler, s.last, now) && !Pressed(MuteHandler, s.last, now)
  {
    RunStep(c, BOOT, before, now);
    EveryRunFromBoot(c, before);
    AlarmTimeTick(c, Run(c, BOOT, before), now);
  }

  lemma RunStep(c: Config, s: Alarm, before: seq<Buttons>, now: Buttons)
    ensures Run(c, s, before + [now]) == Tick(c, Run(c, s, before), now)
  {
    assert (before + [now])[..|before|] == before;
  }

  /** A mute press in any run, whatever the other buttons do: silence, unless the clock stands at
      the alarm time of an enabled alarm, which rings anew.  So mute wins over snooze. */
  lemma MuteSilences(c: Config, before: seq<Buttons>, now: Buttons)
    requires ValidConfig(c) && Pressed(MuteHandler, LastSample(RELEASED, before), now)
    ensures var t := Run(c, BOOT, before + [now]);
      && (Idle(t) <==> !(AtAlarmTime(c, t) && t.enabled))
      && (AtAlarmTime(c, t) && t.enabled ==> t.active && t.activeSeconds == 1)
  {
    hide Run, Tick, Invariant;
    assert Invariant(c, BOOT) by { RunNothing(c, BOOT); EveryRunFromBoot(c, []); }
    RunKeepsInvariant(c, BOOT, before);
    RunStep(c, BOOT, before, now);
    TickTable(c, Run(c, BOOT, before), now);
  }

  // ---------------------------------------------------------------- the undisturbed run

  function SecondsOfDay(hour: int, minute: int, second: int): int {
    hour * 3600 + minute * 60 + second
  }

  lemma UpdateClockAddsOne(s: Alarm)
    requires ClockInRange(s)
    ensures ClockInRange(UpdateClock(s))
    ensures var t := UpdateClock(s);
      SecondsOfDay(t.hour, t.minute, t.second) == (SecondsOfDay(s.hour, s.minute, s.second) + 1) % 86400
  {
    WrapDay(SecondsOfDay(s.hour, s.minute, s.second));
    var t := UpdateClock(s);
    assert s.second < 59 ==> t == s.(second := s.second + 1);
    assert s.second == 59 && s.minute < 59 ==> t == s.(second := 0, minute := s.minute + 1);
    assert s.second == 59 && s.minute == 59 && s.hour < 23 ==> t == s.(second := 0, minute := 0, hour := s.hour + 1);
  }

  lemma WrapDay(x: int)
    requires 0 <= x < 86400
    ensures (x + 1) % 86400 == if x == 86399 then 0 else x + 1
  {
  }

  lemma SecondsOfDayTellsTime(h: int, m: int, s: int, h': int, m': int, s': int)
    requires 0 <= h < 24 && 0 <= m < 60 && 0 <= s < 60
    requires 0 <= h' < 24 && 0 <= m' < 60 && 0 <= s' < 60
    ensures SecondsOfDay(h, m, s) == SecondsOfDay(h', m', s') <==> h == h' && m == m' && s == s'
  {
    if h < h' {
      assert h * 3600 + 3600 <= h' * 3600;
    } else if h' < h {
      assert h' * 3600 + 3600 <= h * 3600;
    } else if m != m' {
      assert m < m' || m' < m;
    }
  }

  lemma ButtonsLeaveClock(c: Config, s: Alarm, now: Buttons)
    ensures var t := Tick(c, s, now);
      var u := UpdateClock(s);
      t.hour == u.hour && t.minute == u.minute && t.second == u.second
  {
    hide UpdateClock;
  }

  /** The tick of the first ring after boot; an alarm at midnight first rings a day later. */
  function FirstRing(c: Config): int {
    var a := SecondsOfDay(c.hour, c.minute, c.second);
    if a == 0 then 86400 else a
  }

  /** State of the run without presses after n ticks, in closed form. */
  predicate ClosedForm(c: Config, s: Alarm, n: nat) {
    var f := FirstRing(c);
    && ClockInRange(s)
    && SecondsOfDay(s.hour, s.minute, s.second) == n % 86400
    && s.enabled && !s.snoozed
    && (s.active <==> f <= n && (n - f) % 86400 < c.autoMute - 1)
    && s.activeSeconds == if s.active then (n - f) % 86400 + 1 else 0
  }

  lemma ModOf(x: int, q: int, r: int)
    requires x == q * 86400 + r && 0 <= r < 86400
    ensures x % 86400 == r
  {
    var p := x / 86400;
    assert x == p * 86400 + x % 86400;
  }

  lemma NextMod(x: int)
    requires 0 <= x
    ensures (x + 1) % 86400 == (x % 86400 + 1) % 86400
    ensures (x + 1) % 86400 == if x % 86400 == 86399 then 0 else x % 86400 + 1
  {
    var q := x / 86400;
    if x % 86400 == 86399 {
      ModOf(x + 1, q + 1, 0);
    } else {
      ModOf(x + 1, q, x % 86400 + 1);
    }
  }

  /** The clock stands at `a` exactly when a whole number of days has passed since tick `f`. */
  lemma DaysSince(n: nat, a: nat, f: int)
    requires a < 86400 && f == if a == 0 then 86400 else a
    ensures n > 0 ==> (n % 86400 == a <==> f <= n && (n - f) % 86400 == 0)
  {
    if f <= n {
      var q, r := (n - f) / 86400, (n - f) % 86400;
      if r + a < 86400 {
        ModOf(n, if a == 0 then q + 1 else q, r + a);
      } else {
        ModOf(n, q + 1, r + a - 86400);
      }
    }
  }

  /** One tick without a press and without a snooze running. */
  lemma QuietTick(c: Config, s: Alarm, now: Buttons)
    requires ValidConfig(c) && ClockInRange(s) && s.enabled && !s.snoozed && !AnyPress(s.last, now)
    ensures var t := Tick(c, s, now);
      var u := UpdateClock(s);
      && t.enabled && !t.snoozed && t.hour == u.hour && t.minute == u.minute && t.second == u.second
      && (if s.active then
            (if s.activeSeconds + 1 >= c.autoMute then !t.active && t.activeSeconds == 0
             else t.active && t.activeSeconds == s.activeSeconds + 1)
          else if AtAlarmTime(c, u) then t.active && t.activeSeconds == 1
          else !t.active && t.activeSeconds == s.activeSeconds)
  {
  }

  /** The ring's phase one tick on. */
  lemma PhaseStep(n: nat, f: int)
    requires 0 < f
    ensures f <= n ==> (n + 1 - f) % 86400 == if (n - f) % 86400 == 86399 then 0 else (n - f) % 86400 + 1
    ensures n + 1 == f ==> (n + 1 - f) % 86400 == 0
  {
    if f <= n { NextMod(n - f); }
  }

  lemma RingPhase(c: Config, n: nat, f: int, active: bool, count: int, active': bool, count': int, atAlarm: bool)
    requires 2 <= c.autoMute <= 86400 && 0 < f
    requires active <==> f <= n && (n - f) % 86400 < c.autoMute - 1
    requires count == if active then (n - f) % 86400 + 1 else 0
    requires atAlarm <==> f <= n + 1 && (n + 1 - f) % 86400 == 0
    requires if active then
               (if count + 1 >= c.autoMute then !active' && count' == 0 else active' && count' == count + 1)
             else if atAlarm then active' && count' == 1
             else !active' && count' == count
    ensures active' <==> f <= n + 1 && (n + 1 - f) % 86400 < c.autoMute - 1
    ensures count' == if active' then (n + 1 - f) % 86400 + 1 else 0
  {
    PhaseStep(n, f);
    var p := (n - f) % 86400;
    var p' := (n + 1 - f) % 86400;
    assert 0 <= p < 86400 && 0 <= p' < 86400;
  }

  lemma ClosedFormStep(c: Config, s: Alarm, now: Buttons, n: nat)
    requires ValidConfig(c) && ClosedForm(c, s, n) && !AnyPress(s.last, now)
    ensures ClosedForm(c, Tick(c, s, now), n + 1)
  {
    hide UpdateClock, Tick, AnyPress, SecondsOfDay;
    var a := SecondsOfDay(c.hour, c.minute, c.second);
    var f := FirstRing(c);
    var u, t := UpdateClock(s), Tick(c, s, now);
    SecondsInDay(c.hour, c.minute, c.second);
    UpdateClockAddsOne(s);
    NextMod(n);
    DaysSince(n + 1, a, f);
    SecondsOfDayTellsTime(u.hour, u.minute, u.second, c.hour, c.minute, c.second);
    QuietTick(c, s, now);
    RingPhase(c, n, f, s.active, s.activeSeconds, t.active, t.activeSeconds, AtAlarmTime(c, u));
  }

  lemma SecondsInDay(h: int, m: int, s: int)
    requires 0 <= h < 24 && 0 <= m < 60 && 0 <= s < 60
    ensures 0 <= SecondsOfDay(h, m, s) < 86400
  {
  }

  /** From boot without a press: the clock counts the ticks, and the alarm rings for
      `autoMute - 1` tick ends a day, beginning at the alarm time. */
  lemma {:induction false} UndisturbedRun(c: Config, samples: seq<Buttons>)
    requires ValidConfig(c) && NoPress(BOOT.last, samples)
    ensures ClosedForm(c, Run(c, BOOT, samples), |samples|)
    decreases |samples|
  {
    if samples == [] {
      BootClosedForm(c);
    } else {
      hide Tick, ClosedForm;
      var before := samples[..|samples| - 1];
      assert forall i :: 0 <= i < |before| ==> before[..i] == samples[..i];
      UndisturbedRun(c, before);
      RunKeepsInvariant(c, BOOT, before);
      ClosedFormStep(c, Run(c, BOOT, before), samples[|samples| - 1], |before|);
    }
  }

  lemma BootClosedForm(c: Config)
    requires ValidConfig(c)
    ensures ClosedForm(c, BOOT, 0)
  {
    assert 0 < FirstRing(c);
  }

  /** The firmware's own settings, all buttons released from boot. */
  lemma UndisturbedFirmware(samples: seq<Buttons>)
    requires forall i :: 0 <= i < |samples| ==> samples[i] == RELEASED
    ensures var s := Run(FIRMWARE, BOOT, samples);
      && SecondsOfDay(s.hour, s.minute, s.second) == |samples| % 86400
      && (s.active <==> 3 <= |samples| % 86400 <= 21)
  {
    UndisturbedRun(FIRMWARE, samples);
    assert FirstRing(FIRMWARE) == 3;
    RingWindow(|samples|);
    hide Run;
  }

  lemma RingWindow(n: nat)
    ensures 3 <= n && (n - 3) % 86400 < 19 <==> 3 <= n % 86400 <= 21
  {
    var q, r := n / 86400, n % 86400;
    if r >= 3 {
      ModOf(n - 3, q, r - 3);
    } else if 3 <= n {
      ModOf(n - 3, q - 1, r + 86397);
    }
  }

  // ---------------------------------------------------------------- presses

  function Levels(h: Handler, samples: seq<Buttons>): seq<int> {
    seq(|samples|, i requires 0 <= i < |samples| => Pin(h, samples[i]))
  }

  /** Occurrences of 1 directly followed by 0. */
  function Falls(levels: seq<int>): nat
    decreases |levels|
  {
    if |levels| < 2 then 0
    else Falls(levels[..|levels| - 1])
         + if levels[|levels| - 2] == 1 && levels[|levels| - 1] == 0 then 1 else 0
  }

  function Count(h: Handler, calls: seq<Handler>): nat {
    multiset(calls)[h]
  }

  lemma CallsCount(h: Handler, last: Buttons, now: Buttons)
    ensures Count(h, Calls(last, now)) == if Pressed(h, last, now) then 1 else 0
  {
  }

  lemma FallsStep(levels: seq<int>, level: int)
    requires levels != []
    ensures Falls(levels + [level])
         == Falls(levels) + if levels[|levels| - 1] == 1 && level == 0 then 1 else 0
  {
    assert (levels + [level])[..|levels|] == levels;
  }

  lemma LevelsStep(h: Handler, samples: seq<Buttons>, now: Buttons)
    ensures [1] + Levels(h, samples + [now]) == [1] + Levels(h, samples) + [Pin(h, now)]
    ensures |[1] + Levels(h, samples)| == |samples| + 1
    ensures ([1] + Levels(h, samples))[|samples|] == Pin(h, LastSample(RELEASED, samples))
  {
  }

  lemma CountStep(h: Handler, a: seq<Handler>, b: seq<Handler>)
    ensures Count(h, a + b) == Count(h, a) + Count(h, b)
  {
  }

  /** Each handler runs once for every fall of its pin, so a held button acts once. */
  lemma {:induction false} HandlerRunsPerFall(h: Handler, samples: seq<Buttons>)
    ensures Count(h, RunCalls(RELEASED, samples)) == Falls([1] + Levels(h, samples))
    decreases |samples|
  {
    if samples == [] {
    } else {
      var before := samples[..|samples| - 1];
      var now := samples[|samples| - 1];
      assert samples == before + [now];
      HandlerRunsPerFall(h, before);
      CallsCount(h, LastSample(RELEASED, before), now);
      CountStep(h, RunCalls(RELEASED, before), Calls(LastSample(RELEASED, before), now));
      LevelsStep(h, before, now);
      FallsStep([1] + Levels(h, before), Pin(h, now));
      hide Count, Levels, Calls, Pin;
    }
  }

  lemma TickToggles(c: Config, s: Alarm, now: Buttons)
    ensures Tick(c, s, now).enabled == (s.enabled != Pressed(EnableHandler, s.last, now))
  {
  }

  lemma NoFallsYet(h: Handler)
    ensures Falls([1] + Levels(h, [])) == 0
  {
  }

  lemma PressIsFall(h: Handler, last: Buttons, now: Buttons)
    ensures Pressed(h, last, now) <==> Pin(h, last) == 1 && Pin(h, now) == 0
  {
  }

  /** In every run the alarm is enabled exactly if the enable pin has fallen an even number of
      times. */
  lemma {:induction false} EnabledIsParity(c: Config, samples: seq<Buttons>)
    requires ValidConfig(c)
    ensures Run(c, BOOT, samples).enabled <==> Falls([1] + Levels(EnableHandler, samples)) % 2 == 0
    decreases |samples|
  {
    hide Run, Tick, Levels, Falls, Invariant, Pressed;
    if samples == [] {
      RunNothing(c, BOOT);
      NoFallsYet(EnableHandler);
    } else {
      var before, now := samples[..|samples| - 1], samples[|samples| - 1];
      assert samples == before + [now];
      EnabledIsParity(c, before);
      assert Invariant(c, BOOT) by { RunNothing(c, BOOT); EveryRunFromBoot(c, []); }
      RunKeepsInvariant(c, BOOT, before);
      RunStep(c, BOOT, before, now);
      TickToggles(c, Run(c, BOOT, before), now);
      PressIsFall(EnableHandler, LastSample(RELEASED, before), now);
      LevelsStep(EnableHandler, before, now);
      FallsStep([1] + Levels(EnableHandler, before), Pin(EnableHandler, now));
    }
  }
}
