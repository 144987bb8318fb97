/** The alarm thread's file-level state and the functions that update it in place.
    `log` records the state after every assignment, `calls` every handler that is run. */
module AlarmClock {
  import opened AlarmSpec

  lemma ConcatFive<T>(l: seq<T>, a: seq<T>, b: seq<T>, c: seq<T>, d: seq<T>, e: seq<T>)
    ensures l + a + b + c + d + e == l + (a + b + c + d + e)
  {
  }

  lemma ConcatFour<T>(l: seq<T>, a: seq<T>, b: seq<T>, c: seq<T>, d: seq<T>)
    ensures l + a + b + c + d == l + (a + b + c + d)
  {
  }

  class AlarmClock {
    const config: Config

    var currentHour: int
    var currentMinute: int
    var currentSecond: int

    var alarmEnabled: bool
    var alarmActive: bool
    var alarmSnoozed: bool
    var activeSeconds: int
    var snoozeSecondsLeft: int

    var lastSnooze: int
    var lastMute: int
    var lastEnable: int

    ghost var log: seq<Alarm>
    ghost var calls: seq<Handler>

    ghost function State(): Alarm
      reads this
    {
      Alarm(currentHour, currentMinute, currentSecond, alarmEnabled, alarmActive, alarmSnoozed,
            activeSeconds, snoozeSecondsLeft, Buttons(lastSnooze, lastMute, lastEnable))
    }

    constructor (config: Config)
      ensures this.config == config && State() == BOOT && log == [] && calls == []
    {
      this.config := config;
      currentHour, currentMinute, currentSecond := 0, 0, 0;
      alarmEnabled, alarmActive, alarmSnoozed := true, false, false;
      activeSeconds, snoozeSecondsLeft := 0, 0;
      lastSnooze, lastMute, lastEnable := 1, 1, 1;
      log, calls := [], [];
    }

    ghost method Note()
      modifies `log
      ensures log == old(log) + [State()]
    {
      log := log + [State()];
    }

    method UpdateClock()
      modifies `currentHour, `currentMinute, `currentSecond, `log
      ensures State() == AlarmSpec.UpdateClock(old(State())) && State().last == old(State().last)
      ensures log == old(log) + UpdateClockTrace(old(State()))
    {
      hide SecondCarryTrace, MinuteCarryTrace, SecondCarry, MinuteCarry;
      ghost var s1 := State().(second := currentSecond + 1);
      currentSecond := currentSecond + 1; Note();
      CarrySecond();
      CarryMinute();
      if currentHour >= 24 {
        currentHour := 0; Note();
      }
      ghost var s2 := SecondCarry(s1);
      ghost var s3 := MinuteCarry(s2);
      ConcatFour(old(log), [s1], SecondCarryTrace(s1), MinuteCarryTrace(s2), HourCarryTrace(s3));
    }

    method CarrySecond()
      modifies `currentMinute, `currentSecond, `log
      ensures State() == SecondCarry(old(State())) && log == old(log) + SecondCarryTrace(old(State()))
    {
      if currentSecond >= 60 {
        currentSecond := 0; Note();
        currentMinute := currentMinute + 1; Note();
      }
    }

    method CarryMinute()
      modifies `currentHour, `currentMinute, `log
      ensures State() == MinuteCarry(old(State())) && log == old(log) + MinuteCarryTrace(old(State()))
    {
      if currentMinute >= 60 {
        currentMinute := 0; Note();
        currentHour := currentHour + 1; Note();
      }
    }

    method CheckAlarmTime()
      modifies `alarmActive, `activeSeconds, `log
      ensures State() == AlarmSpec.CheckAlarmTime(config, old(State())) && State().last == old(State().last)
      ensures log == old(log) + CheckAlarmTimeTrace(config, old(State()))
    {
      if !alarmEnabled || alarmActive || alarmSnoozed { return; }
      if currentHour == config.hour && currentMinute == config.minute && currentSecond == config.second {
        alarmActive := true; Note();
        activeSeconds := 0; Note();
      }
    }

    method UpdateSnooze()
      modifies `alarmActive, `alarmSnoozed, `activeSeconds, `snoozeSecondsLeft, `log
      ensures State() == AlarmSpec.UpdateSnooze(old(State()))
      ensures log == old(log) + UpdateSnoozeTrace(old(State()))
    {
      if !alarmSnoozed { return; }
      snoozeSecondsLeft := snoozeSecondsLeft - 1; Note();
      if snoozeSecondsLeft <= 0 {
        alarmSnoozed := false; Note();
        alarmActive := true; Note();
        activeSeconds := 0; Note();
      }
    }

    method UpdateAutoMute()
      modifies `alarmActive, `activeSeconds, `log
      ensures State() == AlarmSpec.UpdateAutoMute(config, old(State()))
      ensures log == old(log) + UpdateAutoMuteTrace(config, old(State()))
    {
      if !alarmActive { return; }
      activeSeconds := activeSeconds + 1; Note();
      if activeSeconds >= config.autoMute {
        alarmActive := false; Note();
        activeSeconds := 0; Note();
      }
    }

    method Snooze()
      modifies `alarmActive, `alarmSnoozed, `activeSeconds, `snoozeSecondsLeft, `log, `calls
      ensures State() == AlarmSpec.Snooze(config, old(State()))
      ensures log == old(log) + SnoozeTrace(config, old(State()))
      ensures calls == old(calls) + [SnoozeHandler]
    {
      calls := calls + [SnoozeHandler];
      if alarmActive {
        alarmActive := false; Note();
        alarmSnoozed := true; Note();
        snoozeSecondsLeft := config.snooze; Note();
        activeSeconds := 0; Note();
      }
    }

    /** The four assignments that end a ring or a snooze for good. */
    method Clear()
      modifies `alarmActive, `alarmSnoozed, `activeSeconds, `snoozeSecondsLeft, `log
      ensures State() == old(State()).(active := false, snoozed := false, activeSeconds := 0, snoozeLeft := 0)
      ensures log == old(log) + ClearTrace(old(State()))
    {
      alarmActive := false; Note();
      alarmSnoozed := false; Note();
      activeSeconds := 0; Note();
      snoozeSecondsLeft := 0; Note();
    }

    method Mute()
      modifies `alarmActive, `alarmSnoozed, `activeSeconds, `snoozeSecondsLeft, `log, `calls
      ensures State() == AlarmSpec.Mute(old(State()))
      ensures log == old(log) + MuteTrace(old(State()))
      ensures calls == old(calls) + [MuteHandler]
    {
      calls := calls + [MuteHandler];
      if alarmActive || alarmSnoozed {
        Clear();
      }
    }

    method ToggleEnabled()
      modifies `alarmEnabled, `alarmActive, `alarmSnoozed, `activeSeconds, `snoozeSecondsLeft, `log, `calls
      ensures State() == AlarmSpec.ToggleEnabled(old(State()))
      ensures log == old(log) + ToggleEnabledTrace(old(State()))
      ensures calls == old(calls) + [EnableHandler]
    {
      hide ClearTrace;
      calls := calls + [EnableHandler];
      alarmEnabled := !alarmEnabled; Note();
      if !alarmEnabled {
        Clear();
      }
    }

    method CheckButtons(snoozeNow: int, muteNow: int, enableNow: int)
      modifies this
      ensures State() == AlarmSpec.CheckButtons(config, old(State()), Buttons(snoozeNow, muteNow, enableNow))
      ensures log == old(log) + CheckButtonsTrace(config, old(State()), Buttons(snoozeNow, muteNow, enableNow))
      ensures calls == old(calls) + Calls(old(State().last), Buttons(snoozeNow, muteNow, enableNow))
    {
      ghost var s, now := State(), Buttons(snoozeNow, muteNow, enableNow);
      ghost var a, b, d: seq<Alarm> := [], [], [];
      ghost var x, y, z: seq<Handler> := [], [], [];
      hide SnoozeTrace, MuteTrace, ToggleEnabledTrace, SampleTrace;
      hide AlarmSpec.Snooze, AlarmSpec.Mute, AlarmSpec.ToggleEnabled;
      if snoozeNow == 0 && lastSnooze == 1 { Snooze(); a, x := SnoozeTrace(config, s), [SnoozeHandler]; }
      ghost var s1 := State();
      assert log == old(log) + a && calls == old(calls) + x;
      if muteNow == 0 && lastMute == 1 { Mute(); b, y := MuteTrace(s1), [MuteHandler]; }
      ghost var s2 := State();
      assert log == old(log) + a + b && calls == old(calls) + x + y;
      if enableNow == 0 && lastEnable == 1 { ToggleEnabled(); d, z := ToggleEnabledTrace(s2), [EnableHandler]; }
      ghost var s3 := State();
      assert log == old(log) + a + b + d && calls == old(calls) + x + y + z;
      Remember(snoozeNow, muteNow, enableNow);
      ConcatFour(old(log), a, b, d, SampleTrace(s3, now));
      ConcatFour(old(calls), x, y, z, []);
    }

    method Remember(snoozeNow: int, muteNow: int, enableNow: int)
      modifies `lastSnooze, `lastMute, `lastEnable, `log
      ensures State() == old(State()).(last := Buttons(snoozeNow, muteNow, enableNow))
      ensures log == old(log) + SampleTrace(old(State()), Buttons(snoozeNow, muteNow, enableNow))
    {
      lastSnooze := snoozeNow; Note();
      lastMute := muteNow; Note();
      lastEnable := enableNow; Note();
    }

    /** One turn of the alarm thread's loop. */
    method Tick(snoozeNow: int, muteNow: int, enableNow: int)
      modifies this
      ensures State() == AlarmSpec.Tick(config, old(State()), Buttons(snoozeNow, muteNow, enableNow))
      ensures log == old(log) + TickTrace(config, old(State()), Buttons(snoozeNow, muteNow, enableNow))
      ensures calls == old(calls) + Calls(old(State().last), Buttons(snoozeNow, muteNow, enableNow))
      ensures State().last == Buttons(snoozeNow, muteNow, enableNow)
    {
      hide UpdateClockTrace, CheckButtonsTrace, CheckAlarmTimeTrace, UpdateSnoozeTrace, UpdateAutoMuteTrace;
      hide AlarmSpec.UpdateClock, AlarmSpec.CheckAlarmTime, AlarmSpec.UpdateSnooze, AlarmSpec.UpdateAutoMute, Calls;
      ghost var s0, now := State(), Buttons(snoozeNow, muteNow, enableNow);
      UpdateClock();
      ghost var s1 := State();
      CheckButtons(snoozeNow, muteNow, enableNow);
      ghost var s2 := State();
      CheckAlarmTime();
      ghost var s3 := State();
      UpdateSnooze();
      ghost var s4 := State();
      UpdateAutoMute();
      ConcatFive(old(log), UpdateClockTrace(s0), CheckButtonsTrace(config, s1, now),
                 CheckAlarmTimeTrace(config, s2), UpdateSnoozeTrace(s3), UpdateAutoMuteTrace(config, s4));
    }

    /** The alarm thread from boot, for as many ticks as there are samples. */
    method Loop(samples: seq<Buttons>)
      requires State() == BOOT && log == [] && calls == []
      modifies this
      ensures State() == Run(config, BOOT, samples)
      ensures log == RunTrace(config, BOOT, samples)
      ensures calls == RunCalls(BOOT.last, samples)
    {
      hide AlarmSpec.Tick, TickTrace, Calls;
      for i := 0 to |samples|
        invariant State() == Run(config, BOOT, samples[..i])
        invariant State().last == LastSample(BOOT.last, samples[..i])
        invariant log == RunTrace(config, BOOT, samples[..i])
        invariant calls == RunCalls(BOOT.last, samples[..i])
      {
        assert samples[..i + 1][..i] == samples[..i];
        Tick(samples[i].snooze, samples[i].mute, samples[i].enable);
      }
      assert samples[..|samples|] == samples;
    }
  }
}
