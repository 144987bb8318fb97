/** The alarm clock as a function of its state: one tick is clock, buttons, time check, snooze,
    auto-mute, in that order.  `AlarmClock` holds the mutable form; the run theorems are in
    `AlarmRuns`.  Auto-mute and snooze lengths stay symbolic, since the source announces that
    its auto-mute of 20 seconds becomes 600. */
module AlarmSpec {

  datatype Config = Config(autoMute: int, snooze: int, hour: int, minute: int, second: int)

  const FIRMWARE := Config(20, 300, 0, 0, 3)

  predicate ValidConfig(c: Config) {
    && 2 <= c.autoMute <= 86400
    && 2 <= c.snooze
    && 0 <= c.hour < 24 && 0 <= c.minute < 60 && 0 <= c.second < 60
  }

  /** One sample of the three pins; a pressed button reads 0. */
  datatype Buttons = Buttons(snooze: int, mute: int, enable: int)

  const RELEASED := Buttons(1, 1, 1)

  datatype Alarm = Alarm(hour: int, minute: int, second: int,
                         enabled: bool, active: bool, snoozed: bool,
                         activeSeconds: int, snoozeLeft: int, last: Buttons)

  const BOOT := Alarm(0, 0, 0, true, false, false, 0, 0, RELEASED)

  // ---------------------------------------------------------------- the functions of one tick

  function SecondCarry(s: Alarm): Alarm {
    if s.second >= 60 then s.(second := 0, minute := s.minute + 1) else s
  }

  function MinuteCarry(s: Alarm): Alarm {
    if s.minute >= 60 then s.(minute := 0, hour := s.hour + 1) else s
  }

  function HourCarry(s: Alarm): Alarm {
    if s.hour >= 24 then s.(hour := 0) else s
  }

  function UpdateClock(s: Alarm): Alarm {
    HourCarry(MinuteCarry(SecondCarry(s.(second := s.second + 1))))
  }

  predicate AtAlarmTime(c: Config, s: Alarm) {
    s.hour == c.hour && s.minute == c.minute && s.second == c.second
  }

  function CheckAlarmTime(c: Config, s: Alarm): Alarm {
    if !s.enabled || s.active || s.snoozed then s
    else if AtAlarmTime(c, s) then s.(active := true, activeSeconds := 0)
    else s
  }

  function UpdateSnooze(s: Alarm): Alarm {
    if !s.snoozed then s
    else if s.snoozeLeft - 1 <= 0 then
      s.(snoozeLeft := s.snoozeLeft - 1, snoozed := false, active := true, activeSeconds := 0)
    else s.(snoozeLeft := s.snoozeLeft - 1)
  }

  function UpdateAutoMute(c: Config, s: Alarm): Alarm {
    if !s.active then s
    else if s.activeSeconds + 1 >= c.autoMute then s.(active := false, activeSeconds := 0)
    else s.(activeSeconds := s.activeSeconds + 1)
  }

  function Snooze(c: Config, s: Alarm): Alarm {
    if s.active then
      s.(active := false, snoozed := true, snoozeLeft := c.snooze, activeSeconds := 0)
    else s
  }

  function Mute(s: Alarm): Alarm {
    if s.active || s.snoozed then
      s.(active := false, snoozed := false, activeSeconds := 0, snoozeLeft := 0)
    else s
  }

  function ToggleEnabled(s: Alarm): Alarm {
    if s.enabled then
      s.(enabled := false, active := false, snoozed := false, activeSeconds := 0, snoozeLeft := 0)
    else s.(enabled := true)
  }

  datatype Handler = SnoozeHandler | MuteHandler | EnableHandler

  function Pin(h: Handler, b: Buttons): int {
    match h
    case SnoozeHandler => b.snooze
    case MuteHandler => b.mute
    case EnableHandler => b.enable
  }

  /** A press: the pin falls from 1 to 0 between two samples. */
  predicate Pressed(h: Handler, last: Buttons, now: Buttons) {
    Pin(h, now) == 0 && Pin(h, last) == 1
  }

  predicate AnyPress(last: Buttons, now: Buttons) {
    Pressed(SnoozeHandler, last, now) || Pressed(MuteHandler, last, now) || Pressed(EnableHandler, last, now)
  }

  function CheckButtons(c: Config, s: Alarm, now: Buttons): Alarm {
    var s1 := if Pressed(SnoozeHandler, s.last, now) then Snooze(c, s) else s;
    var s2 := if Pressed(MuteHandler, s.last, now) then Mute(s1) else s1;
    var s3 := if Pressed(EnableHandler, s.last, now) then ToggleEnabled(s2) else s2;
    s3.(last := now)
  }

  /** The handlers that one look at the pins runs, in order. */
  function Calls(last: Buttons, now: Buttons): seq<Handler> {
    (if Pressed(SnoozeHandler, last, now) then [SnoozeHandler] else [])
    + (if Pressed(MuteHandler, last, now) then [MuteHandler] else [])
    + (if Pressed(EnableHandler, last, now) then [EnableHandler] else [])
  }

  function Tick(c: Config, s: Alarm, now: Buttons): Alarm {
    UpdateAutoMute(c, UpdateSnooze(CheckAlarmTime(c, CheckButtons(c, UpdateClock(s), now))))
  }

  // ---------------------------------------------------------------- runs

  /** The state after one tick per sample. */
  function Run(c: Config, s: Alarm, samples: seq<Buttons>): Alarm
    decreases |samples|
  {
    if samples == [] then s
    else Tick(c, Run(c, s, samples[..|samples| - 1]), samples[|samples| - 1])
  }

  /** The handlers run over a sequence of samples. */
  function RunCalls(last: Buttons, samples: seq<Buttons>): seq<Handler>
    decreases |samples|
  {
    if samples == [] then []
    else
      var before := samples[..|samples| - 1];
      RunCalls(last, before) + Calls(LastSample(last, before), samples[|samples| - 1])
  }

  function LastSample(last: Buttons, samples: seq<Buttons>): Buttons {
    if samples == [] then last else samples[|samples| - 1]
  }

  // ---------------------------------------------------------------- the tick, statement by statement

  function SecondCarryTrace(s: Alarm): seq<Alarm> {
    if s.second >= 60 then [s.(second := 0), s.(second := 0, minute := s.minute + 1)] else []
  }

  function MinuteCarryTrace(s: Alarm): seq<Alarm> {
    if s.minute >= 60 then [s.(minute := 0), s.(minute := 0, hour := s.hour + 1)] else []
  }

  function HourCarryTrace(s: Alarm): seq<Alarm> {
    if s.hour >= 24 then [s.(hour := 0)] else []
  }

  function UpdateClockTrace(s: Alarm): seq<Alarm> {
    var s1 := s.(second := s.second + 1);
    var s2 := SecondCarry(s1);
    [s1] + SecondCarryTrace(s1) + MinuteCarryTrace(s2) + HourCarryTrace(MinuteCarry(s2))
  }

  function CheckAlarmTimeTrace(c: Config, s: Alarm): seq<Alarm> {
    if !s.enabled || s.active || s.snoozed then []
    else if AtAlarmTime(c, s) then [s.(active := true), s.(active := true, activeSeconds := 0)]
    else []
  }

  function UpdateSnoozeTrace(s: Alarm): seq<Alarm> {
    if !s.snoozed then [] else
      var a := s.(snoozeLeft := s.snoozeLeft - 1);
      [a] + if a.snoozeLeft <= 0
            then [a.(snoozed := false), a.(snoozed := false, active := true),
                  a.(snoozed := false, active := true, activeSeconds := 0)]
            else []
  }

  function UpdateAutoMuteTrace(c: Config, s: Alarm): seq<Alarm> {
    if !s.active then [] else
      var a := s.(activeSeconds := s.activeSeconds + 1);
      [a] + if a.activeSeconds >= c.autoMute
            then [a.(active := false), a.(active := false, activeSeconds := 0)]
            else []
  }

  function SnoozeTrace(c: Config, s: Alarm): seq<Alarm> {
    if s.active then
      var a := s.(active := false);
      var b := a.(snoozed := true);
      var d := b.(snoozeLeft := c.snooze);
      [a, b, d, d.(activeSeconds := 0)]
    else []
  }

  function MuteTrace(s: Alarm): seq<Alarm> {
    if s.active || s.snoozed then ClearTrace(s) else []
  }

  function ClearTrace(s: Alarm): seq<Alarm> {
    var a := s.(active := false);
    var b := a.(snoozed := false);
    var d := b.(activeSeconds := 0);
    [a, b, d, d.(snoozeLeft := 0)]
  }

  function ToggleEnabledTrace(s: Alarm): seq<Alarm> {
    var a := s.(enabled := !s.enabled);
    [a] + if !a.enabled then ClearTrace(a) else []
  }

  function CheckButtonsTrace(c: Config, s: Alarm, now: Buttons): seq<Alarm> {
    var s1 := if Pressed(SnoozeHandler, s.last, now) then Snooze(c, s) else s;
    var s2 := if Pressed(MuteHandler, s.last, now) then Mute(s1) else s1;
    var s3 := if Pressed(EnableHandler, s.last, now) then ToggleEnabled(s2) else s2;
    (if Pressed(SnoozeHandler, s.last, now) then SnoozeTrace(c, s) else [])
    + (if Pressed(MuteHandler, s.last, now) then MuteTrace(s1) else [])
    + (if Pressed(EnableHandler, s.last, now) then ToggleEnabledTrace(s2) else [])
    + SampleTrace(s3, now)
  }

  function SampleTrace(s: Alarm, now: Buttons): seq<Alarm> {
    [s.(last := s.last.(snooze := now.snooze)),
     s.(last := s.last.(snooze := now.snooze, mute := now.mute)),
     s.(last := now)]
  }

  /** Every state a preempting reader can see during a tick: one after each assignment. */
  function TickTrace(c: Config, s: Alarm, now: Buttons): seq<Alarm> {
    var s1 := UpdateClock(s);
    var s2 := CheckButtons(c, s1, now);
    var s3 := CheckAlarmTime(c, s2);
    var s4 := UpdateSnooze(s3);
    UpdateClockTrace(s) + CheckButtonsTrace(c, s1, now) + CheckAlarmTimeTrace(c, s2)
    + UpdateSnoozeTrace(s3) + UpdateAutoMuteTrace(c, s4)
  }

  function RunTrace(c: Config, s: Alarm, samples: seq<Buttons>): seq<Alarm>
    decreases |samples|
  {
    if samples == [] then []
    else
      var before := samples[..|samples| - 1];
      RunTrace(c, s, before) + TickTrace(c, Run(c, s, before), samples[|samples| - 1])
  }
}
