/** `g_info` between the parser and the display: every byte written and every byte copied is a
    step of its own, and the steps of the two threads interleave freely.  Assumed of the kernel:
    a mutex has at most one owner, and steps are sequentially consistent. */
module Snapshot {
  import opened CText
  import opened InfoScanner

  datatype Owner = Free | Parser | Screen

  /** The parser holds a body and has done its first `written` byte writes. */
  datatype ParserState = ParserIdle | Writing(body: string, written: nat)

  /** The display has copied a prefix; `since` counts the parses completed when it got the lock. */
  datatype ScreenState = ScreenIdle | Copying(copied: seq<char>, since: nat)

  datatype Taken = Taken(copy: seq<char>, version: nat)

  datatype State = State(cells: seq<char>, owner: Owner, parser: ParserState, screen: ScreenState,
                         parsed: seq<string>, snapshots: seq<Taken>)

  datatype Step = ParserLock(body: string) | ParserWrite | ParserUnlock
                | ScreenLock | ScreenTimeout | ScreenCopy | ScreenUnlock

  function Zeroed(): seq<char> {
    seq(INFO_CELLS, _ => NUL)
  }

  const BOOT := State(Zeroed(), Free, ParserIdle, ScreenIdle, [], [])

  /** A step that is not enabled changes nothing. */
  function Do(s: State, step: Step): State {
    match step
    case ParserLock(body) =>
      if s.parser.ParserIdle? && s.owner == Free && NUL !in body then
        s.(owner := Parser, parser := Writing(body, 0))
      else s
    case ParserWrite =>
      if s.parser.Writing? && s.parser.written < |ParseWrites(s.parser.body)| && |s.cells| == INFO_CELLS then
        var w := ParseWrites(s.parser.body)[s.parser.written];
        s.(cells := s.cells[w.at := w.value], parser := Writing(s.parser.body, s.parser.written + 1))
      else s
    case ParserUnlock =>
      if s.parser.Writing? && s.parser.written == |ParseWrites(s.parser.body)| then
        s.(owner := Free, parser := ParserIdle, parsed := s.parsed + [s.parser.body])
      else s
    case ScreenLock =>
      if s.screen.ScreenIdle? && s.owner == Free then s.(owner := Screen, screen := Copying([], |s.parsed|)) else s
    case ScreenTimeout => s
    case ScreenCopy =>
      if s.screen.Copying? && |s.screen.copied| < |s.cells| then
        s.(screen := Copying(s.screen.copied + [s.cells[|s.screen.copied|]], s.screen.since))
      else s
    case ScreenUnlock =>
      if s.screen.Copying? && |s.screen.copied| == |s.cells| then
        s.(owner := Free, screen := ScreenIdle, snapshots := s.snapshots + [Taken(s.screen.copied, s.screen.since)])
      else s
  }

  function Run(steps: seq<Step>): State {
    if steps == [] then BOOT else Do(Run(steps[..|steps| - 1]), steps[|steps| - 1])
  }

  /** The struct after these bodies have been parsed, one whole parse after the other. */
  function AfterParses(bodies: seq<string>): (cells: seq<char>)
    ensures |cells| == INFO_CELLS
  {
    if bodies == [] then Zeroed()
    else Apply(AfterParses(bodies[..|bodies| - 1]), ParseWrites(bodies[|bodies| - 1]))
  }

  // ---------------------------------------------------------------- invariant

  predicate OwnersAgree(s: State) {
    (s.owner == Parser <==> s.parser.Writing?) && (s.owner == Screen <==> s.screen.Copying?)
  }

  predicate CellsAgree(s: State) {
    match s.parser
    case ParserIdle => s.cells == AfterParses(s.parsed)
    case Writing(body, written) =>
      written <= |ParseWrites(body)| && s.cells == Apply(AfterParses(s.parsed), ParseWrites(body)[..written])
  }

  predicate CopyAgrees(s: State) {
    s.screen.Copying? ==> s.screen.copied <= s.cells && s.screen.since == |s.parsed|
  }

  predicate SnapshotsAgree(s: State) {
    && (forall i :: 0 <= i < |s.snapshots| ==>
          && s.snapshots[i].version <= |s.parsed|
          && s.snapshots[i].copy == AfterParses(s.parsed[..s.snapshots[i].version]))
    && (forall i, j :: 0 <= i < j < |s.snapshots| ==> s.snapshots[i].version <= s.snapshots[j].version)
  }

  predicate Invariant(s: State) {
    OwnersAgree(s) && CellsAgree(s) && CopyAgrees(s) && SnapshotsAgree(s)
  }

  lemma WriteKeeps(s: State)
    requires Invariant(s)
    ensures Invariant(Do(s, ParserWrite))
  {
    hide Apply, AfterParses, ParseWrites;
    if s.parser.Writing? && s.parser.written < |ParseWrites(s.parser.body)| {
      var w, n := ParseWrites(s.parser.body), s.parser.written;
      assert w[..n + 1] == w[..n] + [w[n]];
      ApplyOne(AfterParses(s.parsed), w[..n], w[n]);
      assert SnapshotsAgree(Do(s, ParserWrite)) && OwnersAgree(Do(s, ParserWrite));
    }
  }

  lemma ParserUnlockKeeps(s: State)
    requires Invariant(s)
    ensures Invariant(Do(s, ParserUnlock))
  {
    hide AfterParses, ParseWrites, Apply, SnapshotsAgree;
    if s.parser.Writing? && s.parser.written == |ParseWrites(s.parser.body)| {
      var body := s.parser.body;
      var t := Do(s, ParserUnlock);
      var w := ParseWrites(body);
      assert w[..|w|] == w;
      OneMoreParse(s.parsed, body);
      assert CellsAgree(t);
      SnapshotsStay(s, body);
      assert t == s.(owner := Free, parser := ParserIdle, parsed := s.parsed + [body]);
      assert CopyAgrees(t);
    }
  }

  lemma OneMoreParse(parsed: seq<string>, body: string)
    ensures AfterParses(parsed + [body]) == Apply(AfterParses(parsed), ParseWrites(body))
  {
    assert (parsed + [body])[..|parsed|] == parsed;
  }

  lemma SnapshotsStay(s: State, body: string)
    requires SnapshotsAgree(s)
    ensures SnapshotsAgree(s.(owner := Free, parser := ParserIdle, parsed := s.parsed + [body]))
  {
    hide AfterParses;
    forall i | 0 <= i < |s.snapshots|
      ensures (s.parsed + [body])[..s.snapshots[i].version] == s.parsed[..s.snapshots[i].version]
    {
    }
  }

  lemma ScreenUnlockKeeps(s: State)
    requires Invariant(s)
    ensures Invariant(Do(s, ScreenUnlock))
  {
    hide AfterParses, ParseWrites, Apply, SnapshotsAgree;
    if s.screen.Copying? && |s.screen.copied| == |s.cells| {
      var taken := Taken(s.screen.copied, s.screen.since);
      assert s.screen.copied == s.cells == AfterParses(s.parsed);
      assert s.parsed[..|s.parsed|] == s.parsed;
      SnapshotAppended(s, taken);
      assert Do(s, ScreenUnlock) == s.(owner := Free, screen := ScreenIdle, snapshots := s.snapshots + [taken]);
    }
  }

  lemma SnapshotAppended(s: State, taken: Taken)
    requires SnapshotsAgree(s)
    requires taken.version == |s.parsed| && taken.copy == AfterParses(s.parsed[..|s.parsed|])
    ensures SnapshotsAgree(s.(owner := Free, screen := ScreenIdle, snapshots := s.snapshots + [taken]))
  {
    hide AfterParses;
  }

  lemma ParserLockKeeps(s: State, body: string)
    requires Invariant(s)
    ensures Invariant(Do(s, ParserLock(body)))
  {
    hide Apply, AfterParses, ParseWrites;
    ApplyNone(AfterParses(s.parsed));
    assert ParseWrites(body)[..0] == [];
  }

  lemma ScreenLockKeeps(s: State)
    requires Invariant(s)
    ensures Invariant(Do(s, ScreenLock))
  {
    hide Apply, AfterParses, ParseWrites;
  }

  lemma CopyKeeps(s: State)
    requires Invariant(s)
    ensures Invariant(Do(s, ScreenCopy))
  {
    hide AfterParses, ParseWrites, Apply;
  }

  lemma StepKeepsInvariant(s: State, step: Step)
    requires Invariant(s)
    ensures Invariant(Do(s, step))
  {
    hide Invariant;
    match step
    case ParserLock(body) => ParserLockKeeps(s, body);
    case ParserWrite => WriteKeeps(s);
    case ParserUnlock => ParserUnlockKeeps(s);
    case ScreenLock => ScreenLockKeeps(s);
    case ScreenTimeout =>
    case ScreenCopy => CopyKeeps(s);
    case ScreenUnlock => ScreenUnlockKeeps(s);
  }

  lemma BootInvariant()
    ensures Invariant(BOOT)
  {
  }

  lemma {:induction false} RunKeepsInvariant(steps: seq<Step>)
    ensures Invariant(Run(steps))
    decreases |steps|
  {
    hide Invariant, Do;
    BootInvariant();
    if steps == [] {
    } else {
      RunKeepsInvariant(steps[..|steps| - 1]);
      StepKeepsInvariant(Run(steps[..|steps| - 1]), steps[|steps| - 1]);
    }
  }

  // ---------------------------------------------------------------- main result

  /** Whatever the interleaving, every snapshot is the struct after some whole number of completed
      parses, and later snapshots are of later or equal versions. */
  lemma SnapshotsLinearize(steps: seq<Step>, i: nat, j: nat)
    requires i <= j < |Run(steps).snapshots|
    ensures var s := Run(steps);
      && s.snapshots[i].version <= s.snapshots[j].version <= |s.parsed|
      && s.snapshots[j].copy == AfterParses(s.parsed[..s.snapshots[j].version])
  {
    hide Run, AfterParses;
    RunKeepsInvariant(steps);
  }

  /** A snapshot is as recent as its lock: it shows every parse completed before, and none later. */
  lemma SnapshotIsCurrent(steps: seq<Step>)
    requires Do(Run(steps), ScreenUnlock) != Run(steps)
    ensures var s := Run(steps);
      var t := Do(s, ScreenUnlock);
      && |t.snapshots| == |s.snapshots| + 1
      && t.snapshots[|s.snapshots|] == Taken(AfterParses(s.parsed), |s.parsed|)
  {
    hide Run, AfterParses;
    RunKeepsInvariant(steps);
  }

  // ---------------------------------------------------------------- rounds that run to their end

  function Repeat(step: Step, n: nat): seq<Step> {
    seq(n, _ => step)
  }

  lemma RunStep(steps: seq<Step>, step: Step)
    ensures Run(steps + [step]) == Do(Run(steps), step)
  {
    assert (steps + [step])[..|steps|] == steps;
  }

  lemma RepeatStep(before: seq<Step>, step: Step, n: nat)
    requires 0 < n
    ensures before + Repeat(step, n) == before + Repeat(step, n - 1) + [step]
    ensures Run(before + Repeat(step, n)) == Do(Run(before + Repeat(step, n - 1)), step)
  {
    RunStep(before + Repeat(step, n - 1), step);
  }

  lemma {:induction false} Copies(before: seq<Step>, n: nat)
    requires Run(before).screen == Copying([], |Run(before).parsed|)
    requires |Run(before).cells| == INFO_CELLS && n <= INFO_CELLS
    ensures Run(before + Repeat(ScreenCopy, n))
         == Run(before).(screen := Copying(Run(before).cells[..n], |Run(before).parsed|))
    decreases n
  {
    hide Run;
    if n == 0 {
      assert before + Repeat(ScreenCopy, 0) == before;
    } else {
      Copies(before, n - 1);
      RepeatStep(before, ScreenCopy, n);
      var cells := Run(before).cells;
      assert cells[..n] == cells[..n - 1] + [cells[n - 1]];
    }
  }

  /** From every reachable state with the mutex free and the display at rest, a lock, 225 byte
      copies and an unlock take a snapshot of the parses done so far and free the mutex again. */
  lemma RoundTakesSnapshot(steps: seq<Step>)
    requires Run(steps).owner == Free && Run(steps).screen == ScreenIdle
    ensures var s := Run(steps);
      Run(steps + [ScreenLock] + Repeat(ScreenCopy, 225) + [ScreenUnlock])
      == s.(snapshots := s.snapshots + [Taken(AfterParses(s.parsed), |s.parsed|)])
  {
    RunKeepsInvariant(steps);
    hide Run, AfterParses;
    var locked := steps + [ScreenLock];
    RunStep(steps, ScreenLock);
    Copies(locked, 225);
    var s := Run(steps);
    assert s.cells[..225] == s.cells;
    RunStep(locked + Repeat(ScreenCopy, 225), ScreenUnlock);
  }

  lemma {:induction false} Writes(before: seq<Step>, body: string, n: nat)
    requires Run(before).parser == Writing(body, 0) && |Run(before).cells| == INFO_CELLS
    requires n <= |ParseWrites(body)|
    ensures Run(before + Repeat(ParserWrite, n))
         == Run(before).(cells := Apply(Run(before).cells, ParseWrites(body)[..n]), parser := Writing(body, n))
    decreases n
  {
    hide Run, ParseWrites, Apply;
    var w := ParseWrites(body);
    if n == 0 {
      assert before + Repeat(ParserWrite, 0) == before && w[..0] == [];
      ApplyNone(Run(before).cells);
    } else {
      Writes(before, body, n - 1);
      RepeatStep(before, ParserWrite, n);
      assert w[..n] == w[..n - 1] + [w[n - 1]];
      ApplyOne(Run(before).cells, w[..n - 1], w[n - 1]);
    }
  }

  /** From every reachable state with the mutex free and the parser at rest, a lock, all the byte
      writes and an unlock complete one more parse and free the mutex again. */
  lemma RoundCompletesParse(steps: seq<Step>, body: string)
    requires Run(steps).owner == Free && Run(steps).parser == ParserIdle && NUL !in body
    ensures var s := Run(steps);
      var n := Run(steps + [ParserLock(body)] + Repeat(ParserWrite, |ParseWrites(body)|) + [ParserUnlock]);
      && n == s.(cells := AfterParses(s.parsed + [body]), parsed := s.parsed + [body])
  {
    RunKeepsInvariant(steps);
    hide Run, ParseWrites, Apply, AfterParses, SnapshotsAgree;
    var locked := steps + [ParserLock(body)];
    var w := ParseWrites(body);
    RunStep(steps, ParserLock(body));
    Writes(locked, body, |w|);
    assert w[..|w|] == w;
    RunStep(locked + Repeat(ParserWrite, |w|), ParserUnlock);
    OneMoreParse(Run(steps).parsed, body);
  }

  // ---------------------------------------------------------------- terminators

  predicate Terminated(cells: seq<char>)
    requires |cells| == INFO_CELLS
  {
    forall f :: 0 <= f < FIELDS ==> NUL in FieldCells(cells, f)
  }

  predicate BodiesAreText(s: State) {
    && (forall i :: 0 <= i < |s.parsed| ==> NUL !in s.parsed[i])
    && (s.parser.Writing? ==> NUL !in s.parser.body)
  }

  lemma {:induction false} RunParsesText(steps: seq<Step>)
    ensures BodiesAreText(Run(steps))
    decreases |steps|
  {
    hide Do;
    if steps == [] {
    } else {
      RunParsesText(steps[..|steps| - 1]);
      StepParsesText(Run(steps[..|steps| - 1]), steps[|steps| - 1]);
    }
  }

  lemma StepParsesText(s: State, step: Step)
    requires BodiesAreText(s)
    ensures BodiesAreText(Do(s, step))
  {
    hide ParseWrites;
  }

  lemma ParseKeepsTerminator(cells: seq<char>, body: string, f: nat)
    requires |cells| == INFO_CELLS && f < FIELDS && NUL !in body && NUL in FieldCells(cells, f)
    ensures NUL in FieldCells(Apply(cells, ParseWrites(body)), f)
  {
    ParseEffect(cells, body, f);
    var r := ScanField(body, Name(f));
    if r.Some? {
      ScannedFits(body, Name(f));
      var after := FieldCells(Apply(cells, ParseWrites(body)), f);
      assert after[|r.value|] == NUL;
    }
  }

  lemma {:induction false} ParsesKeepTerminators(bodies: seq<string>)
    requires forall i :: 0 <= i < |bodies| ==> NUL !in bodies[i]
    ensures Terminated(AfterParses(bodies))
    decreases |bodies|
  {
    if bodies == [] {
      forall f | 0 <= f < FIELDS
        ensures NUL in FieldCells(Zeroed(), f)
      {
        assert FieldCells(Zeroed(), f)[0] == NUL;
      }
    } else {
      var before := bodies[..|bodies| - 1];
      ParsesKeepTerminators(before);
      forall f | 0 <= f < FIELDS
        ensures NUL in FieldCells(AfterParses(bodies), f)
      {
        ParseKeepsTerminator(AfterParses(before), bodies[|bodies| - 1], f);
      }
    }
  }

  /** In every snapshot every field is terminated, so no reader runs past it. */
  lemma SnapshotTerminated(steps: seq<Step>, j: nat)
    requires j < |Run(steps).snapshots|
    ensures |Run(steps).snapshots[j].copy| == INFO_CELLS && Terminated(Run(steps).snapshots[j].copy)
  {
    SnapshotsLinearize(steps, j, j);
    RunParsesText(steps);
    hide Run, AfterParses, Terminated;
    var s := Run(steps);
    ParsesKeepTerminators(s.parsed[..s.snapshots[j].version]);
  }
}
