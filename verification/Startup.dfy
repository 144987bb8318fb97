/** The start-up semaphore between the Wi-Fi thread and the two network threads, over all
    interleavings.  Assumed of the kernel: the count is at most 1, a give goes straight to the
    waiter of highest priority (the Wi-Fi thread, then first come) and else raises the count or,
    at the limit, is lost; a take with a token never waits. */
module Startup {

  datatype Thread = Wifi | Info | News

  datatype Status = Booting | Waiting | Admitted | GaveUp

  /** `wifiGives`: gives the Wi-Fi thread has yet to make once it is admitted.  `bothAtFirst` and
      `firstTaker` remember how the first give found the threads. */
  datatype State = State(count: nat, waiters: seq<Thread>,
                         wifi: Status, info: Status, news: Status,
                         ipHandled: bool, wifiGives: nat,
                         gives: nat, takes: nat, lost: nat,
                         bothAtFirst: bool, wifiFirst: bool)

  const BOOT := State(0, [], Booting, Booting, Booting, false, 2, 0, 0, 0, false, false)

  datatype Step = Arrive(t: Thread) | WifiFails | Timeout(t: Thread) | Ipv4Event | WifiGive

  function StatusOf(s: State, t: Thread): Status {
    match t
    case Wifi => s.wifi
    case Info => s.info
    case News => s.news
  }

  function SetStatus(s: State, t: Thread, status: Status): State {
    match t
    case Wifi => s.(wifi := status)
    case Info => s.(info := status)
    case News => s.(news := status)
  }

  function Remove(waiters: seq<Thread>, t: Thread): seq<Thread> {
    if waiters == [] then []
    else if waiters[0] == t then waiters[1..]
    else [waiters[0]] + Remove(waiters[1..], t)
  }

  /** The waiter a give is handed to. */
  function Chosen(waiters: seq<Thread>): Thread
    requires waiters != []
  {
    if Wifi in waiters then Wifi else waiters[0]
  }

  function Give(s: State): State {
    var g := s.(gives := s.gives + 1);
    if s.waiters != [] then
      var t := Chosen(s.waiters);
      SetStatus(g, t, Admitted).(waiters := Remove(s.waiters, t), takes := s.takes + 1)
    else if s.count < 1 then g.(count := s.count + 1)
    else g.(lost := s.lost + 1)
  }

  function Take(s: State, t: Thread): State {
    if s.count > 0 then SetStatus(s, t, Admitted).(count := s.count - 1, takes := s.takes + 1)
    else SetStatus(s, t, Waiting).(waiters := s.waiters + [t])
  }

  /** A step that is not enabled changes nothing. */
  function Do(s: State, step: Step): State {
    match step
    case Arrive(t) => if StatusOf(s, t) == Booting then Take(s, t) else s
    case WifiFails => if s.wifi == Booting then s.(wifi := GaveUp) else s
    case Timeout(t) =>
      if StatusOf(s, t) == Waiting then SetStatus(s, t, GaveUp).(waiters := Remove(s.waiters, t)) else s
    case Ipv4Event =>
      if s.ipHandled then s
      else
        Give(s.(ipHandled := true,
                bothAtFirst := s.info == Waiting && s.news == Waiting,
                wifiFirst := s.wifi == Waiting))
    case WifiGive =>
      if s.wifi == Admitted && s.wifiGives > 0 then Give(s.(wifiGives := s.wifiGives - 1)) else s
  }

  function Run(steps: seq<Step>): State {
    if steps == [] then BOOT else Do(Run(steps[..|steps| - 1]), steps[|steps| - 1])
  }

  // ---------------------------------------------------------------- the mutable form

  /** The semaphore with its waiters, the threads at it, and the flag of the event handler. */
  class ReadySemaphore {
    var count: nat
    var waiters: seq<Thread>
    var status: map<Thread, Status>
    var ipHandled: bool
    var wifiGives: nat

    ghost var gives: nat
    ghost var takes: nat
    ghost var lost: nat
    ghost var bothAtFirst: bool
    ghost var wifiFirst: bool

    ghost predicate Valid()
      reads this
    {
      forall t: Thread :: t in status
    }

    ghost function Now(): State
      reads this
      requires Valid()
    {
      State(count, waiters, status[Wifi], status[Info], status[News], ipHandled, wifiGives,
            gives, takes, lost, bothAtFirst, wifiFirst)
    }

    constructor ()
      ensures Valid() && Now() == BOOT
    {
      count, waiters, ipHandled, wifiGives := 0, [], false, 2;
      var start := map[Wifi := Booting, Info := Booting, News := Booting];
      forall t: Thread
        ensures t in start
      {
        match t { case Wifi => case Info => case News => }
      }
      status := start;
      gives, takes, lost, bothAtFirst, wifiFirst := 0, 0, 0, false, false;
    }

    /** `k_sem_give`. */
    method SemGive()
      requires Valid()
      modifies this
      ensures Valid() && Now() == Give(old(Now()))
    {
      gives := gives + 1;
      if waiters != [] {
        var t := Chosen(waiters);
        status, waiters, takes := status[t := Admitted], Remove(waiters, t), takes + 1;
      } else if count < 1 {
        count := count + 1;
      } else {
        lost := lost + 1;
      }
    }

    /** `k_sem_take`, as far as it goes without waiting. */
    method SemTake(t: Thread)
      requires Valid()
      modifies this
      ensures Valid() && Now() == Take(old(Now()), t)
    {
      if count > 0 {
        status, count, takes := status[t := Admitted], count - 1, takes + 1;
      } else {
        status, waiters := status[t := Waiting], waiters + [t];
      }
    }

    method EventHandler(ipv4AddrAdd: bool)
      requires Valid()
      modifies this
      ensures Valid() && Now() == if ipv4AddrAdd then Do(old(Now()), Ipv4Event) else old(Now())
    {
      if ipv4AddrAdd && !ipHandled {
        ipHandled := true;
        bothAtFirst := status[Info] == Waiting && status[News] == Waiting;
        wifiFirst := status[Wifi] == Waiting;
        SemGive();
      }
    }

    /** One step of whichever thread is scheduled. */
    method Perform(step: Step)
      requires Valid()
      modifies this
      ensures Valid() && Now() == Do(old(Now()), step)
    {
      hide Give, Take, Remove;
      match step
      case Arrive(t) =>
        if status[t] == Booting { SemTake(t); }
      case WifiFails =>
        if status[Wifi] == Booting { status := status[Wifi := GaveUp]; }
      case Timeout(t) =>
        if status[t] == Waiting { status, waiters := status[t := GaveUp], Remove(waiters, t); }
      case Ipv4Event =>
        EventHandler(true);
      case WifiGive =>
        if status[Wifi] == Admitted && wifiGives > 0 {
          wifiGives := wifiGives - 1;
          SemGive();
        }
    }

    /** Any schedule from boot. */
    method Schedule(steps: seq<Step>)
      requires Valid() && Now() == BOOT
      modifies this
      ensures Valid() && Now() == Run(steps)
    {
      hide Do;
      for i := 0 to |steps|
        invariant Valid() && Now() == Run(steps[..i])
      {
        assert steps[..i + 1][..i] == steps[..i];
        Perform(steps[i]);
      }
      assert steps[..|steps|] == steps;
    }
  }

  // ---------------------------------------------------------------- invariant

  function One(b: bool): nat {
    if b then 1 else 0
  }

  /** Network threads that have been let through. */
  function NetAdmitted(s: State): nat {
    One(s.info == Admitted) + One(s.news == Admitted)
  }

  predicate QueueAgrees(s: State) {
    && (forall t :: t in s.waiters <==> StatusOf(s, t) == Waiting)
    && (forall i, j :: 0 <= i < j < |s.waiters| ==> s.waiters[i] != s.waiters[j])
    && (s.count > 0 ==> s.waiters == [])
  }

  predicate TokensAgree(s: State) {
    && s.count <= 1 && s.wifiGives <= 2
    && (s.wifi != Admitted ==> s.wifiGives == 2)
    && (s.wifiGives >= 1 ==> s.lost == 0)
    && (!s.ipHandled ==> s.gives == 0)
    && s.gives == s.takes + s.count + s.lost
    && s.gives == One(s.ipHandled) + 2 - s.wifiGives
    && s.takes == NetAdmitted(s) + One(s.wifi == Admitted)
  }

  /** Consequences of how the first give found the threads. */
  predicate FirstGiveAgrees(s: State) {
    && (s.bothAtFirst ==> s.ipHandled && s.info != Booting && s.news != Booting)
    && (s.bothAtFirst && s.wifiFirst ==>
          && s.wifi == Admitted
          && (s.info != GaveUp && s.news != GaveUp ==> NetAdmitted(s) == 2 - s.wifiGives))
    && (s.bothAtFirst && !s.wifiFirst ==> s.wifi != Admitted && s.count == 0 && NetAdmitted(s) == 1)
  }

  predicate Invariant(s: State) {
    QueueAgrees(s) && TokensAgree(s) && FirstGiveAgrees(s)
  }

  lemma {:induction false} RemoveOne(waiters: seq<Thread>, t: Thread)
    requires t in waiters
    requires forall i, j :: 0 <= i < j < |waiters| ==> waiters[i] != waiters[j]
    ensures var r := Remove(waiters, t);
      && (forall u :: u in r <==> u in waiters && u != t)
      && (forall i, j :: 0 <= i < j < |r| ==> r[i] != r[j])
  {
    if waiters[0] != t {
      var rest := waiters[1..];
      assert t in rest;
      RemoveOne(rest, t);
      assert forall u :: u in waiters <==> u == waiters[0] || u in rest;
      assert forall i :: 0 <= i < |rest| ==> rest[i] == waiters[i + 1];
    } else {
      assert forall u :: u in waiters <==> u == t || u in waiters[1..];
    }
  }

  lemma GiveKeepsQueue(s: State)
    requires QueueAgrees(s)
    ensures QueueAgrees(Give(s))
  {
    if s.waiters != [] {
      RemoveOne(s.waiters, Chosen(s.waiters));
    }
  }

  /** Who gets a give. */
  lemma GiveEffect(s: State)
    requires QueueAgrees(s) && s.count <= 1
    ensures var g := Give(s);
      && g.gives == s.gives + 1 && g.ipHandled == s.ipHandled && g.wifiGives == s.wifiGives
      && g.bothAtFirst == s.bothAtFirst && g.wifiFirst == s.wifiFirst
      && (if s.wifi == Waiting then
            g.wifi == Admitted && g.info == s.info && g.news == s.news && g.takes == s.takes + 1
            && g.count == s.count && g.lost == s.lost
          else if s.info == Waiting || s.news == Waiting then
            g.wifi == s.wifi && g.takes == s.takes + 1 && g.count == s.count && g.lost == s.lost
            && ( (s.info == Waiting && g.info == Admitted && g.news == s.news)
              || (s.news == Waiting && g.news == Admitted && g.info == s.info))
          else
            g.wifi == s.wifi && g.info == s.info && g.news == s.news && g.takes == s.takes
            && g.count + g.lost == s.count + s.lost + 1 && g.count == 1)
  {
    if s.waiters != [] {
      assert Chosen(s.waiters) in s.waiters;
    } else {
      assert Wifi !in s.waiters && Info !in s.waiters && News !in s.waiters;
    }
  }

  lemma ArriveKeeps(s: State, t: Thread)
    requires Invariant(s)
    ensures Invariant(Do(s, Arrive(t)))
  {
    if StatusOf(s, t) == Booting && s.count == 0 {
      var q := Take(s, t);
      assert q.waiters == s.waiters + [t];
      assert forall u :: u in q.waiters <==> u in s.waiters || u == t;
    }
  }

  lemma TimeoutKeeps(s: State, t: Thread)
    requires Invariant(s)
    ensures Invariant(Do(s, Timeout(t)))
  {
    if StatusOf(s, t) == Waiting {
      RemoveOne(s.waiters, t);
    }
  }

  lemma EventKeeps(s: State)
    requires Invariant(s)
    ensures Invariant(Do(s, Ipv4Event))
  {
    if !s.ipHandled {
      var s1 := s.(ipHandled := true,
                   bothAtFirst := s.info == Waiting && s.news == Waiting,
                   wifiFirst := s.wifi == Waiting);
      SameQueue(s, s1);
      assert s.info == Waiting ==> Info in s.waiters;
      GiveKeepsQueue(s1);
      GiveEffect(s1);
      hide QueueAgrees, Give;
    }
  }

  lemma SameQueue(s: State, s1: State)
    requires QueueAgrees(s) && s1.waiters == s.waiters && s1.count == s.count
    requires s1.wifi == s.wifi && s1.info == s.info && s1.news == s.news
    ensures QueueAgrees(s1)
  {
  }

  lemma WifiGiveKeeps(s: State)
    requires Invariant(s)
    ensures Invariant(Do(s, WifiGive))
  {
    if s.wifi == Admitted && s.wifiGives > 0 {
      var s1 := s.(wifiGives := s.wifiGives - 1);
      SameQueue(s, s1);
      GiveKeepsQueue(s1);
      GiveEffect(s1);
      hide QueueAgrees, Give;
    }
  }

  lemma StepKeepsInvariant(s: State, step: Step)
    requires Invariant(s)
    ensures Invariant(Do(s, step))
  {
    match step
    case Arrive(t) => ArriveKeeps(s, t);
    case WifiFails =>
    case Timeout(t) => TimeoutKeeps(s, t);
    case Ipv4Event => EventKeeps(s);
    case WifiGive => WifiGiveKeeps(s);
  }

  lemma BootInvariant()
    ensures Invariant(BOOT)
  {
  }

  lemma {:induction false} RunKeepsInvariant(steps: seq<Step>)
    ensures Invariant(Run(steps))
    decreases |steps|
  {
    hide Invariant, Do;
    BootInvariant();
    if steps == [] {
    } else {
      RunKeepsInvariant(steps[..|steps| - 1]);
      StepKeepsInvariant(Run(steps[..|steps| - 1]), steps[|steps| - 1]);
    }
  }

  // ---------------------------------------------------------------- main results

  /** In every run no thread passes before the IPv4 event, and every give is a take, the token in
      the count, or lost. */
  lemma NoEarlyPassAndConservation(steps: seq<Step>)
    ensures var s := Run(steps);
      && (s.info == Admitted || s.news == Admitted || s.wifi == Admitted ==> s.ipHandled)
      && s.gives == s.takes + s.count + s.lost
  {
    hide Run;
    RunKeepsInvariant(steps);
  }

  lemma RunStep(before: seq<Step>, step: Step)
    ensures Run(before + [step]) == Do(Run(before), step)
  {
    assert (before + [step])[..|before|] == before;
  }

  /** After the last give nothing more is lost, and whoever gave up stays out. */
  lemma {:induction false} AfterLastGive(before: seq<Step>, after: seq<Step>)
    requires Run(before).wifiGives == 0
    ensures var s, t := Run(before), Run(before + after);
      && t.wifiGives == 0 && t.lost == s.lost
      && (s.info == GaveUp ==> t.info == GaveUp) && (s.news == GaveUp ==> t.news == GaveUp)
    decreases |after|
  {
    hide Run, Do, Invariant;
    if after == [] {
      assert before + after == before;
    } else {
      var front, step := after[..|after| - 1], after[|after| - 1];
      AfterLastGive(before, front);
      RunKeepsInvariant(before + front);
      assert before + after == before + front + [step];
      RunStep(before + front, step);
      NothingLost(Run(before + front), step);
    }
  }

  lemma NothingLost(s: State, step: Step)
    requires Invariant(s) && s.wifiGives == 0
    ensures var t := Do(s, step);
      && t.wifiGives == 0 && t.lost == s.lost
      && (s.info == GaveUp ==> t.info == GaveUp) && (s.news == GaveUp ==> t.news == GaveUp)
  {
  }

  /** The Wi-Fi thread's second give is lost exactly if no network thread has come yet. */
  lemma LastGive(s: State)
    requires Invariant(s) && s.wifi == Admitted && s.wifiGives == 1
    requires s.info != GaveUp && s.news != GaveUp
    ensures var t := Do(s, WifiGive);
      && t.wifiGives == 0
      && (t.lost == 0 <==> s.info != Booting || s.news != Booting)
  {
    GiveEffect(s.(wifiGives := 0));
  }

  lemma GaveUpStays(s: State, step: Step)
    requires Invariant(s)
    ensures s.info == GaveUp ==> Do(s, step).info == GaveUp
    ensures s.news == GaveUp ==> Do(s, step).news == GaveUp
  {
    assert s.waiters != [] ==> Chosen(s.waiters) in s.waiters;
  }

  /** The promise of the two gives: when both network threads have come and neither has given up,
      both are through exactly if one of them had come before the Wi-Fi thread's second give. */
  lemma AdmittedExactly(before: seq<Step>, after: seq<Step>)
    requires Run(before).wifi == Admitted && Run(before).wifiGives == 1
    requires var s := Run(before + [WifiGive] + after);
      s.info != Booting && s.info != GaveUp && s.news != Booting && s.news != GaveUp
    ensures var s := Run(before + [WifiGive] + after);
      s.info == Admitted && s.news == Admitted <==> Run(before).info != Booting || Run(before).news != Booting
  {
    hide Run, Do, Invariant;
    RunKeepsInvariant(before);
    RunStep(before, WifiGive);
    GaveUpStays(Run(before), WifiGive);
    AfterLastGive(before + [WifiGive], after) by { GiveCounts(Run(before)); }
    LastGive(Run(before));
    RunKeepsInvariant(before + [WifiGive] + after);
    AdmittedByTokens(Run(before + [WifiGive] + after));
  }

  lemma GiveCounts(s: State)
    requires s.wifi == Admitted && s.wifiGives == 1
    ensures Do(s, WifiGive).wifiGives == 0
  {
  }

  /** With all gives made and both network threads past their arrival, both are through exactly if
      no give was lost. */
  lemma AdmittedByTokens(s: State)
    requires Invariant(s) && s.wifiGives == 0
    requires s.info == Waiting || s.info == Admitted
    requires s.news == Waiting || s.news == Admitted
    ensures s.info == Admitted && s.news == Admitted <==> s.lost == 0
  {
    assert s.info == Waiting ==> Info in s.waiters;
    assert s.news == Waiting ==> News in s.waiters;
  }

  /** Before the Wi-Fi thread is admitted at most one network thread is. */
  lemma OneBeforeWifi(steps: seq<Step>)
    ensures Run(steps).wifi != Admitted ==> NetAdmitted(Run(steps)) <= 1
  {
    hide Run;
    RunKeepsInvariant(steps);
  }

  /** If both network threads wait at the first give and neither gives up: when the Wi-Fi thread
      waits too it takes that give and its own two gives admit both; when it does not, exactly one
      network thread is admitted, then and for the rest of the run. */
  lemma FirstGiveDecides(steps: seq<Step>)
    requires Run(steps).bothAtFirst
    ensures var s := Run(steps);
      && (s.wifiFirst && s.info != GaveUp && s.news != GaveUp && s.wifiGives == 0 ==> NetAdmitted(s) == 2)
      && (!s.wifiFirst ==> NetAdmitted(s) == 1 && s.wifi != Admitted)
  {
    hide Run;
    RunKeepsInvariant(steps);
  }

  /** If both network threads wait for the first give and the Wi-Fi thread does not, then in every
      continuation the one that came first is admitted, and no other thread ever is. */
  lemma EarlyEventStarvesOne(before: seq<Step>, steps: seq<Step>)
    requires !Run(before).ipHandled && Run(before).wifi != Waiting
    requires Run(before).info == Waiting && Run(before).news == Waiting
    ensures Run(before).waiters != []
    ensures var s := Run(before + [Ipv4Event] + steps);
      forall t :: StatusOf(s, t) == Admitted <==> t == Run(before).waiters[0]
  {
    hide Run, Do, Invariant;
    RunKeepsInvariant(before);
    RunStep(before, Ipv4Event);
    FirstServed(Run(before));
    RunPrefix(before + [Ipv4Event], steps);
    FirstGiveDecides(before + [Ipv4Event] + steps);
  }

  lemma FirstServed(s: State)
    requires Invariant(s) && s.wifi != Waiting && s.info == Waiting && s.news == Waiting && !s.ipHandled
    ensures s.waiters != [] && s.waiters[0] != Wifi
    ensures var t := Do(s, Ipv4Event);
      t.ipHandled && t.bothAtFirst && !t.wifiFirst && StatusOf(t, s.waiters[0]) == Admitted
  {
    assert Info in s.waiters;
    assert s.waiters[0] in s.waiters;
  }

  /** The record of the first give is never rewritten, and who is admitted stays so. */
  lemma {:induction false} RunPrefix(prefix: seq<Step>, steps: seq<Step>)
    ensures Run(prefix).ipHandled ==>
      && Run(prefix + steps).ipHandled
      && Run(prefix + steps).bothAtFirst == Run(prefix).bothAtFirst
      && Run(prefix + steps).wifiFirst == Run(prefix).wifiFirst
      && (Run(prefix).info == Admitted ==> Run(prefix + steps).info == Admitted)
      && (Run(prefix).news == Admitted ==> Run(prefix + steps).news == Admitted)
    decreases |steps|
  {
    if steps == [] {
      assert prefix + steps == prefix;
    } else {
      var before := steps[..|steps| - 1];
      RunPrefix(prefix, before);
      assert (prefix + steps)[..|prefix + steps| - 1] == prefix + before;
      if Run(prefix).ipHandled {
        RecordStays(Run(prefix + before), steps[|steps| - 1]);
      }
    }
  }

  lemma RecordStays(s: State, step: Step)
    requires s.ipHandled
    ensures var t := Do(s, step);
      && t.ipHandled && t.bothAtFirst == s.bothAtFirst && t.wifiFirst == s.wifiFirst
      && (s.info == Admitted ==> t.info == Admitted) && (s.news == Admitted ==> t.news == Admitted)
  {
  }

  // ---------------------------------------------------------------- arriving, giving up, going on

  /** A thread that arrives passes at once if the token is there, and else waits, behind whoever
      came before. */
  lemma ArrivalWaitsOrPasses(steps: seq<Step>, t: Thread)
    requires StatusOf(Run(steps), t) == Booting
    ensures var s, n := Run(steps), Run(steps + [Arrive(t)]);
      && (s.count == 1 ==> StatusOf(n, t) == Admitted && n.count == 0)
      && (s.count == 0 ==> StatusOf(n, t) == Waiting && n.waiters == s.waiters + [t])
      && s.count <= 1
  {
    RunKeepsInvariant(steps);
    RunStep(steps, Arrive(t));
    hide Run;
  }

  lemma {:induction false} GoneForGood(before: seq<Step>, steps: seq<Step>, t: Thread)
    requires StatusOf(Run(before), t) == GaveUp
    ensures StatusOf(Run(before + steps), t) == GaveUp
    decreases |steps|
  {
    hide Run, Do, Invariant;
    if steps == [] {
      assert before + steps == before;
    } else {
      var front, step := steps[..|steps| - 1], steps[|steps| - 1];
      GoneForGood(before, front, t);
      RunKeepsInvariant(before + front);
      assert before + steps == before + front + [step];
      RunStep(before + front, step);
      StaysGone(Run(before + front), step, t);
    }
  }

  lemma StaysGone(s: State, step: Step, t: Thread)
    requires Invariant(s) && StatusOf(s, t) == GaveUp
    ensures StatusOf(Do(s, step), t) == GaveUp
  {
    assert s.waiters != [] ==> Chosen(s.waiters) in s.waiters;
  }

  /** A thread whose wait times out never passes, whatever follows, and no longer stands in the
      queue; the others keep their places. */
  lemma TimedOutForGood(before: seq<Step>, steps: seq<Step>, t: Thread) returns (i: nat)
    requires StatusOf(Run(before), t) == Waiting
    ensures StatusOf(Run(before + [Timeout(t)] + steps), t) == GaveUp
    ensures t !in Run(before + [Timeout(t)]).waiters
    ensures var w := Run(before).waiters;
      i < |w| && w[i] == t && Run(before + [Timeout(t)]).waiters == w[..i] + w[i + 1..]
  {
    RunKeepsInvariant(before);
    RunStep(before, Timeout(t));
    hide Run;
    RemoveOne(Run(before).waiters, t);
    i := RemovePlace(Run(before).waiters, t);
    GoneForGood(before + [Timeout(t)], steps, t);
  }

  lemma {:induction false} RemovePlace(waiters: seq<Thread>, t: Thread) returns (i: nat)
    requires t in waiters
    ensures i < |waiters| && waiters[i] == t && Remove(waiters, t) == waiters[..i] + waiters[i + 1..]
  {
    if waiters[0] == t {
      i := 0;
    } else {
      var rest := waiters[1..];
      assert waiters == [waiters[0]] + rest;
      var k := RemovePlace(rest, t);
      i := k + 1;
      InFrontOfCut(waiters[0], rest, k);
    }
  }

  lemma InFrontOfCut(a: Thread, rest: seq<Thread>, k: nat)
    requires k < |rest|
    ensures ([a] + rest)[..k + 1] + ([a] + rest)[k + 2..] == [a] + (rest[..k] + rest[k + 1..])
  {
  }

  /** A Wi-Fi thread that fails before it waits never passes and never gives. */
  lemma WifiFailedForGood(before: seq<Step>, steps: seq<Step>)
    requires Run(before).wifi == Booting
    ensures var s := Run(before + [WifiFails] + steps);
      s.wifi == GaveUp && s.wifiGives == 2 && NetAdmitted(s) <= 1
  {
    RunStep(before, WifiFails);
    RunKeepsInvariant(before + [WifiFails] + steps);
    hide Run;
    GoneForGood(before + [WifiFails], steps, Wifi);
  }

  /** The first IPv4 event admits the Wi-Fi thread if it waits, else the head of the queue, else it
      leaves a token; a thread that has given up gets nothing. */
  lemma FirstEventServes(before: seq<Step>)
    requires !Run(before).ipHandled
    ensures var s, n := Run(before), Run(before + [Ipv4Event]);
      && n.ipHandled && n.gives == 1
      && (s.waiters == [] ==> n.count == 1 && n.takes == 0)
      && (s.waiters != [] ==>
            && n.count == 0 && n.takes == 1
            && forall t :: StatusOf(n, t) == Admitted <==> t == if s.wifi == Waiting then Wifi else s.waiters[0])
      && forall t :: StatusOf(s, t) == GaveUp ==> StatusOf(n, t) == GaveUp
  {
    RunKeepsInvariant(before);
    RunKeepsInvariant(before + [Ipv4Event]);
    RunStep(before, Ipv4Event);
    hide Run;
    var s := Run(before);
    assert s.takes == 0 && s.count == 0;
    if s.waiters != [] {
      assert s.waiters[0] in s.waiters && Chosen(s.waiters) in s.waiters;
    }
  }

  /** The start-up as it is meant: with all three threads waiting, the event and the two gives of
      the Wi-Fi thread let all three through, without a loss. */
  lemma AllThreeStart(before: seq<Step>)
    requires !Run(before).ipHandled
    requires Run(before).wifi == Waiting && Run(before).info == Waiting && Run(before).news == Waiting
    ensures var s := Run(before + [Ipv4Event] + [WifiGive] + [WifiGive]);
      && s.wifi == Admitted && s.info == Admitted && s.news == Admitted
      && s.waiters == [] && s.count == 0 && s.lost == 0 && s.gives == 3
  {
    var a := before + [Ipv4Event];
    var b := a + [WifiGive];
    RunKeepsInvariant(before);
    RunKeepsInvariant(a);
    RunKeepsInvariant(b);
    RunKeepsInvariant(b + [WifiGive]);
    RunStep(before, Ipv4Event);
    RunStep(a, WifiGive);
    RunStep(b, WifiGive);
    hide Run, Do;
    EventReachesWifi(Run(before));
    GiveReachesOne(Run(a));
    GiveReachesOne(Run(b));
    NobodyWaits(Run(b + [WifiGive]));
  }

  lemma EventReachesWifi(s: State)
    requires Invariant(s) && !s.ipHandled && s.wifi == Waiting && s.info == Waiting && s.news == Waiting
    ensures var n := Do(s, Ipv4Event);
      && n.wifi == Admitted && n.info == Waiting && n.news == Waiting && n.wifiGives == 2
      && n.count == 0 && n.lost == 0 && n.gives == 1
  {
    assert Wifi in s.waiters;
  }

  lemma GiveReachesOne(s: State)
    requires Invariant(s) && s.wifi == Admitted && s.wifiGives > 0 && (s.info == Waiting || s.news == Waiting)
    ensures var n := Do(s, WifiGive);
      && n.wifi == Admitted && n.wifiGives == s.wifiGives - 1
      && n.count == s.count && n.lost == s.lost && n.gives == s.gives + 1
      && ( (s.info == Waiting && n.info == Admitted && n.news == s.news)
        || (s.news == Waiting && n.news == Admitted && n.info == s.info))
  {
    GiveEffect(s.(wifiGives := s.wifiGives - 1));
  }

  lemma NobodyWaits(s: State)
    requires Invariant(s) && s.wifi != Waiting && s.info != Waiting && s.news != Waiting
    ensures s.waiters == []
  {
    FirstIsIn(s.waiters);
  }

  lemma FirstIsIn(waiters: seq<Thread>)
    ensures waiters != [] ==> waiters[0] in waiters
  {
  }
}
