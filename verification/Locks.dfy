/** The mutex discipline of the info, news and screen threads: what each path locks and unlocks,
    and what follows over all interleavings.  Assumed of the kernel: a mutex has at most one owner
    and a lock waits while it is owned. */
module Locks {

  datatype Mutex = Http | InfoLock | NewsLock

  datatype Thread = InfoThread | NewsThread | ScreenThread

  /** What a path does that matters here; `Receive` is the slow download. */
  datatype Act = Lock(m: Mutex) | Unlock(m: Mutex) | Receive

  // ---------------------------------------------------------------- paths

  /** One news request.  Each flag tells whether the call of that name succeeds, `body` whether a
      header end was received; the trace records the path taken. */
  method NewsRequest(address: bool, socket: bool, connect: bool, send: bool, body: bool) returns (trace: seq<Act>)
    ensures IsPath(NewsThread, trace)
    ensures trace == [] <==> !address
    ensures Receive in trace <==> address && socket && connect && send
    ensures Lock(NewsLock) in trace <==> address && socket && connect && send && body
  {
    trace := [];
    if !address { return; }
    trace := trace + [Lock(Http)];
    if !socket {
      trace := trace + [Unlock(Http)];
      return;
    }
    if !connect {
      trace := trace + [Unlock(Http)];
      return;
    }
    if !send {
      trace := trace + [Unlock(Http)];
      return;
    }
    trace := trace + [Unlock(Http)];
    trace := trace + [Receive];
    if body {
      trace := trace + [Lock(NewsLock)];
      trace := trace + [Unlock(NewsLock)];
    }
  }

  /** One round of the info thread, which holds `http_mutex` around the whole request. */
  method InfoRound(address: bool, socket: bool, connect: bool, send: bool, body: bool) returns (trace: seq<Act>)
    ensures IsPath(InfoThread, trace)
    ensures Receive in trace <==> address && socket && connect && send
    ensures Lock(InfoLock) in trace <==> address && socket && connect && send && body
    ensures trace != [] && trace[0] == Lock(Http) && trace[|trace| - 1] == Unlock(Http)
    ensures Count(trace, Lock(Http)) == Count(trace, Unlock(Http)) == 1
  {
    hide Count;
    trace := [Lock(Http)];
    if address && socket && connect && send {
      trace := trace + [Receive];
      if body {
        trace := trace + [Lock(InfoLock)];
        trace := trace + [Unlock(InfoLock)];
      }
    }
    trace := trace + [Unlock(Http)];
    InfoStaysInside(trace);
  }

  /** An info round begins by taking `http_mutex`, ends by giving it back, and does neither between. */
  lemma InfoStaysInside(p: seq<Act>)
    requires IsPath(InfoThread, p)
    ensures p != [] && p[0] == Lock(Http) && p[|p| - 1] == Unlock(Http)
    ensures Count(p, Lock(Http)) == Count(p, Unlock(Http)) == 1
  {
  }

  /** The paths of a thread between two rests. */
  predicate IsPath(t: Thread, p: seq<Act>) {
    match t
    case InfoThread =>
      || p == [Lock(Http), Unlock(Http)]
      || p == [Lock(Http), Receive, Unlock(Http)]
      || p == [Lock(Http), Receive, Lock(InfoLock), Unlock(InfoLock), Unlock(Http)]
    case NewsThread =>
      || p == []
      || p == [Lock(Http), Unlock(Http)]
      || p == [Lock(Http), Unlock(Http), Receive]
      || p == [Lock(Http), Unlock(Http), Receive, Lock(NewsLock), Unlock(NewsLock)]
    case ScreenThread =>
      || p == [Lock(InfoLock), Unlock(InfoLock)]
      || p == [Lock(NewsLock), Unlock(NewsLock)]
  }

  function Count(trace: seq<Act>, a: Act): nat {
    multiset(trace)[a]
  }

  /** Every news request that takes `http_mutex` gives it back exactly once, and before it begins
      to download. */
  lemma NewsGivesHttpBackOnce(p: seq<Act>)
    requires IsPath(NewsThread, p)
    ensures Count(p, Lock(Http)) == Count(p, Unlock(Http)) == if p == [] then 0 else 1
    ensures forall i, j :: 0 <= i < |p| && 0 <= j < |p| && p[i] == Unlock(Http) && p[j] == Receive ==> i < j
  {
    var long := [Lock(Http), Unlock(Http), Receive, Lock(NewsLock), Unlock(NewsLock)];
    assert multiset(long)[Lock(Http)] == 1 && multiset(long)[Unlock(Http)] == 1;
  }

  /** A network thread parses only right behind a download. */
  lemma ParseFollowsDownload(t: Thread, p: seq<Act>, i: nat)
    requires IsPath(t, p) && t != ScreenThread && i < |p| && p[i].Lock? && p[i].m != Http
    ensures 0 < i && p[i - 1] == Receive
  {
  }

  // ---------------------------------------------------------------- interleavings

  /** What each thread still has to do on its path, and who owns each mutex. */
  datatype State = State(todo: map<Thread, seq<Act>>, owner: map<Mutex, Thread>)

  datatype Step = Start(t: Thread, path: seq<Act>) | Advance(t: Thread) | LockTimeout

  const THREADS := {InfoThread, NewsThread, ScreenThread}

  const BOOT := State(map[InfoThread := [], NewsThread := [], ScreenThread := []], map[])

  predicate Blocked(s: State, t: Thread) {
    && t in s.todo && s.todo[t] != []
    && s.todo[t][0].Lock? && s.todo[t][0].m in s.owner
  }

  /** A step that is not enabled changes nothing. */
  function Do(s: State, step: Step): State {
    match step
    case Start(t, path) =>
      if t in s.todo && s.todo[t] == [] && IsPath(t, path) then s.(todo := s.todo[t := path]) else s
    case Advance(t) =>
      if t !in s.todo || s.todo[t] == [] || Blocked(s, t) then s
      else
        var act := s.todo[t][0];
        State(s.todo[t := s.todo[t][1..]],
              if act.Lock? then s.owner[act.m := t] else if act.Unlock? then s.owner - {act.m} else s.owner)
    case LockTimeout =>
      if Blocked(s, ScreenThread) then s.(todo := s.todo[ScreenThread := []]) else s
  }

  function Run(steps: seq<Step>): State {
    if steps == [] then BOOT else Do(Run(steps[..|steps| - 1]), steps[|steps| - 1])
  }

  // ---------------------------------------------------------------- invariant

  /** The mutexes a thread holds, read off what it still has to do: those it unlocks before it
      locks them. */
  function Held(todo: seq<Act>): set<Mutex> {
    if todo == [] then {}
    else if todo[0].Lock? then Held(todo[1..]) - {todo[0].m}
    else if todo[0].Unlock? then Held(todo[1..]) + {todo[0].m}
    else Held(todo[1..])
  }

  function Rank(m: Mutex): nat {
    if m == Http then 0 else 1
  }

  /** Locks are taken in rank order above everything held, and only held mutexes are unlocked. */
  predicate Disciplined(todo: seq<Act>) {
    todo == [] ||
    ( && Disciplined(todo[1..])
      && (todo[0].Lock? ==>
            && todo[0].m in Held(todo[1..])
            && forall h :: h in Held(todo) ==> Rank(h) < Rank(todo[0].m))
      && (todo[0].Unlock? ==> todo[0].m !in Held(todo[1..])))
  }

  /** The mutexes each thread has to do with. */
  predicate MayTouch(t: Thread, m: Mutex) {
    match t
    case InfoThread => m == Http || m == InfoLock
    case NewsThread => m == Http || m == NewsLock
    case ScreenThread => m == InfoLock || m == NewsLock
  }

  /** The next act against what is held: the info thread downloads and parses inside `http_mutex`,
      the news thread downloads holding nothing, the display asks for a mutex holding nothing, and
      nobody downloads behind a parse. */
  predicate NextFits(t: Thread, todo: seq<Act>)
    requires todo != []
  {
    && (!todo[0].Receive? ==> MayTouch(t, todo[0].m))
    && match t
       case InfoThread =>
         && (todo[0].Receive? || todo[0].m == InfoLock ==> Http in Held(todo))
         && (!todo[0].Receive? && todo[0].m == InfoLock ==> Receive !in todo)
       case NewsThread =>
         && (todo[0].Receive? ==> Held(todo) == {})
         && (!todo[0].Receive? && todo[0].m == NewsLock ==> Receive !in todo)
       case ScreenThread => !todo[0].Receive? && (todo[0].Lock? ==> Held(todo) == {})
  }

  predicate Orderly(t: Thread, todo: seq<Act>) {
    todo == [] || (Orderly(t, todo[1..]) && NextFits(t, todo))
  }

  predicate ListsAgree(s: State) {
    && s.todo.Keys == THREADS
    && (forall t :: t in s.todo ==> Disciplined(s.todo[t]) && Orderly(t, s.todo[t]))
  }

  predicate OwnersAgree(s: State) {
    forall t, m :: t in s.todo ==> (m in Held(s.todo[t]) <==> m in s.owner && s.owner[m] == t)
  }

  predicate Invariant(s: State) {
    ListsAgree(s) && OwnersAgree(s)
  }

  /** What one more act in front means. */
  lemma InFront(t: Thread, a: Act, rest: seq<Act>)
    requires Disciplined(rest) && Orderly(t, rest)
    ensures var p := [a] + rest;
      && Held(p) == (match a
                     case Lock(m) => Held(rest) - {m}
                     case Unlock(m) => Held(rest) + {m}
                     case Receive => Held(rest))
      && (Disciplined(p) <==>
            && (a.Lock? ==> a.m in Held(rest) && forall h :: h in Held(p) ==> Rank(h) < Rank(a.m))
            && (a.Unlock? ==> a.m !in Held(rest)))
      && (Orderly(t, p) <==> NextFits(t, p))
  {
    assert ([a] + rest)[1..] == rest;
  }

  /** Lock and unlock, with nothing between. */
  lemma ShortPath(t: Thread, m: Mutex)
    requires MayTouch(t, m)
    requires t == InfoThread ==> m == Http
    ensures var p := [Lock(m), Unlock(m)];
      Disciplined(p) && Held(p) == {} && Orderly(t, p)
  {
    InFront(t, Unlock(m), []);
    InFront(t, Lock(m), [Unlock(m)]);
    assert [Lock(m)] + [Unlock(m)] == [Lock(m), Unlock(m)];
  }

  lemma InfoPath()
    ensures var p := [Lock(Http), Receive, Unlock(Http)];
      Disciplined(p) && Held(p) == {} && Orderly(InfoThread, p)
    ensures var p := [Lock(Http), Receive, Lock(InfoLock), Unlock(InfoLock), Unlock(Http)];
      Disciplined(p) && Held(p) == {} && Orderly(InfoThread, p)
  {
    var t, last := InfoThread, [Unlock(Http)];
    InFront(t, Unlock(Http), []);
    InFront(t, Receive, last);
    InFront(t, Lock(Http), [Receive] + last);
    assert [Lock(Http)] + ([Receive] + last) == [Lock(Http), Receive, Unlock(Http)];
    var parse := [Lock(InfoLock)] + ([Unlock(InfoLock)] + last);
    InFront(t, Unlock(InfoLock), last);
    InFront(t, Lock(InfoLock), [Unlock(InfoLock)] + last);
    InFront(t, Receive, parse);
    InFront(t, Lock(Http), [Receive] + parse);
    assert [Lock(Http)] + ([Receive] + parse)
        == [Lock(Http), Receive, Lock(InfoLock), Unlock(InfoLock), Unlock(Http)];
  }

  /** A news request in front of nothing or of a parse. */
  lemma NewsPath(rest: seq<Act>)
    requires Disciplined(rest) && Held(rest) == {} && Orderly(NewsThread, rest)
    ensures var p := [Lock(Http), Unlock(Http), Receive] + rest;
      Disciplined(p) && Held(p) == {} && Orderly(NewsThread, p)
  {
    var t := NewsThread;
    InFront(t, Receive, rest);
    InFront(t, Unlock(Http), [Receive] + rest);
    InFront(t, Lock(Http), [Unlock(Http)] + ([Receive] + rest));
    assert [Lock(Http)] + ([Unlock(Http)] + ([Receive] + rest)) == [Lock(Http), Unlock(Http), Receive] + rest;
  }

  lemma PathsDisciplined(t: Thread, p: seq<Act>)
    requires IsPath(t, p)
    ensures Disciplined(p) && Held(p) == {} && Orderly(t, p)
  {
    HoldsNothing();
    hide Disciplined, Held, Orderly;
    match t
    case InfoThread =>
      ShortPath(t, Http);
      InfoPath();
    case NewsThread =>
      ShortPath(t, Http);
      ShortPath(t, NewsLock);
      NewsPath([]);
      NewsPath([Lock(NewsLock), Unlock(NewsLock)]);
      assert [Lock(Http), Unlock(Http), Receive] + [] == [Lock(Http), Unlock(Http), Receive];
      assert [Lock(Http), Unlock(Http), Receive] + [Lock(NewsLock), Unlock(NewsLock)]
          == [Lock(Http), Unlock(Http), Receive, Lock(NewsLock), Unlock(NewsLock)];
    case ScreenThread =>
      ShortPath(t, InfoLock);
      ShortPath(t, NewsLock);
  }

  lemma HoldsNothing()
    ensures Held([]) == {} && Disciplined([]) && forall t :: Orderly(t, [])
  {
  }

  lemma StartKeeps(s: State, t: Thread, path: seq<Act>)
    requires Invariant(s)
    ensures Invariant(Do(s, Start(t, path)))
  {
    hide Disciplined, Held, Orderly, IsPath;
    if t in s.todo && s.todo[t] == [] && IsPath(t, path) {
      HoldsNothing();
      PathsDisciplined(t, path);
    }
  }

  /** How one act changes what its thread holds. */
  lemma HeldAfter(t: Thread, todo: seq<Act>)
    requires todo != [] && Disciplined(todo) && Orderly(t, todo)
    ensures Disciplined(todo[1..]) && Orderly(t, todo[1..])
    ensures todo[0].Lock? ==> Held(todo[1..]) == Held(todo) + {todo[0].m}
    ensures todo[0].Unlock? ==> todo[0].m in Held(todo) && Held(todo[1..]) == Held(todo) - {todo[0].m}
    ensures todo[0].Receive? ==> Held(todo[1..]) == Held(todo)
  {
  }

  lemma AdvanceOwners(s: State, t: Thread)
    requires ListsAgree(s) && OwnersAgree(s)
    ensures OwnersAgree(Do(s, Advance(t)))
  {
    hide Disciplined, Held, Orderly;
    if t in s.todo && s.todo[t] != [] && !Blocked(s, t) {
      HeldAfter(t, s.todo[t]);
      var n := Do(s, Advance(t));
      forall u, m | u in n.todo
        ensures m in Held(n.todo[u]) <==> m in n.owner && n.owner[m] == u
      {
        assert m in Held(s.todo[u]) <==> m in s.owner && s.owner[m] == u;
        assert m in Held(s.todo[t]) <==> m in s.owner && s.owner[m] == t;
      }
    }
  }

  lemma AdvanceKeeps(s: State, t: Thread)
    requires Invariant(s)
    ensures Invariant(Do(s, Advance(t)))
  {
    AdvanceOwners(s, t);
    if t in s.todo && s.todo[t] != [] && !Blocked(s, t) {
      HeldAfter(t, s.todo[t]);
      assert Do(s, Advance(t)).todo.Keys == s.todo.Keys;
      hide Disciplined, Held, Orderly, OwnersAgree;
    }
  }

  lemma TimeoutKeeps(s: State)
    requires Invariant(s)
    ensures Invariant(Do(s, LockTimeout))
  {
    HoldsNothing();
    if Blocked(s, ScreenThread) {
      assert Held(s.todo[ScreenThread]) == {};
      hide Disciplined, Held, Orderly;
    }
  }

  lemma {:induction false} RunKeepsInvariant(steps: seq<Step>)
    ensures Invariant(Run(steps))
    decreases |steps|
  {
    if steps == [] {
    } else {
      hide Invariant, Do;
      var s := Run(steps[..|steps| - 1]);
      RunKeepsInvariant(steps[..|steps| - 1]);
      match steps[|steps| - 1]
      case Start(t, path) => StartKeeps(s, t, path);
      case Advance(t) => AdvanceKeeps(s, t);
      case LockTimeout => TimeoutKeeps(s);
    }
  }

  // ---------------------------------------------------------------- main results

  /** t asks for a mutex that u owns. */
  predicate WaitsFor(s: State, t: Thread, u: Thread) {
    Blocked(s, t) && s.owner[s.todo[t][0].m] == u
  }

  lemma WaitsUpward(s: State, t: Thread, u: Thread)
    requires Invariant(s) && WaitsFor(s, t, u) && Blocked(s, u)
    ensures Rank(s.todo[t][0].m) < Rank(s.todo[u][0].m)
  {
    assert s.todo[t][0].m in Held(s.todo[u]);
  }

  lemma {:induction false} ChainClimbs(s: State, chain: seq<Thread>)
    requires Invariant(s) && 2 <= |chain|
    requires forall i :: 0 <= i < |chain| - 1 ==> WaitsFor(s, chain[i], chain[i + 1])
    requires Blocked(s, chain[|chain| - 1])
    ensures Blocked(s, chain[0])
    ensures Rank(s.todo[chain[0]][0].m) < Rank(s.todo[chain[|chain| - 1]][0].m)
    decreases |chain|
  {
    assert WaitsFor(s, chain[0], chain[1]);
    if |chain| == 2 {
      WaitsUpward(s, chain[0], chain[1]);
    } else {
      var rest := chain[1..];
      forall i | 0 <= i < |rest| - 1
        ensures WaitsFor(s, rest[i], rest[i + 1])
      {
        assert WaitsFor(s, chain[i + 1], chain[i + 1 + 1]);
      }
      ChainClimbs(s, rest);
      WaitsUpward(s, chain[0], chain[1]);
    }
  }

  /** In no reachable state does a chain of waiting threads close. */
  lemma NoCircularWait(steps: seq<Step>, chain: seq<Thread>)
    requires 2 <= |chain|
    requires forall i :: 0 <= i < |chain| - 1 ==> WaitsFor(Run(steps), chain[i], chain[i + 1])
    ensures chain[0] != chain[|chain| - 1]
  {
    if chain[0] == chain[|chain| - 1] {
      RunKeepsInvariant(steps);
      hide Run;
      assert WaitsFor(Run(steps), chain[0], chain[1]);
      ChainClimbs(Run(steps), chain);
      assert false;
    }
  }

  /** Whenever a thread waits, some thread can go on. */
  lemma SomebodyCanGoOn(steps: seq<Step>, t: Thread)
    requires Blocked(Run(steps), t)
    ensures exists u :: u in Run(steps).todo && Run(steps).todo[u] != [] && !Blocked(Run(steps), u)
  {
    RunKeepsInvariant(steps);
    hide Run;
    var s := Run(steps);
    var u := s.owner[s.todo[t][0].m];
    OwnerIsBusy(s, s.todo[t][0].m);
    if Blocked(s, u) {
      WaitsUpward(s, t, u);
      var v := s.owner[s.todo[u][0].m];
      OwnerIsBusy(s, s.todo[u][0].m);
      if Blocked(s, v) {
        WaitsUpward(s, u, v);
        assert false;
      }
    }
  }

  lemma OwnerIsBusy(s: State, m: Mutex)
    requires Invariant(s) && m in s.owner
    ensures s.owner[m] in THREADS && s.todo[s.owner[m]] != []
  {
    var u := s.owner[m];
    assert u in THREADS by { assert u == InfoThread || u == NewsThread || u == ScreenThread; }
    assert m in Held(s.todo[u]);
    assert Held([]) == {};
  }

  /** In every reachable state a thread that unlocks owns the mutex, and the news thread holds
      nothing while it downloads. */
  lemma UnlocksOwnMutex(steps: seq<Step>, t: Thread)
    requires t in THREADS && t in Run(steps).todo && Run(steps).todo[t] != []
    ensures var s := Run(steps);
      && (s.todo[t][0].Unlock? ==> s.todo[t][0].m in s.owner && s.owner[s.todo[t][0].m] == t)
      && (t == NewsThread && s.todo[t][0] == Receive ==> forall m :: m in s.owner ==> s.owner[m] != NewsThread)
  {
    RunKeepsInvariant(steps);
    hide Run;
    HeldAfter(t, Run(steps).todo[t]);
    if t == NewsThread && Run(steps).todo[t][0] == Receive {
      assert Held(Run(steps).todo[t]) == {};
    }
  }

  /** In every reachable state the info thread downloads and parses as the owner of `http_mutex`. */
  lemma InfoOwnsHttp(steps: seq<Step>)
    ensures var s := Run(steps);
      InfoThread in s.todo &&
      var todo := s.todo[InfoThread];
      todo != [] && (todo[0].Receive? || todo[0].m == InfoLock) ==> Http in s.owner && s.owner[Http] == InfoThread
  {
    RunKeepsInvariant(steps);
    hide Run;
    var todo := Run(steps).todo[InfoThread];
    assert todo != [] ==> NextFits(InfoThread, todo);
  }

  lemma {:induction false} HeldIsTouched(t: Thread, todo: seq<Act>, m: Mutex)
    requires Orderly(t, todo) && m in Held(todo)
    ensures MayTouch(t, m)
  {
    if todo[0].Unlock? && todo[0].m == m {
    } else {
      HeldIsTouched(t, todo[1..], m);
    }
  }

  /** Each mutex is only ever owned by the two threads that share what it guards. */
  lemma WhoOwnsWhat(steps: seq<Step>, m: Mutex)
    requires m in Run(steps).owner
    ensures MayTouch(Run(steps).owner[m], m)
  {
    RunKeepsInvariant(steps);
    hide Run, MayTouch;
    OwnerIsBusy(Run(steps), m);
    var t := Run(steps).owner[m];
    HeldIsTouched(t, Run(steps).todo[t], m);
  }

  /** A display that gives up waiting is free to go on, owns nothing and changes nothing else. */
  lemma TimeoutFrees(steps: seq<Step>)
    requires Blocked(Run(steps), ScreenThread)
    ensures var s, t := Run(steps), Run(steps + [LockTimeout]);
      && ScreenThread in t.todo && t.todo[ScreenThread] == [] && t.owner == s.owner
      && (forall m :: m in t.owner ==> t.owner[m] != ScreenThread)
      && forall u :: u in s.todo && u != ScreenThread ==> u in t.todo && t.todo[u] == s.todo[u]
  {
    RunStep(steps, LockTimeout);
    RunKeepsInvariant(steps + [LockTimeout]);
    hide Run;
    HoldsNothing();
    var t := Run(steps + [LockTimeout]);
    forall m | m in t.owner
      ensures t.owner[m] != ScreenThread
    {
      OwnerIsBusy(t, m);
    }
  }

  lemma RunStep(steps: seq<Step>, step: Step)
    ensures Run(steps + [step]) == Do(Run(steps), step)
  {
    assert (steps + [step])[..|steps|] == steps;
  }

  /** Everybody is between two paths. */
  predicate AllRest(s: State) {
    s.todo.Keys == THREADS && forall t :: t in s.todo ==> s.todo[t] == []
  }

  function Total(s: State): nat
    requires s.todo.Keys == THREADS
  {
    |s.todo[InfoThread]| + |s.todo[NewsThread]| + |s.todo[ScreenThread]|
  }

  lemma TotalDrops(s: State, t: Thread)
    requires s.todo.Keys == THREADS && t in s.todo && s.todo[t] != [] && !Blocked(s, t)
    ensures var n := Do(s, Advance(t));
      n.todo.Keys == THREADS && Total(n) == Total(s) - 1
  {
    assert t == InfoThread || t == NewsThread || t == ScreenThread;
  }

  lemma RestOwnsNothing(s: State)
    requires Invariant(s) && AllRest(s)
    ensures s.owner == map[]
  {
    forall m | m in s.owner
      ensures false
    {
      OwnerIsBusy(s, m);
    }
  }

  function Left(steps: seq<Step>): nat {
    RunKeepsInvariant(steps);
    Total(Run(steps))
  }

  lemma KeysAgree(s: State)
    requires Invariant(s)
    ensures s.todo.Keys == THREADS
  {
  }

  /** From every reachable state every path that was begun can be finished, and then no mutex is
      owned. */
  lemma {:induction false} EverybodyCanFinish(steps: seq<Step>) returns (more: seq<Step>)
    ensures AllRest(Run(steps + more)) && Run(steps + more).owner == map[]
    decreases Left(steps)
  {
    hide Run, Do, Invariant, Blocked;
    RunKeepsInvariant(steps);
    KeysAgree(Run(steps));
    var s := Run(steps);
    if AllRest(s) {
      more := [];
      assert steps + more == steps;
      RestOwnsNothing(s);
    } else {
      var u :| u in s.todo && s.todo[u] != [];
      if Blocked(s, u) {
        SomebodyCanGoOn(steps, u);
        u :| u in s.todo && s.todo[u] != [] && !Blocked(s, u);
      }
      RunStep(steps, Advance(u));
      TotalDrops(s, u);
      var rest := EverybodyCanFinish(steps + [Advance(u)]);
      more := [Advance(u)] + rest;
      assert steps + more == steps + [Advance(u)] + rest;
    }
  }

  function Advances(t: Thread, n: nat): seq<Step> {
    seq(n, _ => Advance(t))
  }

  lemma AloneIsFree(s: State, t: Thread)
    requires Invariant(s) && t in s.todo && forall u :: u in s.todo && u != t ==> s.todo[u] == []
    ensures !Blocked(s, t)
  {
    if s.todo[t] != [] && s.todo[t][0].Lock? {
      NotYetHeld(s.todo[t]);
      var m := s.todo[t][0].m;
      if m in s.owner {
        OwnerIsBusy(s, m);
      }
    }
  }

  lemma NotYetHeld(todo: seq<Act>)
    requires todo != [] && todo[0].Lock?
    ensures todo[0].m !in Held(todo)
  {
  }

  lemma StartFrom(s: State, t: Thread, path: seq<Act>)
    requires AllRest(s) && IsPath(t, path)
    ensures Alone(Do(s, Start(t, path)), t, path)
  {
    assert t == InfoThread || t == NewsThread || t == ScreenThread;
  }

  /** t has this path before it, and the others rest. */
  predicate Alone(s: State, t: Thread, path: seq<Act>) {
    && s.todo.Keys == THREADS && t in s.todo && s.todo[t] == path
    && forall u :: u in s.todo && u != t ==> s.todo[u] == []
  }

  lemma AdvanceAlone(s: State, t: Thread, path: seq<Act>)
    requires Invariant(s) && Alone(s, t, path) && path != []
    ensures Alone(Do(s, Advance(t)), t, path[1..])
  {
    AloneIsFree(s, t);
  }

  /** A thread that runs while the others rest takes every step of any of its paths, owning at each
      step exactly what the rest of the path holds. */
  lemma {:induction false} AloneRuns(steps: seq<Step>, t: Thread, path: seq<Act>, i: nat)
    requires AllRest(Run(steps)) && IsPath(t, path) && i <= |path|
    ensures var s := Run(steps + [Start(t, path)] + Advances(t, i));
      Alone(s, t, path[i..]) && forall m :: m in s.owner <==> m in Held(path[i..])
    decreases i
  {
    hide Run, Do, Invariant, Held, IsPath, Alone;
    var before := steps + [Start(t, path)];
    RunStep(steps, Start(t, path));
    if i == 0 {
      StartFrom(Run(steps), t, path);
      assert before + Advances(t, 0) == before;
      assert path[0..] == path;
    } else {
      AloneRuns(steps, t, path, i - 1);
      var done := before + Advances(t, i - 1);
      RunKeepsInvariant(done);
      AdvanceAlone(Run(done), t, path[i - 1..]);
      assert before + Advances(t, i) == done + [Advance(t)];
      RunStep(done, Advance(t));
      assert path[i - 1..][1..] == path[i..];
    }
    RunKeepsInvariant(before + Advances(t, i));
    OnlyItsOwn(Run(before + Advances(t, i)), t, path[i..]);
  }

  lemma OnlyItsOwn(s: State, t: Thread, path: seq<Act>)
    requires Invariant(s) && Alone(s, t, path)
    ensures forall m :: m in s.owner <==> m in Held(path)
  {
    forall m | m in s.owner
      ensures m in Held(path)
    {
      OwnerIsBusy(s, m);
    }
  }
}
