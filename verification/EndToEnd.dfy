/** The components joined: a response received in pieces, its body scanned under the lock, the
    snapshot of the display, the date it shows, and the alarm's clock beside that date. */
module EndToEnd {
  import opened CText
  import opened Json
  import opened InfoScanner
  import opened InfoRoundTrip
  import opened NewsScanner
  import opened NewsRoundTrip
  import opened HttpReceive
  import opened Calendar
  import opened DateScreen
  import Snapshot
  import AlarmSpec
  import AlarmRuns

  // ---------------------------------------------------------------- the requests

  /** The info request behind its connection set-up. */
  method InfoRequest(store: InfoStore, pieces: seq<string>) returns (result: int)
    requires store.Valid() && Fits(START, pieces, INFO_BUFFER)
    modifies store.cells
    ensures var r := Receive(START, pieces, INFO_BUFFER).0;
      && result == (if r.data != [] then 0 else -1)
      && store.cells[..] == match Body(r.data)
                            case None => old(store.cells[..])
                            case Some(body) => Apply(old(store.cells[..]), ParseWrites(body))
  {
    var buffer := new HttpBuffer(INFO_BUFFER);
    var _ := buffer.ReceiveLoop(pieces);
    var body := buffer.ReadBody();
    if body.Some? {
      ghost var _ := store.ParseInfo(body.value);
    }
    result := if buffer.total > 0 then 0 else -1;
  }

  /** The news request behind its connection set-up. */
  method NewsRequest(store: NewsStore, pieces: seq<string>) returns (result: int)
    requires store.Valid() && Fits(START, pieces, NEWS_BUFFER)
    modifies store, store.titles
    ensures store.Valid()
    ensures var r := Receive(START, pieces, NEWS_BUFFER).0;
      && result == NewsResult(r)
      && store.Shown() == (match Body(r.data)
                           case None => old(store.Shown())
                           case Some(body) => Titles(body, NEWS_MAX))
      && store.ready == (match Body(r.data)
                         case None => old(store.ready)
                         case Some(body) => Titles(body, NEWS_MAX) != [])
  {
    var buffer := new HttpBuffer(NEWS_BUFFER);
    var _ := buffer.ReceiveLoop(pieces);
    var body := buffer.ReadBody();
    if body.Some? {
      store.ParseNewsTitles(body.value);
    }
    result := buffer.ReadNewsResult();
  }

  // ---------------------------------------------------------------- main results

  /** However the response arrives, the date shown is the date of the epoch the proxy sent. */
  lemma EpochEndToEnd(d: InfoDoc, header: string, pieces: seq<string>, more: seq<string>, cells: seq<char>)
    requires ValidDoc(d) && d.epoch <= 0x7fff_ffff && |cells| == INFO_CELLS
    requires GoodResponse(header, InfoBody(d)) && |Response(header, InfoBody(d))| < INFO_BUFFER
    requires NonEmpty(pieces) && Join(pieces) == Response(header, InfoBody(d))
    ensures var body := Body(Receive(START, pieces + more, INFO_BUFFER).0.data);
      && body.Some?
      && var shown := DateShown(Apply(cells, ParseWrites(body.value)));
         shown.Some? && ValidDate(shown.value) && ValidTime(shown.value) && PosixSeconds(shown.value) == d.epoch
  {
    hide Receive, Body, Apply, ParseWrites, FieldText, DateTimeOf, PosixSeconds, GoodResponse;
    ChunkIndependence(header, InfoBody(d), pieces, more, INFO_BUFFER);
    ObjectDateShown(d, cells);
  }

  lemma ObjectDateShown(d: InfoDoc, cells: seq<char>)
    requires ValidDoc(d) && d.epoch <= 0x7fff_ffff && |cells| == INFO_CELLS
    ensures var shown := DateShown(Apply(cells, ParseWrites(InfoBody(d))));
      shown.Some? && ValidDate(shown.value) && ValidTime(shown.value) && PosixSeconds(shown.value) == d.epoch
  {
    hide Apply, ParseWrites, FieldText, DateTimeOf, PosixSeconds;
    EpochComesBack(d, cells);
    FirmwareRange();
    RoundTrip(d.epoch, FIRMWARE_CAP);
  }

  /** The same for a response that breaks off: the display shows the date of the digits that came. */
  lemma BrokenOffEndToEnd(d: InfoDoc, header: string, pieces: seq<string>, cells: seq<char>)
    requires ValidDoc(d) && d.epoch <= 0x7fff_ffff && |cells| == INFO_CELLS
    requires GoodResponse(header, InfoBody(d)) && |Response(header, InfoBody(d))| < INFO_BUFFER
    requires NonEmpty(pieces) && Join(pieces) <= Response(header, InfoBody(d))
    ensures var n, start := |Join(pieces)|, |header| + 4;
      match Body(Receive(START, pieces, INFO_BUFFER).0.data)
      case None => n < start
      case Some(part) => start <= n && ShowsWhatCame(d, cells, part, n - start)
  {
    GoodParts(header, InfoBody(d));
    hide Receive, Body, GoodResponse, Headed, InfoBody, Response, ShowsWhatCame;
    var r, n := Response(header, InfoBody(d)), |Join(pieces)|;
    PartialResponse(header, InfoBody(d), pieces, INFO_BUFFER);
    assert Join(pieces) == r[..n];
    PartialBody(header, InfoBody(d), n);
    if |header| + 4 <= n {
      BrokenOffEpoch(d, cells, n - (|header| + 4));
    }
  }

  /** No torn values: in every interleaving, a snapshot whose last completed parse was of a proxy
      object shows that object's fields and the date of its epoch. */
  lemma SnapshotShowsObject(steps: seq<Snapshot.Step>, j: nat, d: InfoDoc, f: nat)
    requires ValidDoc(d) && d.epoch <= 0x7fff_ffff && f < FIELDS
    requires j < |Snapshot.Run(steps).snapshots|
    requires 0 < Snapshot.Run(steps).snapshots[j].version <= |Snapshot.Run(steps).parsed|
    requires Snapshot.Run(steps).parsed[Snapshot.Run(steps).snapshots[j].version - 1] == InfoBody(d)
    ensures var copy := Snapshot.Run(steps).snapshots[j].copy;
      && |copy| == INFO_CELLS
      && IsScalar(FieldValue(d, f))
      && FieldText(copy, f) == Cut(Shown(FieldValue(d, f)), INFO_STR_LEN - 1)
      && DateShown(copy).Some? && PosixSeconds(DateShown(copy).value) == d.epoch
  {
    Snapshot.SnapshotsLinearize(steps, j, j);
    hide Snapshot.Run, Snapshot.AfterParses, Apply, ParseWrites, FieldText, PosixSeconds, DateShown, InfoBody;
    hide ValidDate, ValidTime, FieldValue, Shown, ValidDoc, IsScalar, Cut;
    var s := Snapshot.Run(steps);
    var v := s.snapshots[j].version;
    var before := Snapshot.AfterParses(s.parsed[..v - 1]);
    assert s.parsed[..v] == s.parsed[..v - 1] + [InfoBody(d)];
    Snapshot.OneMoreParse(s.parsed[..v - 1], InfoBody(d));
    StructHoldsObject(d, before, f);
    ObjectDateShown(d, before);
  }

  /** However a news response arrives, the rows show the titles of its document. */
  lemma NewsEndToEnd(j: Json, header: string, pieces: seq<string>, more: seq<string>)
    requires Proper(j) && TitleValuesOk(j) && (j.Arr? || j.Obj?)
    requires GoodResponse(header, PrintJson(j)) && |Response(header, PrintJson(j))| < NEWS_BUFFER
    requires NonEmpty(pieces) && Join(pieces) == Response(header, PrintJson(j))
    ensures var r := Receive(START, pieces + more, NEWS_BUFFER).0;
      && Body(r.data).Some?
      && Titles(Body(r.data).value, NEWS_MAX) == First(TitlesIn(j), NEWS_MAX)
      && NewsResult(r) == 0
  {
    ChunkIndependence(header, PrintJson(j), pieces, more, NEWS_BUFFER);
    DocumentRoundTrip(j);
    HeaderEndInPrefix(header, PrintJson(j), |Response(header, PrintJson(j))|);
    NoNulIsText(Response(header, PrintJson(j)));
    var r := Response(header, PrintJson(j));
    assert r[..|r|] == r;
  }

  // ---------------------------------------------------------------- clock and calendar

  predicate InStep(s: AlarmSpec.Alarm, t: DateTime) {
    s.hour == t.hour && s.minute == t.minute && s.second == t.second
  }

  /** A tick of the alarm's clock is one epoch further on the calendar. */
  lemma TickIsNextEpoch(c: AlarmSpec.Config, s: AlarmSpec.Alarm, now: AlarmSpec.Buttons, epoch: int, cap: int)
    requires 1970 <= cap && 0 <= epoch && epoch + 1 < EndOfYear(cap)
    requires InStep(s, DateTimeOf(epoch, cap))
    ensures InStep(AlarmSpec.Tick(c, s, now), DateTimeOf(epoch + 1, cap))
  {
    hide DateTimeOf, ValidDate, PosixSeconds, AlarmSpec.Tick, AlarmSpec.UpdateClock, NextSecond, ValidTime;
    SuccessorIsCarry(epoch, cap);
    RoundTrip(epoch, cap);
    AlarmRuns.ButtonsLeaveClock(c, s, now);
    CarryIsUpdateClock(s, DateTimeOf(epoch, cap));
  }

  lemma CarryIsUpdateClock(s: AlarmSpec.Alarm, t: DateTime)
    requires ValidTime(t) && InStep(s, t)
    ensures InStep(AlarmSpec.UpdateClock(s), NextSecond(t))
  {
  }

  /** An alarm clock in step with an epoch stays in step over any run. */
  lemma {:induction false} ClockKeepsStep(c: AlarmSpec.Config, s: AlarmSpec.Alarm, samples: seq<AlarmSpec.Buttons>,
                                          epoch: int, cap: int)
    requires 1970 <= cap && 0 <= epoch && epoch + |samples| < EndOfYear(cap)
    requires InStep(s, DateTimeOf(epoch, cap))
    ensures InStep(AlarmSpec.Run(c, s, samples), DateTimeOf(epoch + |samples|, cap))
    decreases |samples|
  {
    hide DateTimeOf, AlarmSpec.Tick;
    if samples == [] {
    } else {
      var before := samples[..|samples| - 1];
      ClockKeepsStep(c, s, before, epoch, cap);
      TickIsNextEpoch(c, AlarmSpec.Run(c, s, before), samples[|samples| - 1], epoch + |before|, cap);
    }
  }
}
