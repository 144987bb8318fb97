/** The date screen: what it shows for every content of the epoch field, from boot on, and after
    downloads that broke off. */
module DateScreen {
  import opened CText
  import opened Json
  import opened InfoScanner
  import opened InfoRoundTrip
  import opened Calendar
  import Snapshot

  /** The date shown for a copy of the struct; none while the epoch field is empty. */
  function DateShown(cells: seq<char>): Option<DateTime>
    requires |cells| == INFO_CELLS
  {
    var field := FieldText(cells, UNIX_EPOCH);
    if field == [] then None else Some(DateTimeOf(NumeralValue(DigitPrefix(field)), FIRMWARE_CAP))
  }

  /** The date screen, which shows no date when it gets no snapshot. */
  method ShowDateTime(store: InfoStore, locked: bool) returns (shown: Option<DateTime>)
    requires store.Valid() && NUL in FieldCells(store.cells[..], UNIX_EPOCH)
    ensures shown == if locked then DateShown(store.cells[..]) else None
  {
    var info := new char[INFO_CELLS](_ => NUL);
    var ok := store.GetSnapshot(info, locked);
    if !ok { return None; }
    var field := FieldCells(info[..], UNIX_EPOCH);
    if field[0] == NUL {
      CStringIs(field, []);
      return None;
    }
    var epoch, _ := ReadEpoch(field);
    var year, month, day, hour, minute, second, weekday := EpochToDateTime(epoch, FIRMWARE_CAP);
    shown := Some(DateTime(year, month, day, hour, minute, second, weekday));
  }

  /** What the date screen shows, by the formula of POSIX: nothing for an empty field, else the
      date of the digits at the front of the field. */
  lemma DateShownMeans(cells: seq<char>)
    requires |cells| == INFO_CELLS
    ensures var field := FieldText(cells, UNIX_EPOCH);
      var digits := DigitPrefix(field);
      match DateShown(cells)
      case None => field == []
      case Some(t) =>
        field != [] && (NumeralValue(digits) < 4133980800 ==>
          ValidDate(t) && ValidTime(t) && PosixSeconds(t) == NumeralValue(digits))
  {
    hide FieldText, DateTimeOf, PosixSeconds, ValidDate, ValidTime, EndOfYear;
    FirmwareRange();
    var e := NumeralValue(DigitPrefix(FieldText(cells, UNIX_EPOCH)));
    if e < 4133980800 {
      RoundTrip(e, FIRMWARE_CAP);
    }
  }

  // ---------------------------------------------------------------- no date yet

  /** The text that the last of these bodies to have field g left there. */
  function LastScanned(bodies: seq<string>, g: nat): string
    requires g < FIELDS
  {
    if bodies == [] then []
    else
      match ScanField(bodies[|bodies| - 1], Name(g))
      case None => LastScanned(bodies[..|bodies| - 1], g)
      case Some(v) => v
  }

  lemma {:induction false} FieldAfterParses(bodies: seq<string>, g: nat)
    requires g < FIELDS && forall i :: 0 <= i < |bodies| ==> NUL !in bodies[i]
    ensures FieldText(Snapshot.AfterParses(bodies), g) == LastScanned(bodies, g)
    decreases |bodies|
  {
    hide Apply, ParseWrites, ScanField, FieldCells, CString, Name;
    if bodies == [] {
      ZeroedField(g);
    } else {
      var front, last := bodies[..|bodies| - 1], bodies[|bodies| - 1];
      FieldAfterParses(front, g);
      ParseEffect(Snapshot.AfterParses(front), last, g);
    }
  }

  lemma ZeroedField(g: nat)
    requires g < FIELDS
    ensures FieldText(Snapshot.Zeroed(), g) == []
  {
    CStringIs(FieldCells(Snapshot.Zeroed(), g), []);
  }

  /** In every interleaving a snapshot shows each field as the last completed parse that had it left
      it, and shows a date exactly if one of those parses left a text in the epoch field. */
  lemma SnapshotShowsLast(steps: seq<Snapshot.Step>, j: nat, g: nat)
    requires j < |Snapshot.Run(steps).snapshots| && g < FIELDS
    ensures var s := Snapshot.Run(steps);
      var taken := s.snapshots[j];
      && taken.version <= |s.parsed| && |taken.copy| == INFO_CELLS
      && FieldText(taken.copy, g) == LastScanned(s.parsed[..taken.version], g)
      && (DateShown(taken.copy) == None <==> LastScanned(s.parsed[..taken.version], UNIX_EPOCH) == [])
  {
    Snapshot.SnapshotsLinearize(steps, j, j);
    Snapshot.RunParsesText(steps);
    hide Snapshot.Run, Snapshot.AfterParses, FieldText, LastScanned;
    var s := Snapshot.Run(steps);
    var bodies := s.parsed[..s.snapshots[j].version];
    FieldAfterParses(bodies, g);
    FieldAfterParses(bodies, UNIX_EPOCH);
  }

  lemma {:induction false} LastScannedFits(bodies: seq<string>, g: nat)
    requires g < FIELDS && forall i :: 0 <= i < |bodies| ==> NUL !in bodies[i]
    ensures |LastScanned(bodies, g)| <= 31 && NUL !in LastScanned(bodies, g)
    decreases |bodies|
  {
    hide ScanField, Name;
    if bodies == [] {
    } else {
      LastScannedFits(bodies[..|bodies| - 1], g);
      if ScanField(bodies[|bodies| - 1], Name(g)).Some? {
        ScannedFits(bodies[|bodies| - 1], Name(g));
      }
    }
  }

  /** In numbers: no snapshot shows a field of more than 31 characters, in a struct of 7 times 32
      bytes and a mark. */
  lemma SnapshotFieldsFit(steps: seq<Snapshot.Step>, j: nat, g: nat)
    requires j < |Snapshot.Run(steps).snapshots| && g < 7
    ensures |Snapshot.Run(steps).snapshots[j].copy| == 7 * 32 + 1
    ensures |FieldText(Snapshot.Run(steps).snapshots[j].copy, g)| <= 31
  {
    SnapshotShowsLast(steps, j, g);
    Snapshot.RunParsesText(steps);
    hide Snapshot.Run, FieldText, LastScanned;
    var s := Snapshot.Run(steps);
    LastScannedFits(s.parsed[..s.snapshots[j].version], g);
  }

  lemma {:induction false} NothingScanned(bodies: seq<string>, g: nat)
    requires g < FIELDS
    requires forall i :: 0 <= i < |bodies| ==> NoText(ScanField(bodies[i], Name(g)))
    ensures LastScanned(bodies, g) == []
    decreases |bodies|
  {
    hide ScanField, Name;
    if bodies == [] {
    } else {
      NothingScanned(bodies[..|bodies| - 1], g);
    }
  }

  predicate NoText(scanned: Option<string>) {
    scanned == None || scanned == Some([])
  }

  /** No snapshot shows a date before a body with a non-empty epoch has been parsed whole: not from
      boot, not from error bodies. */
  lemma NoDateYet(steps: seq<Snapshot.Step>, j: nat)
    requires j < |Snapshot.Run(steps).snapshots|
    requires var s := Snapshot.Run(steps);
      forall i :: 0 <= i < s.snapshots[j].version && i < |s.parsed| ==>
        NoText(ScanField(s.parsed[i], "unix_epoch"))
    ensures |Snapshot.Run(steps).snapshots[j].copy| == INFO_CELLS
    ensures DateShown(Snapshot.Run(steps).snapshots[j].copy) == None
  {
    hide Snapshot.Run, FieldText, LastScanned, ScanField, DateShown, NoText;
    SnapshotShowsLast(steps, j, UNIX_EPOCH);
    var s := Snapshot.Run(steps);
    var bodies := s.parsed[..s.snapshots[j].version];
    assert Name(UNIX_EPOCH) == "unix_epoch";
    forall i | 0 <= i < |bodies|
      ensures NoText(ScanField(bodies[i], Name(UNIX_EPOCH)))
    {
      assert bodies[i] == s.parsed[i];
    }
    NothingScanned(bodies, UNIX_EPOCH);
  }

  /** What a boot shows. */
  lemma BootShowsNoDate()
    ensures DateShown(Snapshot.Zeroed()) == None
  {
    ZeroedField(UNIX_EPOCH);
  }

  // ---------------------------------------------------------------- downloads that break off

  /** The first tokens of the proxy's object. */
  lemma BodyTokens(d: InfoDoc) returns (more: seq<Token>)
    ensures Emit(Obj(Members(d)), [])
         == [Bare("{")] + ([Key("unix_epoch")] + ([Bare(Decimal(d.epoch))] + ([Bare(", ")] + more)))
  {
    hide EmitMembers, Decimal, Escape;
    var members := Members(d);
    var rest := members[1..];
    MembersUnfold(members, true, []);
    MembersUnfold(rest, false, []);
    EpochKey();
    more := [Key(Escape(rest[0].name))] + Emit(rest[0].value, EmitMembers(rest[1..], false, []));
  }

  /** How the proxy's object begins. */
  lemma BodyBegins(d: InfoDoc) returns (rest: string)
    ensures InfoBody(d) == "{" + ("\"unix_epoch\": " + (Decimal(d.epoch) + rest)) && rest != [] && rest[0] == ','
  {
    hide Print, Emit, Decimal;
    var more := BodyTokens(d);
    var comma := [Bare(", ")] + more;
    var value := [Bare(Decimal(d.epoch))] + comma;
    PrintCons(Bare("{"), [Key("unix_epoch")] + value);
    PrintCons(Key("unix_epoch"), value);
    PrintCons(Bare(Decimal(d.epoch)), comma);
    PrintCons(Bare(", "), more);
    EpochText();
    rest := Print(comma);
  }

  lemma EpochText()
    ensures TokenText(Key("unix_epoch")) == "\"unix_epoch\": " == Pattern("unix_epoch") + " "
  {
  }

  lemma EpochKey()
    ensures Escape("unix_epoch") == "unix_epoch"
  {
    EscapeNothing("unix_epoch");
  }

  /** The epoch scanned from the first k characters of the proxy's object. */
  lemma EpochOfPrefix(d: InfoDoc, k: nat)
    requires k <= |InfoBody(d)|
    ensures |InfoBody(d)| > 15 + |Decimal(d.epoch)|
    ensures ScanField(InfoBody(d)[..k], "unix_epoch")
         == if k < 14 then None
            else Some(Cut(Cut(Decimal(d.epoch), 31), if k <= 15 then 0 else k - 15))
  {
    hide ScanField, ScanValue, ValueStart, Find, InfoBody, Decimal, Cut, Pattern, TokenText;
    var rest := BodyBegins(d);
    var s, name, digits := InfoBody(d), "unix_epoch", Decimal(d.epoch);
    var tail := " " + (digits + rest);
    EpochText();
    BlankBehind(Pattern(name), digits + rest);
    EpochAtOne(s, tail);
    DecimalIsLiteral(d.epoch);
    ScanLiteral(digits, rest);
    StartAfterBlank(digits + rest) by { assert (digits + rest)[0] == digits[0]; }
    ScanFieldOfPrefix(s, name, k);
  }

  lemma BlankBehind(pattern: string, t: string)
    ensures pattern + " " + t == pattern + (" " + t)
  {
  }

  lemma EpochAtOne(s: string, tail: string)
    requires s == "{" + (Pattern("unix_epoch") + tail)
    ensures Find(s, Pattern("unix_epoch")) == Some(1) && |Pattern("unix_epoch")| == 13 && s[14..] == tail
  {
    var pattern := Pattern("unix_epoch");
    assert |pattern| == 13 && s[1..14] == pattern;
    assert !MatchAt(s, pattern, 0) by {
      if MatchAt(s, pattern, 0) {
        MatchSpelled(s, "unix_epoch", 0);
      }
    }
    FindIs(s, pattern, 1);
  }

  lemma StartAfterBlank(t: string)
    requires t != [] && IsDigit(t[0])
    ensures ValueStart(" " + t) == 1
  {
    SkipOneBlank(t);
  }

  /** The date shown after a parse of `part`, the first k characters of the proxy's object: the old
      one while the key is not whole, none while no digit has come, and then the date of the digits
      that have; so it is the right one if and only if all of them have. */
  predicate ShowsWhatCame(d: InfoDoc, cells: seq<char>, part: string, k: nat)
    requires |cells| == INFO_CELLS
  {
    var digits := Decimal(d.epoch);
    var shown := DateShown(Apply(cells, ParseWrites(part)));
    && (k < 14 ==> shown == DateShown(cells))
    && (14 <= k <= 15 ==> shown == None)
    && (15 < k ==>
          && shown.Some? && ValidDate(shown.value) && ValidTime(shown.value)
          && PosixSeconds(shown.value) == NumeralValue(Cut(digits, k - 15))
          && (PosixSeconds(shown.value) == d.epoch <==> 15 + |digits| <= k))
  }

  lemma BrokenOffEpoch(d: InfoDoc, cells: seq<char>, k: nat)
    requires ValidDoc(d) && d.epoch <= 0x7fff_ffff && |cells| == INFO_CELLS && k <= |InfoBody(d)|
    ensures ShowsWhatCame(d, cells, InfoBody(d)[..k], k)
  {
    hide Apply, ParseWrites, InfoBody, FieldText, FieldCells, CString, DateShown, PosixSeconds, ValidDate, ValidTime;
    var digits, body := Decimal(d.epoch), InfoBody(d)[..k];
    BodyIsText(d);
    EpochOfPrefix(d, k);
    ParseEffect(cells, body, UNIX_EPOCH);
    DecimalLength(d.epoch, 10) by { TenDigits(); }
    var after := Apply(cells, ParseWrites(body));
    if k < 14 {
      SameFieldSameDate(cells, after);
    } else {
      DateShownMeans(after);
      if 15 < k {
        FirstDigits(d.epoch, k - 15);
      }
    }
  }

  lemma SameFieldSameDate(cells: seq<char>, after: seq<char>)
    requires |cells| == |after| == INFO_CELLS && FieldCells(cells, UNIX_EPOCH) == FieldCells(after, UNIX_EPOCH)
    ensures DateShown(cells) == DateShown(after)
  {
  }

  lemma FirstDigits(n: nat, k: nat)
    requires 0 < k && n <= 0x7fff_ffff
    ensures var field := Cut(Decimal(n), k);
      && field != [] && DigitPrefix(field) == field && NumeralValue(field) <= n
      && (NumeralValue(field) == n <==> |Decimal(n)| <= k)
  {
    hide Decimal;
    var s, field := Decimal(n), Cut(Decimal(n), k);
    assert AllDigits(field) && field + [] == field;
    DigitPrefixIs(field, []);
    DecimalReadsBack(n);
    if k < |s| {
      NumeralCutSmaller(n, k);
    }
  }
}
