/** The `/info` scanner: seven text fields cut out of a JSON body by `strstr` and written, byte by
    byte, into the shared struct. */
module InfoScanner {
  import opened CText
  import opened Json

  const INFO_STR_LEN := 32
  const FIELDS := 7
  /** sizeof(info_data_t): seven character arrays, then `ready`. */
  const INFO_CELLS := 225
  const READY_CELL := 224
  const READY: char := 1 as char

  /** The key table, in the order of the struct's fields. */
  function Name(f: nat): string
    requires f < FIELDS
  {
    match f
    case 0 => "city"
    case 1 => "country"
    case 2 => "weather"
    case 3 => "temperature_celsius"
    case 4 => "latitude"
    case 5 => "longitude"
    case _ => "unix_epoch"
  }

  const UNIX_EPOCH := 6

  // ---------------------------------------------------------------- what a field reads

  function ScanValue(s: string): string {
    var t := SkipBlanks(s);
    if t != [] && t[0] == '"' then Span(t[1..], INFO_STR_LEN - 1, "\"")
    else Span(t, INFO_STR_LEN - 1, ",} ")
  }

  function ScanField(json: string, name: string): Option<string> {
    match Find(json, Pattern(name))
    case None => None
    case Some(p) => Some(ScanValue(json[p + |Pattern(name)|..]))
  }

  // ---------------------------------------------------------------- byte writes

  datatype Write = Write(at: nat, value: char)

  predicate InCells(writes: seq<Write>) {
    forall i :: 0 <= i < |writes| ==> writes[i].at < INFO_CELLS
  }

  /** The struct after a sequence of byte writes. */
  function Apply(cells: seq<char>, writes: seq<Write>): (r: seq<char>)
    requires |cells| == INFO_CELLS && InCells(writes)
    ensures |r| == INFO_CELLS
  {
    if writes == [] then cells
    else
      var last := writes[|writes| - 1];
      Apply(cells, writes[..|writes| - 1])[last.at := last.value]
  }

  lemma {:induction false} ApplyTwice(cells: seq<char>, a: seq<Write>, b: seq<Write>)
    requires |cells| == INFO_CELLS && InCells(a) && InCells(b)
    ensures InCells(a + b) && Apply(cells, a + b) == Apply(Apply(cells, a), b)
    decreases |b|
  {
    if b == [] {
      assert a + b == a;
    } else {
      ApplyTwice(cells, a, b[..|b| - 1]);
      assert (a + b)[..|a + b| - 1] == a + b[..|b| - 1];
    }
  }

  lemma ApplyNone(cells: seq<char>)
    requires |cells| == INFO_CELLS
    ensures Apply(cells, []) == cells
  {
  }

  lemma ApplyOne(cells: seq<char>, writes: seq<Write>, w: Write)
    requires |cells| == INFO_CELLS && InCells(writes) && w.at < INFO_CELLS
    ensures InCells(writes + [w]) && Apply(cells, writes + [w]) == Apply(cells, writes)[w.at := w.value]
  {
    assert (writes + [w])[..|writes|] == writes;
  }

  function CharWrites(at: nat, text: string): (w: seq<Write>)
    ensures |w| == |text| && forall i :: 0 <= i < |w| ==> w[i] == Write(at + i, text[i])
  {
    seq(|text|, i requires 0 <= i < |text| => Write(at + i, text[i]))
  }

  lemma CharWritesNone(at: nat)
    ensures CharWrites(at, []) == []
  {
  }

  lemma CharWritesStep(at: nat, text: string)
    requires text != []
    ensures CharWrites(at, text)
         == CharWrites(at, text[..|text| - 1]) + [Write(at + |text| - 1, text[|text| - 1])]
  {
  }

  lemma {:induction false} ApplyChars(cells: seq<char>, at: nat, text: string)
    requires |cells| == INFO_CELLS && at + |text| <= INFO_CELLS
    ensures InCells(CharWrites(at, text))
    ensures Apply(cells, CharWrites(at, text)) == cells[..at] + text + cells[at + |text|..]
    decreases |text|
  {
    if text == [] {
    } else {
      var t := text[..|text| - 1];
      ApplyChars(cells, at, t);
      CharWritesStep(at, text);
      assert text == t + [text[|text| - 1]];
      var w := CharWrites(at, text);
      assert w[..|w| - 1] == CharWrites(at, t);
    }
  }

  /** Offset of a field in the struct. */
  function FieldAt(f: nat): nat {
    32 * f
  }

  /** The writes of the value that starts at s: its characters, then a NUL. */
  function ValueWrites(s: string, f: nat): (w: seq<Write>)
    requires f < FIELDS
    ensures InCells(w)
  {
    var v := ScanValue(s);
    CharWrites(FieldAt(f), v) + [Write(FieldAt(f) + |v|, NUL)]
  }

  lemma ScanValueCases(s: string)
    ensures var t := SkipBlanks(s);
      ScanValue(s) == if t != [] && t[0] == '"' then Span(t[1..], INFO_STR_LEN - 1, "\"")
                      else Span(t, INFO_STR_LEN - 1, ",} ")
  {
  }

  lemma ValueWritesAre(s: string, f: nat)
    requires f < FIELDS
    ensures var v := ScanValue(s);
      ValueWrites(s, f) == CharWrites(FieldAt(f), v) + [Write(FieldAt(f) + |v|, NUL)]
  {
  }

  /** The writes for one table entry. */
  function FieldWrites(json: string, f: nat): (w: seq<Write>)
    requires f < FIELDS
    ensures InCells(w)
  {
    match Find(json, Pattern(Name(f)))
    case None => []
    case Some(p) => ValueWrites(json[p + |Pattern(Name(f))|..], f)
  }

  function TableWrites(json: string, k: nat): (w: seq<Write>)
    requires k <= FIELDS
    ensures InCells(w)
  {
    if k == 0 then [] else TableWrites(json, k - 1) + FieldWrites(json, k - 1)
  }

  /** All byte writes of one parse, in order. */
  function ParseWrites(json: string): (w: seq<Write>)
    ensures InCells(w)
  {
    TableWrites(json, FIELDS) + [Write(READY_CELL, READY)]
  }

  // ---------------------------------------------------------------- the scanner

  class InfoStore {
    const cells: array<char>

    ghost predicate Valid()
      reads this
    {
      cells.Length == INFO_CELLS
    }

    constructor ()
      ensures Valid() && fresh(cells)
      ensures forall i :: 0 <= i < INFO_CELLS ==> cells[i] == NUL
    {
      cells := new char[INFO_CELLS](_ => NUL);
    }

    /** Either copy loop: characters from `pos` on, up to a stop character, the end of the text or
        31 characters. */
    method CopySpan(json: string, pos0: nat, at: nat, stops: string)
      returns (j: nat, ghost log: seq<Write>)
      requires Valid() && pos0 <= |json| && at + INFO_STR_LEN <= INFO_CELLS
      modifies cells
      ensures var v := Span(json[pos0..], INFO_STR_LEN - 1, stops);
        j == |v| && log == CharWrites(at, v)
      ensures InCells(log) && cells[..] == Apply(old(cells[..]), log)
    {
      hide Apply, Span, CharWrites;
      j, log := 0, [];
      CharWritesNone(at);
      var pos := pos0;
      ghost var copied: string := [];
      assert cells[..] == Apply(old(cells[..]), []) by { ApplyNone(cells[..]); }
      while pos < |json| && json[pos] !in stops && j < INFO_STR_LEN - 1
        invariant pos == pos0 + j <= |json| && j <= INFO_STR_LEN - 1
        invariant copied == json[pos0..pos]
        invariant forall i :: 0 <= i < |copied| ==> copied[i] !in stops
        invariant log == CharWrites(at, copied)
        invariant InCells(log) && cells[..] == Apply(old(cells[..]), log)
      {
        ApplyOne(old(cells[..]), log, Write(at + j, json[pos]));
        CharWritesStep(at, copied + [json[pos]]);
        assert (copied + [json[pos]])[..j] == copied;
        cells[at + j] := json[pos];
        log := log + [Write(at + j, json[pos])];
        copied := copied + [json[pos]];
        j, pos := j + 1, pos + 1;
      }
      SpanIs(json[pos0..], INFO_STR_LEN - 1, stops, copied);
    }

    method ParseValue(json: string, pos0: nat, f: nat) returns (ghost log: seq<Write>)
      requires Valid() && pos0 <= |json| && f < FIELDS
      modifies cells
      ensures log == ValueWrites(json[pos0..], f) && cells[..] == Apply(old(cells[..]), log)
    {
      hide SkipBlanks, Apply, Span, CharWrites, ScanValue, ValueWrites;
      var pos := SkipBlanksFrom(json, pos0);
      ghost var t := json[pos..];
      var j;
      if pos < |json| && json[pos] == '"' {
        assert t[1..] == json[pos + 1..];
        pos := pos + 1;
        j, log := CopySpan(json, pos, FieldAt(f), "\"");
      } else {
        j, log := CopySpan(json, pos, FieldAt(f), ",} ");
      }
      ScanValueCases(json[pos0..]);
      ValueWritesAre(json[pos0..], f);
      ApplyOne(old(cells[..]), log, Write(FieldAt(f) + j, NUL));
      cells[FieldAt(f) + j] := NUL;
      log := log + [Write(FieldAt(f) + j, NUL)];
    }

    /** One table entry. */
    method ParseField(json: string, f: nat) returns (ghost log: seq<Write>)
      requires Valid() && f < FIELDS
      modifies cells
      ensures log == FieldWrites(json, f) && cells[..] == Apply(old(cells[..]), log)
    {
      hide Name, ValueWrites, Apply;
      log := [];
      ApplyNone(cells[..]);
      var key := Pattern(Name(f));
      var found := Find(json, key);
      if found.None? { return; }
      log := ParseValue(json, found.value + |key|, f);
    }

    method ParseInfo(json: string) returns (ghost log: seq<Write>)
      requires Valid()
      modifies cells
      ensures log == ParseWrites(json) && cells[..] == Apply(old(cells[..]), log)
    {
      log := [];
      for i := 0 to FIELDS
        invariant log == TableWrites(json, i)
        invariant cells[..] == Apply(old(cells[..]), log)
      {
        var entry := ParseField(json, i);
        ApplyTwice(old(cells[..]), log, entry);
        log := log + entry;
      }
      ApplyOne(old(cells[..]), log, Write(READY_CELL, READY));
      cells[READY_CELL] := READY;
      log := log + [Write(READY_CELL, READY)];
    }

    /** The display's copy of the struct; `locked` tells whether the mutex came in time. */
    method GetSnapshot(out: array<char>, locked: bool) returns (ok: bool)
      requires Valid() && out.Length == INFO_CELLS && out != cells
      modifies out
      ensures ok == locked
      ensures out[..] == if locked then cells[..] else old(out[..])
    {
      if !locked { return false; }
      forall i | 0 <= i < INFO_CELLS {
        out[i] := cells[i];
      }
      ok := true;
      assert out[..] == cells[..];
    }
  }

  // ---------------------------------------------------------------- what the writes leave behind

  function FieldCells(cells: seq<char>, f: nat): seq<char>
    requires |cells| == INFO_CELLS && f < FIELDS
  {
    cells[FieldAt(f)..FieldAt(f) + 32]
  }

  /** A field as the display reads it. */
  function FieldText(cells: seq<char>, f: nat): string
    requires |cells| == INFO_CELLS && f < FIELDS
  {
    CString(FieldCells(cells, f))
  }

  lemma ScannedFits(json: string, name: string)
    requires NUL !in json && ScanField(json, name).Some?
    ensures |ScanField(json, name).value| < INFO_STR_LEN && NUL !in ScanField(json, name).value
  {
    hide Find, Pattern, ScanValue;
    SuffixHasNoNul(json[Find(json, Pattern(name)).value + |Pattern(name)|..]);
  }

  lemma {:induction false} SuffixHasNoNul(s: string)
    requires NUL !in s
    ensures NUL !in ScanValue(s) && NUL !in SkipBlanks(s) && |ScanValue(s)| < INFO_STR_LEN
    decreases |s|
  {
    if s == [] || (s[0] != ' ' && s[0] != '\t') {
    } else {
      SuffixHasNoNul(s[1..]);
    }
  }

  /** What a text and its NUL leave where they are written. */
  lemma SpliceOwn(cells: seq<char>, at: nat, v: string, after: seq<char>)
    requires at + 32 <= |cells| && |v| < 32
    requires after == (cells[..at] + v + cells[at + |v|..])[at + |v| := NUL]
    ensures after[at..at + 32][..|v|] == v && after[at..at + 32][|v|] == NUL
  {
    var field := after[at..at + 32];
    forall i | 0 <= i < |v|
      ensures field[i] == v[i]
    {
      assert field[i] == after[at + i] == (cells[..at] + v + cells[at + |v|..])[at + i];
    }
  }

  /** And elsewhere. */
  lemma SpliceOther(cells: seq<char>, at: nat, v: string, after: seq<char>, other: nat)
    requires at + 32 <= |cells| && other + 32 <= |cells| && |v| < 32
    requires other + 32 <= at || at + 32 <= other
    requires after == (cells[..at] + v + cells[at + |v|..])[at + |v| := NUL]
    ensures after[other..other + 32] == cells[other..other + 32]
  {
  }

  lemma FieldWritesAre(json: string, f: nat)
    requires f < FIELDS
    ensures match ScanField(json, Name(f))
      case None => FieldWrites(json, f) == []
      case Some(v) => FieldWrites(json, f) == CharWrites(FieldAt(f), v) + [Write(FieldAt(f) + |v|, NUL)]
  {
    hide Name, ScanValue, CharWrites, Pattern, Find;
  }

  lemma FieldHolds(cells: seq<char>, f: nat, v: string)
    requires |cells| == INFO_CELLS && f < FIELDS && |v| < 32 && NUL !in v
    requires cells[FieldAt(f)..FieldAt(f) + 32][..|v|] == v && cells[FieldAt(f)..FieldAt(f) + 32][|v|] == NUL
    ensures FieldText(cells, f) == v
  {
    CStringIs(FieldCells(cells, f), v);
  }

  lemma SameField(cells: seq<char>, after: seq<char>, f: nat)
    requires |cells| == |after| == INFO_CELLS && f < FIELDS
    requires after[FieldAt(f)..FieldAt(f) + 32] == cells[FieldAt(f)..FieldAt(f) + 32]
    ensures FieldCells(after, f) == FieldCells(cells, f)
  {
  }

  lemma FieldWritesEffect(cells: seq<char>, json: string, f: nat, g: nat)
    requires |cells| == INFO_CELLS && f < FIELDS && g < FIELDS && NUL !in json
    ensures var after := Apply(cells, FieldWrites(json, f));
      if f == g && ScanField(json, Name(f)).Some? then FieldText(after, g) == ScanField(json, Name(f)).value
      else FieldCells(after, g) == FieldCells(cells, g)
  {
    hide Name, FieldCells, FieldText, FieldWrites, ScanField, Apply, CharWrites;
    FieldWritesAre(json, f);
    if ScanField(json, Name(f)).None? {
      ApplyNone(cells);
    } else {
      var at, v := FieldAt(f), ScanField(json, Name(f)).value;
      ScannedFits(json, Name(f));
      ApplyChars(cells, at, v);
      ApplyOne(cells, CharWrites(at, v), Write(at + |v|, NUL));
      var after := Apply(cells, FieldWrites(json, f));
      if f == g {
        SpliceOwn(cells, at, v, after);
        FieldHolds(after, f, v);
      } else {
        SpliceOther(cells, at, v, after, FieldAt(g));
        SameField(cells, after, g);
      }
    }
  }

  lemma {:induction false} TableWritesEffect(cells: seq<char>, json: string, k: nat, g: nat)
    requires |cells| == INFO_CELLS && k <= FIELDS && g < FIELDS && NUL !in json
    ensures var after := Apply(cells, TableWrites(json, k));
      if g < k && ScanField(json, Name(g)).Some? then FieldText(after, g) == ScanField(json, Name(g)).value
      else FieldCells(after, g) == FieldCells(cells, g)
    decreases k
  {
    hide FieldCells, FieldWrites, ScanField, Apply, Name, CString;
    if k == 0 {
      ApplyNone(cells);
    } else {
      TableWritesEffect(cells, json, k - 1, g);
      ApplyTwice(cells, TableWrites(json, k - 1), FieldWrites(json, k - 1));
      FieldWritesEffect(Apply(cells, TableWrites(json, k - 1)), json, k - 1, g);
    }
  }

  /** After a parse each field reads as its scanned text, or has not one byte changed if the body
      has no such member. */
  lemma ParseEffect(cells: seq<char>, json: string, g: nat)
    requires |cells| == INFO_CELLS && g < FIELDS && NUL !in json
    ensures var after := Apply(cells, ParseWrites(json));
      && after[READY_CELL] == READY
      && match ScanField(json, Name(g))
         case None => FieldCells(after, g) == FieldCells(cells, g)
         case Some(v) => FieldText(after, g) == v
  {
    TableWritesEffect(cells, json, FIELDS, g);
    var w := ParseWrites(json);
    assert w[..|w| - 1] == TableWrites(json, FIELDS);
    var after := Apply(cells, w);
    assert FieldCells(after, g) == FieldCells(Apply(cells, TableWrites(json, FIELDS)), g);
  }

  /** 32 bytes read as the scanned value, or are as before when there was none. */
  predicate LeftAt(cells: seq<char>, after: seq<char>, at: nat, scanned: Option<string>)
    requires |cells| == |after| == INFO_CELLS && at + 32 <= INFO_CELLS
  {
    match scanned
    case None => after[at..at + 32] == cells[at..at + 32]
    case Some(v) => CString(after[at..at + 32]) == v
  }

  lemma FieldLeft(cells: seq<char>, json: string, g: nat)
    requires |cells| == INFO_CELLS && g < FIELDS && NUL !in json
    ensures LeftAt(cells, Apply(cells, ParseWrites(json)), 32 * g, ScanField(json, Name(g)))
  {
    hide Apply, ParseWrites, ScanField, CString, Name;
    ParseEffect(cells, json, g);
  }

  /** The key table in full: which key of a body decides about which bytes of the struct. */
  lemma KeysByOffset(cells: seq<char>, json: string)
    requires |cells| == INFO_CELLS && NUL !in json
    ensures var after := Apply(cells, ParseWrites(json));
      && LeftAt(cells, after, 0, ScanField(json, "city"))
      && LeftAt(cells, after, 32, ScanField(json, "country"))
      && LeftAt(cells, after, 64, ScanField(json, "weather"))
      && LeftAt(cells, after, 96, ScanField(json, "temperature_celsius"))
      && LeftAt(cells, after, 128, ScanField(json, "latitude"))
      && LeftAt(cells, after, 160, ScanField(json, "longitude"))
      && LeftAt(cells, after, 192, ScanField(json, "unix_epoch"))
  {
    hide Apply, ParseWrites, ScanField, LeftAt;
    FieldLeft(cells, json, 0);
    FieldLeft(cells, json, 1);
    FieldLeft(cells, json, 2);
    FieldLeft(cells, json, 3);
    FieldLeft(cells, json, 4);
    FieldLeft(cells, json, 5);
    FieldLeft(cells, json, 6);
  }

  // ---------------------------------------------------------------- printed documents

  predicate IsScalar(j: Json) {
    (j.Literal? || j.Str? || j.Verbatim?) && Proper(j)
  }

  predicate ScalarMembers(members: seq<Member>) {
    forall i :: 0 <= i < |members| ==> IsScalar(members[i].value)
  }

  /** What a scanner that stops at the first quote shows of a printed value. */
  function Shown(j: Json): string
    requires IsScalar(j)
  {
    if j.Literal? then j.text else Span(Printed(j), |Printed(j)|, "\"")
  }

  lemma ShownUnescaped(content: string)
    requires NeedsNoEscape(content)
    ensures Shown(Str(content)) == content
  {
    EscapeNothing(content);
    SpanIs(content, |content|, "\"", content);
  }

  lemma LiteralSpan(text: string)
    requires IsLiteral(text)
    ensures Span(text, |text|, ",} ") == text
    ensures text[0] != ' ' && text[0] != '\t' && text[0] != '"'
  {
    SpanIs(text, |text|, ",} ", text);
  }

  lemma ScanLiteral(text: string, tail: string)
    requires IsLiteral(text) && tail != [] && (tail[0] == ',' || tail[0] == '}')
    ensures ScanValue(" " + (text + tail)) == Cut(text, INFO_STR_LEN - 1)
  {
    LiteralSpan(text);
    var t := text + tail;
    SkipOneBlank(t);
    SpanCut(text, tail, INFO_STR_LEN - 1, ",} ");
  }

  lemma BehindQuote(e: string, tail: string)
    ensures ("\"" + e + "\"" + tail)[1..] == e + ("\"" + tail)
    ensures ("\"" + e + "\"" + tail)[0] == '"'
  {
  }

  lemma ScanBehindQuote(t: string)
    requires t != [] && t[0] == '"'
    ensures ScanValue(" " + t) == Span(t[1..], INFO_STR_LEN - 1, "\"")
  {
    SkipOneBlank(t);
  }

  lemma ScanQuoted(e: string, tail: string)
    ensures ScanValue(" " + ("\"" + e + "\"" + tail)) == Cut(Span(e, |e|, "\""), INFO_STR_LEN - 1)
  {
    hide Span, Cut, ScanValue;
    BehindQuote(e, tail);
    ScanBehindQuote("\"" + e + "\"" + tail);
    SpanCut(e, "\"" + tail, INFO_STR_LEN - 1, "\"");
  }

  /** Scanning behind a member name gives the shown value, cut to 31 characters. */
  lemma ScanPrinted(value: Json, rest: seq<Token>)
    requires IsScalar(value) && Print(rest) != [] && (Print(rest)[0] == ',' || Print(rest)[0] == '}')
    ensures ScanValue(" " + Print(Emit(value, rest))) == Cut(Shown(value), INFO_STR_LEN - 1)
  {
    hide ScanValue, Cut, Span;
    assert Emit(value, rest)[1..] == rest;
    if value.Literal? {
      ScanLiteral(value.text, Print(rest));
    } else {
      ScanQuoted(Printed(value), Print(rest));
    }
  }

  lemma {:induction false} MemberLookup(members: seq<Member>, first: bool, name: string, i: nat)
    requires ScalarMembers(members) && i < |members| && Answers(members[i].name, name) && IsWord(name)
    requires forall j :: 0 <= j < i ==> !Answers(members[j].name, name)
    ensures AfterKey(EmitMembers(members, first, []), name)
         == Some(Emit(members[i].value, EmitMembers(members[i + 1..], false, [])))
    decreases |members|
  {
    var after := EmitMembers(members[1..], false, []);
    SkipOneMember(members, first, name);
    if i == 0 {
    } else {
      MemberLookup(members[1..], false, name, i - 1);
      assert members[1..][i..] == members[i + 1..];
    }
  }

  lemma AfterKeyValue(value: Json, after: seq<Token>, name: string)
    requires IsScalar(value)
    ensures AfterKey(Emit(value, after), name) == AfterKey(after, name)
  {
    assert Emit(value, after)[1..] == after;
  }

  lemma AfterKeyCons(t: Token, rest: seq<Token>, name: string)
    ensures AfterKey([t] + rest, name) == if KeyFor(t, name) then Some(rest) else AfterKey(rest, name)
  {
    assert ([t] + rest)[1..] == rest;
  }

  /** One step of the search over the tokens of a member list. */
  lemma SkipOneMember(members: seq<Member>, first: bool, name: string)
    requires ScalarMembers(members) && members != [] && IsWord(name)
    ensures var after := EmitMembers(members[1..], false, []);
      AfterKey(EmitMembers(members, first, []), name)
      == if Answers(members[0].name, name) then Some(Emit(members[0].value, after)) else AfterKey(after, name)
  {
    hide Emit, EmitMembers, AfterKey, IsScalar, Answers, Escape;
    var after := EmitMembers(members[1..], false, []);
    var value := Emit(members[0].value, after);
    MembersUnfold(members, first, []);
    AfterKeyValue(members[0].value, after, name);
    var key := Key(Escape(members[0].name));
    EscapeAnswers(members[0].name, name);
    AfterKeyCons(key, value, name);
    AfterKeyCons(Bare(", "), [key] + value, name);
  }

  lemma {:induction false} NoSuchMember(members: seq<Member>, first: bool, name: string)
    requires ScalarMembers(members) && IsWord(name)
    requires forall j :: 0 <= j < |members| ==> !Answers(members[j].name, name)
    ensures AfterKey(EmitMembers(members, first, []), name) == None
    decreases |members|
  {
    if members == [] {
      assert EmitMembers(members, first, []) == [Bare("}")];
    } else {
      SkipOneMember(members, first, name);
      NoSuchMember(members[1..], false, name);
    }
  }

  lemma MembersTailText(members: seq<Member>)
    ensures var t := Print(EmitMembers(members, false, []));
      t != [] && (t[0] == ',' || t[0] == '}')
  {
    if members == [] {
      assert EmitMembers(members, false, []) == [Bare("}")];
    } else {
      var tokens := EmitMembers(members, false, []);
      assert tokens[0] == Bare(", ");
    }
  }

  lemma ObjectTokens(members: seq<Member>, name: string)
    requires ScalarMembers(members)
    ensures Proper(Obj(members)) && WellFormed(Emit(Obj(members), []))
    ensures AfterKey(Emit(Obj(members), []), name) == AfterKey(EmitMembers(members, true, []), name)
  {
    DocumentWellFormed(Obj(members));
    var tokens := Emit(Obj(members), []);
    assert tokens[1..] == EmitMembers(members, true, []);
  }

  /** Scanning a printed object of scalars for a member gives the first member of that name, as
      far as its first quote and cut to 31 characters. */
  lemma ScanMember(members: seq<Member>, name: string, i: nat)
    requires ScalarMembers(members) && i < |members| && Answers(members[i].name, name) && IsWord(name)
    requires forall j :: 0 <= j < i ==> !Answers(members[j].name, name)
    ensures ScanField(PrintJson(Obj(members)), name) == Some(Cut(Shown(members[i].value), INFO_STR_LEN - 1))
  {
    hide Emit, EmitMembers, Print, ScanValue, Shown, Cut, Pattern;
    ObjectTokens(members, name);
    FindFindsMember(Emit(Obj(members), []), name);
    MemberLookup(members, true, name, i);
    MembersTailText(members[i + 1..]);
    ScanPrinted(members[i].value, EmitMembers(members[i + 1..], false, []));
  }

  /** A printed object without such a member yields nothing, whatever its strings contain. */
  lemma ScanNoMember(members: seq<Member>, name: string)
    requires ScalarMembers(members) && IsWord(name)
    requires forall j :: 0 <= j < |members| ==> !Answers(members[j].name, name)
    ensures ScanField(PrintJson(Obj(members)), name) == None
  {
    ObjectTokens(members, name);
    FindFindsMember(Emit(Obj(members), []), name);
    NoSuchMember(members, true, name);
  }

  // ---------------------------------------------------------------- other layouts, and texts that break off

  /** A value without quotes ends at a comma, a brace or a blank, whatever blanks stand before it. */
  lemma ScanBareText(w: string, text: string, tail: string)
    requires Blanks(w) && text != [] && text[0] != '"' && text[0] != '\t'
    requires forall i :: 0 <= i < |text| ==> text[i] != ',' && text[i] != '}' && text[i] != ' '
    requires tail == [] || tail[0] == ',' || tail[0] == '}' || tail[0] == ' '
    ensures ScanValue(w + (text + tail)) == if |text| <= 31 then text else text[..31]
  {
    SkipBlanksInFront(w, text + tail);
    SpanIs(text + tail, 31, ",} ", if |text| <= 31 then text else text[..31]);
  }

  /** A quoted value ends at the next quote. */
  lemma ScanQuotedText(w: string, text: string, tail: string)
    requires Blanks(w) && '"' !in text
    requires tail == [] || tail[0] == '"'
    ensures ScanValue(w + ("\"" + (text + tail))) == if |text| <= 31 then text else text[..31]
  {
    SkipBlanksInFront(w, "\"" + (text + tail));
    assert ("\"" + (text + tail))[1..] == text + tail;
    SpanIs(text + tail, 31, "\"", if |text| <= 31 then text else text[..31]);
  }

  /** How many characters of s come before its value: blanks and an opening quote. */
  function ValueStart(s: string): nat {
    SkipBlanksOfPrefix(s, 0);
    var t := SkipBlanks(s);
    |s| - |t| + if t != [] && t[0] == '"' then 1 else 0
  }

  /** The value of a text that breaks off is what has come of it. */
  lemma ScanValueOfPrefix(s: string, k: nat)
    requires k <= |s|
    ensures ScanValue(s[..k]) == Cut(ScanValue(s), if k <= ValueStart(s) then 0 else k - ValueStart(s))
  {
    hide Span, SkipBlanks, Cut;
    SkipBlanksOfPrefix(s, k);
    var t := SkipBlanks(s);
    var b := |s| - |t|;
    if k <= b {
      SpanOfPrefix(t, 0, 31, ",} ");
      CutToNothing(ScanValue(s));
      CutToNothing(Span(t, 31, ",} "));
    } else {
      var m := k - b;
      assert t[..m][0] == t[0];
      if t[0] == '"' {
        assert t[..m][1..] == t[1..][..m - 1];
        SpanOfPrefix(t[1..], m - 1, 31, "\"");
        CutToNothing(ScanValue(s));
      } else {
        SpanOfPrefix(t, m, 31, ",} ");
      }
    }
  }

  lemma CutToNothing(s: string)
    ensures Cut(s, 0) == []
  {
  }

  /** Scanning a text that breaks off: nothing if the key is not there whole, else what has come of
      the value. */
  lemma ScanFieldOfPrefix(s: string, name: string, k: nat)
    requires k <= |s|
    ensures match Find(s, Pattern(name))
      case None => ScanField(s[..k], name) == None
      case Some(p) =>
        var q := p + |Pattern(name)|;
        && q <= |s|
        && ScanField(s[..k], name)
           == if k < q then None
              else
                var start := q + ValueStart(s[q..]);
                Some(Cut(ScanValue(s[q..]), if k <= start then 0 else k - start))
  {
    hide ScanValue, ValueStart, Find, Pattern, Cut;
    FindInPrefix(s, Pattern(name), k);
    var r := Find(s, Pattern(name));
    if r.Some? {
      FoundFits(s, Pattern(name));
      var q := r.value + |Pattern(name)|;
      if q <= k {
        ValueOfPrefix(s, q, k);
      }
    }
  }

  lemma ValueOfPrefix(s: string, q: nat, k: nat)
    requires q <= k <= |s|
    ensures var start := q + ValueStart(s[q..]);
      ScanValue(s[..k][q..]) == Cut(ScanValue(s[q..]), if k <= start then 0 else k - start)
  {
    hide ScanValue, ValueStart, Cut;
    assert s[..k][q..] == s[q..][..k - q];
    ScanValueOfPrefix(s[q..], k - q);
  }
}
