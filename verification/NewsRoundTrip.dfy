/** The news scanner undoes the JSON printer: from any printed document it recovers the titles. */
module NewsRoundTrip {
  import opened CText
  import opened Json
  import opened NewsScanner

  function First<T>(s: seq<T>, n: nat): seq<T> {
    if |s| <= n then s else s[..n]
  }

  /** A printed string as far as its first quote, cut to the row. */
  function RowOf(printed: string): string {
    Cut(Span(printed, |printed|, "\""), NEWS_TITLE_LEN - 1)
  }

  function NonEmptyRow(printed: string): seq<string> {
    if RowOf(printed) == [] then [] else [RowOf(printed)]
  }

  // ---------------------------------------------------------------- over token streams

  /** Every title is a string or null. */
  predicate TitlesOk(tokens: seq<Token>) {
    tokens == [] ||
    ( && TitlesOk(tokens[1..])
      && (KeyFor(tokens[0], TITLE) ==>
            |tokens| > 1 && (tokens[1].Quoted? || tokens[1] == Bare("null"))))
  }

  function TitleList(tokens: seq<Token>): seq<string> {
    if tokens == [] then []
    else
      (if KeyFor(tokens[0], TITLE) && |tokens| > 1 && tokens[1].Quoted? then NonEmptyRow(tokens[1].printed) else [])
      + TitleList(tokens[1..])
  }

  /** Text in which no title starts can be skipped. */
  lemma TitlesSkip(s: string, n: nat, room: nat)
    requires n <= |s| && forall p :: 0 <= p < n ==> !MatchAt(s, Pattern(TITLE), p)
    ensures Titles(s, room) == Titles(s[n..], room)
  {
    if 0 < room {
      FindSkips(s, Pattern(TITLE), n);
      TitlesUnfold(s, room);
      TitlesUnfold(s[n..], room);
      var r := Find(s[n..], Pattern(TITLE));
      if r.Some? {
        assert s[n..][r.value + 8..] == s[n + r.value + 8..];
      }
    }
  }

  lemma SkipToken(tokens: seq<Token>, room: nat)
    requires WellFormed(tokens) && tokens != [] && !KeyFor(tokens[0], TITLE)
    ensures Titles(Print(tokens), room) == Titles(Print(tokens[1..]), room)
  {
    FindPastToken(tokens, TITLE);
    TitlesSkip(Print(tokens), |TokenText(tokens[0])|, room);
  }

  /** The search resumes somewhere inside a printed string, or right behind it, and still finds
      the next title. */
  lemma ResumeInside(tokens: seq<Token>, x: nat, room: nat)
    requires WellFormed(tokens) && tokens != [] && tokens[0].Quoted? && x <= |TokenText(tokens[0])|
    ensures Titles(Print(tokens)[x..], room) == Titles(Print(tokens[1..]), room)
  {
    var s, n := Print(tokens), |TokenText(tokens[0])|;
    var t := s[x..];
    forall p | 0 <= p < n - x
      ensures !MatchAt(t, Pattern(TITLE), p)
    {
      MatchInFirstToken(tokens, TITLE, p + x);
      MatchAfterDrop(s, Pattern(TITLE), x, p);
    }
    TitlesSkip(t, n - x, room);
    assert t[n - x..] == Print(tokens[1..]);
  }

  lemma CutQuoted(e: string, rest: string, row: string) returns (x: nat)
    requires row == Cut(Span(e, |e|, "\""), NEWS_TITLE_LEN - 1)
    ensures var q := "\"" + e + "\"" + rest;
      x <= |e| + 2 && CutTitle(" " + q) == Cutting(Some(row), q[x..])
  {
    hide Span, Cut;
    var q := "\"" + e + "\"" + rest;
    var v := e + ("\"" + rest);
    SpanCut(e, "\"" + rest, NEWS_TITLE_LEN - 1, "\"");
    SkipOneBlank(q);
    assert !("null" <= q) by { assert q[0] != "null"[0]; }
    assert DropQuote(q) == v;
    assert |row| <= |e| by { assert |v| == |e| + 1 + |rest|; CutShorter(e); }
    var t := v[|row|..];
    assert t == q[1 + |row|..];
    if t[0] == '"' {
      x := 2 + |row|;
      assert t[1..] == q[x..];
    } else {
      x := 1 + |row|;
    }
  }

  lemma CutShorter(e: string)
    ensures |Cut(Span(e, |e|, "\""), NEWS_TITLE_LEN - 1)| <= |e|
  {
  }

  /** What one cut of a printed string yields, and where it leaves off. */
  lemma CutPrinted(printed: string, rest: string) returns (x: nat)
    ensures var q := TokenText(Quoted(printed)) + rest;
      && x <= |TokenText(Quoted(printed))|
      && CutTitle(" " + q) == Cutting(Some(RowOf(printed)), q[x..])
  {
    x := CutQuoted(printed, rest, RowOf(printed));
  }

  lemma FirstOfPrepended<T>(a: T, rest: seq<T>, room: nat)
    requires 0 < room
    ensures First([a] + rest, room) == [a] + First(rest, room - 1)
  {
  }

  /** In printed JSON the scanner finds exactly the non-empty titles, in order. */
  lemma {:induction false} ScanTokens(tokens: seq<Token>, room: nat)
    requires WellFormed(tokens) && TitlesOk(tokens)
    ensures Titles(Print(tokens), room) == First(TitleList(tokens), room)
    decreases |tokens|, 1
  {
    hide Titles, Find, Pattern, TokenText, CutTitle;
    if room == 0 {
      TitlesUnfold(Print(tokens), 1);
    } else if tokens == [] {
      NothingInNothing(TITLE);
      TitlesUnfold([], room);
    } else if !KeyFor(tokens[0], TITLE) {
      SkipToken(tokens, room);
      ScanTokens(tokens[1..], room);
    } else {
      ScanTitle(tokens, room);
    }
  }

  lemma KeyInFront(tokens: seq<Token>)
    requires WellFormed(tokens) && tokens != [] && KeyFor(tokens[0], TITLE)
    ensures var r := Find(Print(tokens), Pattern(TITLE));
      r.Some? && r.value + 8 <= |Print(tokens)| && Print(tokens)[r.value + 8..] == " " + Print(tokens[1..])
  {
    FindAtKey(tokens, TITLE);
    assert |Pattern(TITLE)| == 8;
  }

  lemma CutNull(rest: string)
    ensures CutTitle(" " + ("null" + rest)) == Cutting(None, rest)
  {
    var t := "null" + rest;
    SkipOneBlank(t);
    assert t[4..] == rest;
  }

  lemma {:induction false} ScanTitle(tokens: seq<Token>, room: nat)
    requires WellFormed(tokens) && TitlesOk(tokens) && tokens != [] && KeyFor(tokens[0], TITLE) && 0 < room
    ensures Titles(Print(tokens), room) == First(TitleList(tokens), room)
    decreases |tokens|, 0
  {
    hide CutTitle, Find, Pattern, Titles, TokenText, First;
    var value, after := tokens[1..], tokens[1..][1..];
    assert value[0] == tokens[1];
    assert Print(value) == TokenText(value[0]) + Print(after);
    KeyInFront(tokens);
    TitlesUnfold(Print(tokens), room);
    assert TitleList(value) == TitleList(after);
    if value[0].Quoted? {
      var printed := value[0].printed;
      var x := CutPrinted(printed, Print(after));
      ResumeInside(value, x, room);
      ResumeInside(value, x, room - 1);
      ScanTokens(after, room);
      ScanTokens(after, room - 1);
      assert TitleList(tokens) == NonEmptyRow(printed) + TitleList(after);
      FirstOfPrepended(RowOf(printed), TitleList(after), room);
    } else {
      assert TokenText(value[0]) == "null" by { NullText(); }
      CutNull(Print(after));
      ScanTokens(after, room);
      assert TitleList(tokens) == TitleList(after);
    }
  }

  lemma NullText()
    ensures TokenText(Bare("null")) == "null"
  {
  }

  // ---------------------------------------------------------------- over documents

  /** Every member whose name answers for "title", at any depth, holds a string or null. */
  predicate TitleValuesOk(j: Json) {
    match j
    case Literal(_) => true
    case Str(_) => true
    case Verbatim(_) => true
    case Arr(items) => forall i :: 0 <= i < |items| ==> TitleValuesOk(items[i])
    case Obj(members) => forall i :: 0 <= i < |members| ==> MemberOk(members[i]) && TitleValuesOk(members[i].value)
  }

  predicate MemberOk(m: Member) {
    Answers(m.name, TITLE) ==> IsString(m.value) || m.value == Literal("null")
  }

  /** The non-empty rows for the titles of a document, in printing order. */
  function TitlesIn(j: Json): seq<string>
    decreases j, 0
  {
    match j
    case Literal(_) => []
    case Str(_) => []
    case Verbatim(_) => []
    case Arr(items) => TitlesInItems(items)
    case Obj(members) => TitlesInMembers(members)
  }

  function TitlesInItems(items: seq<Json>): seq<string>
    decreases items, 1
  {
    if items == [] then [] else TitlesIn(items[0]) + TitlesInItems(items[1..])
  }

  /** One member's titles: its own if its name answers, else those inside its value. */
  function TitlesInMember(m: Member): seq<string>
    decreases m, 0
  {
    if Answers(m.name, TITLE) && IsString(m.value) then NonEmptyRow(Printed(m.value)) else TitlesIn(m.value)
  }

  function TitlesInMembers(members: seq<Member>): seq<string>
    decreases members, 1
  {
    if members == [] then [] else TitlesInMember(members[0]) + TitlesInMembers(members[1..])
  }

  lemma ConsTitles(t: Token, rest: seq<Token>)
    requires TitlesOk(rest) && !t.Key?
    ensures TitlesOk([t] + rest) && TitleList([t] + rest) == TitleList(rest)
  {
    assert ([t] + rest)[1..] == rest;
  }

  lemma Associate<T>(a: seq<T>, b: seq<T>, c: seq<T>)
    ensures a + b + c == a + (b + c)
  {
  }

  lemma {:induction false} EmitTitles(j: Json, rest: seq<Token>)
    requires TitleValuesOk(j) && TitlesOk(rest)
    ensures TitlesOk(Emit(j, rest)) && TitleList(Emit(j, rest)) == TitlesIn(j) + TitleList(rest)
    decreases j, 0
  {
    match j
    case Literal(text) => ConsTitles(Bare(text), rest);
    case Str(_) => ConsTitles(Quoted(Printed(j)), rest);
    case Verbatim(_) => ConsTitles(Quoted(Printed(j)), rest);
    case Arr(items) =>
      EmitItemsTitles(items, true, rest);
      ConsTitles(Bare("["), EmitItems(items, true, rest));
    case Obj(members) =>
      EmitMembersTitles(members, true, rest);
      ConsTitles(Bare("{"), EmitMembers(members, true, rest));
  }

  lemma {:induction false} EmitItemsTitles(items: seq<Json>, first: bool, rest: seq<Token>)
    requires forall i :: 0 <= i < |items| ==> TitleValuesOk(items[i])
    requires TitlesOk(rest)
    ensures TitlesOk(EmitItems(items, first, rest))
    ensures TitleList(EmitItems(items, first, rest)) == TitlesInItems(items) + TitleList(rest)
    decreases items, 1
  {
    if items == [] {
      ConsTitles(Bare("]"), rest);
    } else {
      var after := EmitItems(items[1..], false, rest);
      EmitItemsTitles(items[1..], false, rest);
      EmitTitles(items[0], after);
      var head := Emit(items[0], after);
      ConsTitles(Bare(", "), head);
      assert EmitItems(items, first, rest) == if first then head else [Bare(", ")] + head;
      hide EmitItems, Emit, TitleList, TitlesOk, TitlesIn;
      Associate(TitlesIn(items[0]), TitlesInItems(items[1..]), TitleList(rest));
    }
  }

  lemma {:induction false} EmitMemberTitles(m: Member, after: seq<Token>)
    requires MemberOk(m) && TitleValuesOk(m.value) && TitlesOk(after)
    ensures var t := [Key(Escape(m.name))] + Emit(m.value, after);
      TitlesOk(t) && TitleList(t) == TitlesInMember(m) + TitleList(after)
    decreases m, 0
  {
    EmitTitles(m.value, after);
    var value := Emit(m.value, after);
    var t := [Key(Escape(m.name))] + value;
    assert t[1..] == value;
    EscapeAnswers(m.name, TITLE) by { Words(); }
    hide Answers, Escape;
    if Answers(m.name, TITLE) {
      assert t[1] == value[0];
    } else {
      hide Emit, TitlesIn, MemberOk, TitleValuesOk;
      assert TitleList(t) == [] + TitleList(value);
    }
  }

  lemma {:induction false} EmitMembersTitles(members: seq<Member>, first: bool, rest: seq<Token>)
    requires forall i :: 0 <= i < |members| ==> MemberOk(members[i]) && TitleValuesOk(members[i].value)
    requires TitlesOk(rest)
    ensures TitlesOk(EmitMembers(members, first, rest))
    ensures TitleList(EmitMembers(members, first, rest)) == TitlesInMembers(members) + TitleList(rest)
    decreases members, 1
  {
    if members == [] {
      ConsTitles(Bare("}"), rest);
    } else {
      var after := EmitMembers(members[1..], false, rest);
      EmitMembersTitles(members[1..], false, rest);
      EmitMemberTitles(members[0], after);
      var keyed := [Key(Escape(members[0].name))] + Emit(members[0].value, after);
      ConsTitles(Bare(", "), keyed);
      MembersUnfold(members, first, rest);
      hide EmitMembers, Emit, TitleList, TitlesOk, TitlesIn, Escape, Answers;
      Associate(TitlesInMember(members[0]), TitlesInMembers(members[1..]), TitleList(rest));
    }
  }

  // ---------------------------------------------------------------- main results

  /** From any printed array or object whose titles are strings or null, whatever else it holds,
      the scanner takes the first ten non-empty titles in order, each as far as its first quote
      and cut to 79 characters.  A title is the value of a member named "title", or of one whose
      name ends in a quote and "title". */
  lemma DocumentRoundTrip(j: Json)
    requires Proper(j) && TitleValuesOk(j) && (j.Arr? || j.Obj?)
    ensures NUL !in PrintJson(j)
    ensures Titles(PrintJson(j), NEWS_MAX) == First(TitlesIn(j), NEWS_MAX)
  {
    DocumentWellFormed(j);
    PrintedHasNoNul(Emit(j, []));
    EmitTitles(j, []);
    ScanTokens(Emit(j, []), NEWS_MAX);
    assert TitlesIn(j) + [] == TitlesIn(j);
  }

  lemma MemberTitles(m: Member, rest: seq<Member>)
    ensures TitlesIn(Obj([m])) == TitlesInMember(m)
    ensures TitlesIn(Obj([m] + rest)) == TitlesInMember(m) + TitlesIn(Obj(rest))
  {
    assert [m][1..] == [] && ([m] + rest)[1..] == rest;
    assert TitlesInMembers([m]) == TitlesInMember(m) + TitlesInMembers([]);
  }

  /** A name that ends in a quote and "title" is taken for a title. */
  lemma MisleadingName()
    ensures Titles(PrintJson(Obj([Member("sub\"title", Str("x"))])), NEWS_MAX) == ["x"]
  {
    hide Titles, PrintJson, Answers, Span, Escape;
    var m := Member("sub\"title", Str("x"));
    AnswersMeans(m.name, TITLE);
    assert m.name[3..] == "\"" + TITLE;
    DocumentRoundTrip(Obj([m]));
    EscapeNothing("x");
    SpanIs("x", 1, "\"", "x");
    MemberTitles(m, []);
  }

  /** An article with a title or null. */
  function Article(title: Option<string>): Json {
    Obj([Member(TITLE, match title { case None => Literal("null") case Some(t) => Verbatim(t) })])
  }

  function Articles(titles: seq<Option<string>>): seq<Json> {
    seq(|titles|, i requires 0 <= i < |titles| => Article(titles[i]))
  }

  function NonEmptyCut(titles: seq<Option<string>>): seq<string> {
    if titles == [] then []
    else
      (if titles[0] == None || titles[0].value == [] then [] else [Cut(titles[0].value, 79)])
      + NonEmptyCut(titles[1..])
  }

  lemma Words()
    ensures IsWord(TITLE) && IsLiteral("null") && Answers(TITLE, TITLE)
    ensures !Answers("count", TITLE) && !Answers("titles", TITLE)
  {
    QuoteFreeAnswers(TITLE, TITLE);
    QuoteFreeAnswers("count", TITLE);
    QuoteFreeAnswers("titles", TITLE);
    assert "count"[0] != TITLE[0];
    assert |"titles"| != |TITLE|;
  }

  predicate IsTitle(title: Option<string>) {
    title.Some? ==> '"' !in title.value && NUL !in title.value
  }

  lemma ArticleTitles(title: Option<string>)
    requires IsTitle(title)
    ensures Proper(Article(title)) && TitleValuesOk(Article(title))
    ensures TitlesIn(Article(title))
         == if title == None || title.value == [] then [] else [Cut(title.value, 79)]
  {
    Words();
    var m := Article(title).members[0];
    MemberTitles(m, []);
    if title.Some? {
      SpanIs(title.value, |title.value|, "\"", title.value);
    } else {
      assert Proper(m.value) && TitlesInMember(m) == TitlesIn(Literal("null"));
    }
  }

  lemma {:induction false} ArticlesTitles(titles: seq<Option<string>>)
    requires forall i :: 0 <= i < |titles| ==> IsTitle(titles[i])
    ensures forall i :: 0 <= i < |titles| ==> Proper(Articles(titles)[i]) && TitleValuesOk(Articles(titles)[i])
    ensures TitlesInItems(Articles(titles)) == NonEmptyCut(titles)
  {
    hide TitlesIn, Article, IsTitle, Proper, TitleValuesOk, Cut;
    if titles == [] {
    } else {
      ArticlesTitles(titles[1..]);
      ArticleTitles(titles[0]);
      assert Articles(titles)[1..] == Articles(titles[1..]);
    }
  }

  /** Titles without quotes and NULs, printed as they are and mixed with nulls and empty titles,
      come back in order: the first ten that are not empty, cut to 79 characters. */
  lemma TitlesComeBack(titles: seq<Option<string>>)
    requires forall i :: 0 <= i < |titles| ==> IsTitle(titles[i])
    ensures Titles(PrintJson(Arr(Articles(titles))), NEWS_MAX) == First(NonEmptyCut(titles), 10)
  {
    ArticlesTitles(titles);
    DocumentRoundTrip(Arr(Articles(titles)));
  }

  /** The proxy's present `/news` body, a "count" and a "titles" array, shows no title at all. */
  lemma ProxyNewsShowsNothing(count: nat, titles: seq<string>)
    ensures var items := seq(|titles|, i requires 0 <= i < |titles| => Str(titles[i]));
      var body := Obj([Member("count", Literal(Decimal(count))), Member("titles", Arr(items))]);
      Titles(PrintJson(body), NEWS_MAX) == []
  {
    hide Titles, PrintJson, Answers, Decimal;
    var items := seq(|titles|, i requires 0 <= i < |titles| => Str(titles[i]));
    var members := [Member("count", Literal(Decimal(count))), Member("titles", Arr(items))];
    var body := Obj(members);
    Words();
    StringsAreProper(items);
    NewsBodyIsProper(Decimal(count), items);
    DocumentRoundTrip(body);
    StringsHoldNoTitle(items);
    MemberTitles(members[0], [members[1]]);
    MemberTitles(members[1], []);
    assert members == [members[0]] + [members[1]];
    assert TitlesInMember(members[0]) == TitlesIn(members[0].value) == [];
    assert TitlesInMember(members[1]) == TitlesIn(members[1].value) == [];
  }

  lemma StringsAreProper(items: seq<Json>)
    requires forall i :: 0 <= i < |items| ==> items[i].Str?
    ensures Proper(Arr(items)) && TitleValuesOk(Arr(items))
  {
  }

  lemma NewsBodyIsProper(count: string, items: seq<Json>)
    requires AllDigits(count) && count != [] && Proper(Arr(items)) && TitleValuesOk(Arr(items))
    ensures var body := Obj([Member("count", Literal(count)), Member("titles", Arr(items))]);
      Proper(body) && TitleValuesOk(body)
  {
    Words();
    hide Answers;
    assert Proper(Literal(count));
  }

  lemma {:induction false} StringsHoldNoTitle(items: seq<Json>)
    requires forall i :: 0 <= i < |items| ==> items[i].Str?
    ensures TitlesInItems(items) == []
  {
    if items == [] {
    } else {
      StringsHoldNoTitle(items[1..]);
    }
  }
}
