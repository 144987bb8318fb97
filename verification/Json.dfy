/** A JSON printer in the default style of Python's `json.dumps` (", " and ": " as separators,
    non-ASCII characters escaped, section 7 of RFC 8259), and the fact the firmware's scanners
    live by: the text `"name":` occurs in printed JSON only where a member of that name starts. */
module Json {
  import opened CText

  // ---------------------------------------------------------------- strings

  function HexDigit(d: int): char
    requires 0 <= d < 16
  {
    "0123456789abcdef"[d]
  }

  function HexUnit(n: int): string
    requires 0 <= n < 0x10000
  {
    ['\\', 'u', HexDigit(n / 4096), HexDigit(n / 256 % 16), HexDigit(n / 16 % 16), HexDigit(n % 16)]
  }

  predicate IsPrintable(c: char) {
    ' ' <= c <= '~'
  }

  /** The letter of a two-character escape, or NUL where there is none. */
  function ShortEscape(c: char): char {
    if c == '"' || c == '\\' then c
    else if c == '\n' then 'n'
    else if c == '\r' then 'r'
    else if c == '\t' then 't'
    else if c as int == 8 then 'b'
    else if c as int == 12 then 'f'
    else NUL
  }

  function UnicodeEscape(c: char): string {
    if c as int < 0x10000 then HexUnit(c as int)
    else
      var v := c as int - 0x10000;
      HexUnit(0xd800 + v / 0x400) + HexUnit(0xdc00 + v % 0x400)
  }

  function EscapeChar(c: char): string {
    if ShortEscape(c) != NUL then ['\\', ShortEscape(c)]
    else if IsPrintable(c) then [c]
    else UnicodeEscape(c)
  }

  function Escape(s: string): string {
    if s == [] then [] else EscapeChar(s[0]) + Escape(s[1..])
  }

  /** Every quote stands right behind a backslash. */
  predicate QuotesEscaped(e: string) {
    forall i :: 0 <= i < |e| && e[i] == '"' ==> 0 < i && e[i - 1] == '\\'
  }

  predicate AllPrintable(s: string) {
    forall i :: 0 <= i < |s| ==> IsPrintable(s[i])
  }

  lemma HexUnitSafe(n: int)
    requires 0 <= n < 0x10000
    ensures AllPrintable(HexUnit(n)) && '"' !in HexUnit(n) && HexUnit(n) != []
  {
    HexDigitSafe(n / 4096);
    HexDigitSafe(n / 256 % 16);
    HexDigitSafe(n / 16 % 16);
    HexDigitSafe(n % 16);
  }

  lemma HexDigitSafe(d: int)
    requires 0 <= d < 16
    ensures IsPrintable(HexDigit(d)) && HexDigit(d) != '"'
  {
  }

  lemma UnicodeEscapeSafe(c: char)
    ensures AllPrintable(UnicodeEscape(c)) && '"' !in UnicodeEscape(c) && UnicodeEscape(c) != []
  {
    hide HexUnit;
    var n := c as int;
    if n < 0x10000 {
      HexUnitSafe(n);
    } else {
      var hi, lo := 0xd800 + (n - 0x10000) / 0x400, 0xdc00 + (n - 0x10000) % 0x400;
      HexUnitSafe(hi);
      HexUnitSafe(lo);
      assert UnicodeEscape(c) == HexUnit(hi) + HexUnit(lo);
      TwoUnits(HexUnit(hi), HexUnit(lo));
    }
  }

  lemma TwoUnits(a: string, b: string)
    requires AllPrintable(a) && '"' !in a && AllPrintable(b) && '"' !in b
    ensures AllPrintable(a + b) && '"' !in a + b
  {
  }

  lemma EscapeCharSafe(c: char)
    ensures QuotesEscaped(EscapeChar(c)) && AllPrintable(EscapeChar(c)) && EscapeChar(c) != []
    ensures c != '"' ==> '"' !in EscapeChar(c)
  {
    if ShortEscape(c) == NUL && !IsPrintable(c) {
      UnicodeEscapeSafe(c);
      hide UnicodeEscape;
    }
  }

  lemma {:induction false} EscapeSafe(s: string)
    ensures QuotesEscaped(Escape(s)) && AllPrintable(Escape(s))
    ensures '"' !in s ==> '"' !in Escape(s)
  {
    if s == [] {
    } else {
      EscapeCharSafe(s[0]);
      EscapeSafe(s[1..]);
      var a, b := EscapeChar(s[0]), Escape(s[1..]);
      assert forall i :: |a| <= i < |a + b| ==> (a + b)[i] == b[i - |a|];
      hide EscapeChar;
    }
  }

  lemma {:induction false} EscapeAppend(s: string, c: char)
    ensures Escape(s + [c]) == Escape(s) + EscapeChar(c)
  {
    if s == [] {
      assert s + [c] == [c];
    } else {
      assert (s + [c])[1..] == s[1..] + [c];
      EscapeAppend(s[1..], c);
    }
  }

  predicate NeedsNoEscape(s: string) {
    forall i :: 0 <= i < |s| ==> IsPrintable(s[i]) && s[i] != '"' && s[i] != '\\'
  }

  lemma {:induction false} EscapeNothing(s: string)
    requires NeedsNoEscape(s)
    ensures Escape(s) == s
  {
    if s == [] {
    } else {
      EscapeNothing(s[1..]);
    }
  }

  // ---------------------------------------------------------------- documents and tokens

  /** `Verbatim` is a string as a printer leaves it that escapes neither control characters nor
      characters beyond ASCII. */
  datatype Json = Literal(text: string) | Str(content: string) | Verbatim(content: string)
                | Arr(items: seq<Json>) | Obj(members: seq<Member>)
  datatype Member = Member(name: string, value: Json)

  predicate IsString(j: Json) {
    j.Str? || j.Verbatim?
  }

  /** The characters between the quotes of a printed string. */
  function Printed(j: Json): string
    requires IsString(j)
  {
    if j.Str? then Escape(j.content) else j.content
  }

  /** Printed JSON as a stream: bare text, printed member names and printed strings. */
  datatype Token = Bare(text: string) | Key(printed: string) | Quoted(printed: string)

  predicate IsWordChar(c: char) {
    'a' <= c <= 'z' || 'A' <= c <= 'Z' || IsDigit(c) || c == '_'
  }

  predicate IsWord(s: string) {
    s != [] && forall i :: 0 <= i < |s| ==> IsWordChar(s[i])
  }

  predicate IsLiteral(s: string) {
    s != [] && forall i :: 0 <= i < |s| ==> IsWordChar(s[i]) || s[i] == '+' || s[i] == '-' || s[i] == '.'
  }

  /** Literals look like numbers, booleans or null; strings and member names are arbitrary. */
  predicate Proper(j: Json) {
    match j
    case Literal(text) => IsLiteral(text)
    case Str(_) => true
    case Verbatim(content) => '"' !in content && NUL !in content
    case Arr(items) => forall i :: 0 <= i < |items| ==> Proper(items[i])
    case Obj(members) => forall i :: 0 <= i < |members| ==> Proper(members[i].value)
  }

  /** The tokens of a document, followed by `rest`. */
  function Emit(j: Json, rest: seq<Token>): seq<Token>
    decreases j, 0
  {
    match j
    case Literal(text) => [Bare(text)] + rest
    case Str(_) => [Quoted(Printed(j))] + rest
    case Verbatim(_) => [Quoted(Printed(j))] + rest
    case Arr(items) => [Bare("[")] + EmitItems(items, true, rest)
    case Obj(members) => [Bare("{")] + EmitMembers(members, true, rest)
  }

  function Separator(first: bool): seq<Token> {
    if first then [] else [Bare(", ")]
  }

  function EmitItems(items: seq<Json>, first: bool, rest: seq<Token>): seq<Token>
    decreases items, 1
  {
    if items == [] then [Bare("]")] + rest
    else Separator(first) + Emit(items[0], EmitItems(items[1..], false, rest))
  }

  function EmitMembers(members: seq<Member>, first: bool, rest: seq<Token>): seq<Token>
    decreases members, 1
  {
    if members == [] then [Bare("}")] + rest
    else
      Separator(first) + [Key(Escape(members[0].name))]
      + Emit(members[0].value, EmitMembers(members[1..], false, rest))
  }

  function TokenText(t: Token): string {
    match t
    case Bare(text) => text
    case Key(printed) => "\"" + printed + "\": "
    case Quoted(printed) => "\"" + printed + "\""
  }

  function Print(tokens: seq<Token>): string {
    if tokens == [] then [] else TokenText(tokens[0]) + Print(tokens[1..])
  }

  lemma PrintCons(t: Token, rest: seq<Token>)
    ensures Print([t] + rest) == TokenText(t) + Print(rest)
  {
    assert ([t] + rest)[1..] == rest;
  }

  function PrintJson(j: Json): string {
    Print(Emit(j, []))
  }

  // ---------------------------------------------------------------- well-formed streams

  predicate Closes(rest: seq<Token>) {
    && rest != [] && rest[0].Bare? && rest[0].text != []
    && (rest[0].text[0] == ',' || rest[0].text[0] == '}' || rest[0].text[0] == ']')
  }

  predicate IsBare(s: string) {
    forall i :: 0 <= i < |s| ==> IsPrintable(s[i]) && s[i] != '"'
  }

  predicate TokenOk(t: Token, rest: seq<Token>) {
    match t
    case Bare(text) => IsBare(text)
    case Key(printed) => QuotesEscaped(printed) && NUL !in printed
    case Quoted(printed) => QuotesEscaped(printed) && NUL !in printed && Closes(rest)
  }

  predicate WellFormed(tokens: seq<Token>) {
    tokens == [] || (TokenOk(tokens[0], tokens[1..]) && WellFormed(tokens[1..]))
  }

  lemma WellFormedCons(t: Token, rest: seq<Token>)
    requires TokenOk(t, rest) && WellFormed(rest)
    ensures WellFormed([t] + rest)
  {
    assert ([t] + rest)[1..] == rest;
  }

  lemma {:induction false} EmitWellFormed(j: Json, rest: seq<Token>)
    requires Proper(j) && WellFormed(rest) && Closes(rest)
    ensures WellFormed(Emit(j, rest))
    decreases j, 0
  {
    match j
    case Literal(text) => WellFormedCons(Bare(text), rest);
    case Str(content) =>
      EscapeSafe(content);
      WellFormedCons(Quoted(Printed(j)), rest);
    case Verbatim(_) => WellFormedCons(Quoted(Printed(j)), rest);
    case Arr(items) =>
      EmitItemsWellFormed(items, true, rest);
      WellFormedCons(Bare("["), EmitItems(items, true, rest));
    case Obj(members) =>
      EmitMembersWellFormed(members, true, rest);
      WellFormedCons(Bare("{"), EmitMembers(members, true, rest));
  }

  lemma {:induction false} EmitItemsWellFormed(items: seq<Json>, first: bool, rest: seq<Token>)
    requires forall i :: 0 <= i < |items| ==> Proper(items[i])
    requires WellFormed(rest)
    ensures WellFormed(EmitItems(items, first, rest))
    ensures !first ==> Closes(EmitItems(items, first, rest))
    decreases items, 1
  {
    if items == [] {
      WellFormedCons(Bare("]"), rest);
    } else {
      EmitItemsWellFormed(items[1..], false, rest);
      var tail := Emit(items[0], EmitItems(items[1..], false, rest));
      EmitWellFormed(items[0], EmitItems(items[1..], false, rest));
      WellFormedCons(Bare(", "), tail);
      assert Separator(true) + tail == tail;
    }
  }

  lemma MembersUnfold(members: seq<Member>, first: bool, rest: seq<Token>)
    requires members != []
    ensures var keyed := [Key(Escape(members[0].name))]
                         + Emit(members[0].value, EmitMembers(members[1..], false, rest));
      EmitMembers(members, first, rest) == if first then keyed else [Bare(", ")] + keyed
  {
  }

  lemma {:induction false} EmitMembersWellFormed(members: seq<Member>, first: bool, rest: seq<Token>)
    requires forall i :: 0 <= i < |members| ==> Proper(members[i].value)
    requires WellFormed(rest)
    ensures WellFormed(EmitMembers(members, first, rest))
    ensures !first ==> Closes(EmitMembers(members, first, rest))
    decreases members, 1
  {
    hide Emit, Escape, Proper, WellFormed;
    if members == [] {
      WellFormedCons(Bare("}"), rest);
      assert EmitMembers(members, first, rest) == [Bare("}")] + rest;
    } else {
      var after := EmitMembers(members[1..], false, rest);
      EmitMembersWellFormed(members[1..], false, rest);
      EmitWellFormed(members[0].value, after);
      var tail := Emit(members[0].value, after);
      var key := Key(Escape(members[0].name));
      EscapeSafe(members[0].name);
      WellFormedCons(key, tail);
      WellFormedCons(Bare(", "), [key] + tail);
      MembersUnfold(members, first, rest);
    }
  }

  /** An array or object prints to a well-formed stream. */
  lemma DocumentWellFormed(j: Json)
    requires Proper(j) && (j.Arr? || j.Obj?)
    ensures WellFormed(Emit(j, []))
  {
    if j.Arr? {
      EmitItemsWellFormed(j.items, true, []);
      WellFormedCons(Bare("["), EmitItems(j.items, true, []));
    } else {
      EmitMembersWellFormed(j.members, true, []);
      WellFormedCons(Bare("{"), EmitMembers(j.members, true, []));
    }
  }

  /** Printed JSON is C text. */
  lemma {:induction false} PrintedHasNoNul(tokens: seq<Token>)
    requires WellFormed(tokens)
    ensures NUL !in Print(tokens)
  {
    if tokens == [] {
    } else {
      PrintedHasNoNul(tokens[1..]);
      assert NUL !in TokenText(tokens[0]);
    }
  }

  // ---------------------------------------------------------------- no false match

  /** What the scanners search for. */
  function Pattern(name: string): string {
    "\"" + name + "\":"
  }

  /** A match, spelled out character by character. */
  lemma MatchSpelled(s: string, name: string, p: nat)
    requires MatchAt(s, Pattern(name), p)
    ensures p + |name| + 2 < |s|
    ensures s[p] == '"' && s[p + 1 + |name|] == '"' && s[p + 2 + |name|] == ':'
    ensures forall i :: p + 1 <= i < p + 1 + |name| ==> s[i] == name[i - p - 1]
    ensures name != [] ==> s[p + 1] == name[0] && s[p + |name|] == name[|name| - 1]
  {
    var m := s[p..p + |Pattern(name)|];
    assert m == Pattern(name);
    assert forall i :: 0 <= i < |m| ==> m[i] == s[p + i];
  }

  lemma NoMatchInBare(text: string, rest: string, name: string, p: nat)
    requires IsBare(text) && p < |text|
    ensures !MatchAt(text + rest, Pattern(name), p)
  {
    var s := text + rest;
    assert s[p] == text[p];
    if MatchAt(s, Pattern(name), p) {
      MatchSpelled(s, name, p);
    }
  }

  /** A member name e for which `"name":` is found: name itself, or a text that ends in a quote
      and name. */
  predicate Answers(e: string, name: string) {
    |name| <= |e| && ("\"" + e)[|e| - |name|..] == "\"" + name
  }

  /** In a printed member name the pattern can only match at its end. */
  lemma MatchEndsKey(e: string, rest: string, name: string, p: nat)
    requires QuotesEscaped(e) && IsWord(name) && p < |e| + 4
    requires MatchAt(TokenText(Key(e)) + rest, Pattern(name), p)
    ensures p == |e| - |name|
  {
    var s := TokenText(Key(e)) + rest;
    var end := |e| + 1;
    assert s[end] == '"' && s[end + 1] == ':' && s[end + 2] == ' ';
    assert forall i :: 1 <= i < end ==> s[i] == e[i - 1];
    assert forall i :: 1 <= i < end && s[i] == '"' ==> s[i - 1] == '\\';
    assert IsWordChar(name[0]) && IsWordChar(name[|name| - 1]);
    hide MatchAt, Pattern, TokenText, QuotesEscaped;
    MatchSpelled(s, name, p);
  }

  lemma SameEnd(a: string, b: string, c: string)
    ensures a + c == b + c <==> a == b
  {
    if a + c == b + c {
      assert (a + c)[..|a|] == a && (b + c)[..|a|] == b;
    }
  }

  lemma SuffixMatch(a: string, b: string, c: string, d: string)
    requires |d| <= |a|
    ensures MatchAt(a + b + c, d + b, |a| - |d|) <==> a[|a| - |d|..] == d
  {
    var p := |a| - |d|;
    assert (a + b + c)[p..|a| + |b|] == a[p..] + b;
    SameEnd(a[p..], d, b);
  }

  lemma KeyParts(e: string, rest: string)
    ensures TokenText(Key(e)) + rest == "\"" + e + "\":" + (" " + rest)
  {
    assert "\": " == "\":" + " ";
  }

  lemma MatchAtKeyEnd(e: string, rest: string, name: string)
    requires |name| <= |e|
    ensures MatchAt(TokenText(Key(e)) + rest, Pattern(name), |e| - |name|) <==> Answers(e, name)
  {
    hide MatchAt, TokenText;
    KeyParts(e, rest);
    SuffixMatch("\"" + e, "\":", " " + rest, "\"" + name);
  }

  /** In a printed member name the pattern matches exactly when the name answers, at its end. */
  lemma MatchInKey(e: string, rest: string, name: string, p: nat)
    requires QuotesEscaped(e) && IsWord(name) && p < |e| + 4
    ensures MatchAt(TokenText(Key(e)) + rest, Pattern(name), p) <==> Answers(e, name) && p == |e| - |name|
  {
    hide MatchAt, Pattern, TokenText, QuotesEscaped, IsWord, Answers;
    if MatchAt(TokenText(Key(e)) + rest, Pattern(name), p) {
      MatchEndsKey(e, rest, name, p);
    }
    if p == |e| - |name| {
      MatchAtKeyEnd(e, rest, name);
    }
  }

  lemma NoMatchInQuotes(e: string, rest: string, name: string, p: nat)
    requires QuotesEscaped(e) && IsWord(name) && p < |e| + 2
    requires rest != [] && (rest[0] == ',' || rest[0] == '}' || rest[0] == ']')
    ensures !MatchAt("\"" + e + "\"" + rest, Pattern(name), p)
  {
    var s := "\"" + e + "\"" + rest;
    var end, q := |e| + 1, p + 1 + |name|;
    assert s[end] == '"' && s[end + 1] == rest[0];
    assert forall i :: 1 <= i < end ==> s[i] == e[i - 1];
    assert forall i :: 1 <= i < end && s[i] == '"' ==> s[i - 1] == '\\';
    assert IsWordChar(name[0]) && IsWordChar(name[|name| - 1]);
    if MatchAt(s, Pattern(name), p) {
      MatchSpelled(s, name, p);
    }
  }

  predicate KeyFor(t: Token, name: string) {
    t.Key? && Answers(t.printed, name)
  }

  /** In a printed stream `"name":` matches inside the first token only if that token is a member
      name that answers, and then in one place. */
  lemma MatchInFirstToken(tokens: seq<Token>, name: string, p: nat)
    requires WellFormed(tokens) && tokens != [] && IsWord(name)
    requires p < |TokenText(tokens[0])|
    ensures MatchAt(Print(tokens), Pattern(name), p)
            <==> KeyFor(tokens[0], name) && p == |tokens[0].printed| - |name|
  {
    var rest := Print(tokens[1..]);
    match tokens[0]
    case Bare(text) => NoMatchInBare(text, rest, name, p);
    case Key(printed) => MatchInKey(printed, rest, name, p);
    case Quoted(printed) =>
      assert rest[0] == tokens[1..][0].text[0];
      NoMatchInQuotes(printed, rest, name, p);
  }

  /** The tokens behind the first member of that name. */
  function AfterKey(tokens: seq<Token>, name: string): Option<seq<Token>> {
    if tokens == [] then None
    else if KeyFor(tokens[0], name) then Some(tokens[1..])
    else AfterKey(tokens[1..], name)
  }

  lemma AnswersFit(e: string, name: string)
    requires Answers(e, name)
    ensures |name| <= |e|
  {
  }

  lemma PrintKey(tokens: seq<Token>)
    requires tokens != [] && tokens[0].Key?
    ensures Print(tokens) == "\"" + tokens[0].printed + "\":" + (" " + Print(tokens[1..]))
  {
    KeyParts(tokens[0].printed, Print(tokens[1..]));
  }

  lemma FindAtKey(tokens: seq<Token>, name: string)
    requires WellFormed(tokens) && IsWord(name) && tokens != [] && KeyFor(tokens[0], name)
    ensures var r, n := Find(Print(tokens), Pattern(name)), |Pattern(name)|;
      r.Some? && r.value + n <= |Print(tokens)| && Print(tokens)[r.value + n..] == " " + Print(tokens[1..])
  {
    hide MatchAt, Find, TokenOk, IsWord, WellFormed, Answers, Print;
    var e := tokens[0].printed;
    var p, s := |e| - |name|, Print(tokens);
    AnswersFit(e, name);
    assert s == "\"" + e + "\":" + (" " + Print(tokens[1..])) by { PrintKey(tokens); }
    forall q | 0 <= q <= p
      ensures MatchAt(s, Pattern(name), q) <==> q == p
    {
      MatchInFirstToken(tokens, name, q);
    }
    FindIs(s, Pattern(name), p);
  }

  /** No search starts an occurrence inside a token that is not such a member name. */
  lemma FindPastToken(tokens: seq<Token>, name: string)
    requires WellFormed(tokens) && IsWord(name) && tokens != [] && !KeyFor(tokens[0], name)
    ensures var n := |TokenText(tokens[0])|;
      && n <= |Print(tokens)| && Print(tokens)[n..] == Print(tokens[1..])
      && (forall p :: 0 <= p < n ==> !MatchAt(Print(tokens), Pattern(name), p))
      && Find(Print(tokens), Pattern(name))
         == match Find(Print(tokens[1..]), Pattern(name)) { case None => None case Some(r) => Some(r + n) }
  {
    hide MatchAt, TokenText, Find, Pattern, TokenOk, IsWord;
    var s, n := Print(tokens), |TokenText(tokens[0])|;
    assert s[n..] == Print(tokens[1..]);
    forall p | 0 <= p < n
      ensures !MatchAt(s, Pattern(name), p)
    {
      MatchInFirstToken(tokens, name, p);
    }
    FindSkips(s, Pattern(name), n);
  }

  /** `strstr` for `"name":` in printed JSON finds the first member whose name answers, or nothing
      when there is none, whatever the strings of the document contain. */
  lemma {:induction false} FindFindsMember(tokens: seq<Token>, name: string)
    requires WellFormed(tokens) && IsWord(name)
    ensures var r := Find(Print(tokens), Pattern(name));
      match AfterKey(tokens, name)
      case None => r.None?
      case Some(after) => r.Some? && Print(tokens)[r.value + |Pattern(name)|..] == " " + Print(after)
  {
    hide Pattern, TokenText, MatchAt, Find, TokenOk, IsWord;
    if tokens == [] {
      NothingInNothing(name);
    } else if KeyFor(tokens[0], name) {
      FindAtKey(tokens, name);
    } else {
      FindFindsMember(tokens[1..], name);
      FindPastToken(tokens, name);
      var s, n := Print(tokens), |TokenText(tokens[0])|;
      var r := Find(s[n..], Pattern(name));
      if r.Some? {
        FoundFits(s[n..], Pattern(name));
        assert s[n..][r.value + |Pattern(name)|..] == s[n + r.value + |Pattern(name)|..];
      }
    }
  }

  lemma NothingInNothing(name: string)
    ensures Find([], Pattern(name)) == None
  {
  }

  lemma FoundFits(s: string, pattern: string)
    requires Find(s, pattern).Some?
    ensures Find(s, pattern).value + |pattern| <= |s|
  {
  }

  // ---------------------------------------------------------------- names and their printed form

  lemma AnswersMeans(e: string, name: string)
    ensures Answers(e, name)
            <==> e == name || (|name| < |e| && e[|e| - |name| - 1..] == "\"" + name)
  {
    if |name| < |e| {
      assert ("\"" + e)[|e| - |name|..] == e[|e| - |name| - 1..];
    } else if |name| == |e| {
      assert ("\"" + e)[0..] == "\"" + e;
      assert e == name ==> "\"" + e == "\"" + name;
      assert "\"" + e == "\"" + name ==> e == ("\"" + e)[1..] == ("\"" + name)[1..] == name;
    }
  }

  /** A name without quotes answers only for itself. */
  lemma QuoteFreeAnswers(e: string, name: string)
    requires '"' !in e
    ensures Answers(e, name) <==> e == name
  {
    AnswersMeans(e, name);
    if |name| < |e| {
      assert e[|e| - |name| - 1..][0] == e[|e| - |name| - 1];
    }
  }

  lemma AnswersSpelled(e: string, name: string)
    requires Answers(e, name)
    ensures forall i :: |e| - |name| <= i < |e| ==> e[i] == name[i - (|e| - |name|)]
    ensures |name| < |e| ==> e[|e| - |name| - 1] == '"'
  {
    var k := |e| - |name|;
    var t := ("\"" + e)[k..];
    assert forall i :: k <= i < |e| ==> e[i] == t[i + 1 - k];
    assert 0 < k ==> e[k - 1] == t[0];
  }

  lemma AnswersNothing(e: string)
    ensures Answers(e, []) <==> e == [] || e[|e| - 1] == '"'
  {
    AnswersMeans(e, []);
    if e != [] {
      assert e[|e| - 1..] == [e[|e| - 1]];
      assert "\"" + [] == "\"";
    }
  }

  lemma SameLast(a: string, b: string, c: char, d: char)
    ensures a + [c] == b + [d] <==> a == b && c == d
  {
    assert (a + [c])[..|a|] == a && (b + [d])[..|b|] == b;
    assert (a + [c])[|a|] == c && (b + [d])[|b|] == d;
  }

  lemma SuffixLast(e: string, k: nat)
    requires k < |e|
    ensures ("\"" + e)[k..] == ("\"" + e[..|e| - 1])[k..] + [e[|e| - 1]]
  {
    assert "\"" + e == "\"" + e[..|e| - 1] + [e[|e| - 1]];
  }

  lemma AnswersStep(e: string, name: string)
    requires name != []
    ensures Answers(e, name)
            <==> e != [] && e[|e| - 1] == name[|name| - 1] && Answers(e[..|e| - 1], name[..|name| - 1])
  {
    if |name| <= |e| {
      var k, c, d := |e| - |name|, e[|e| - 1], name[|name| - 1];
      SuffixLast(e, k);
      assert "\"" + name == "\"" + name[..|name| - 1] + [d];
      SameLast(("\"" + e[..|e| - 1])[k..], "\"" + name[..|name| - 1], c, d);
    }
  }

  /** A character is printed as itself or as an escape, which begins with a backslash and holds a
      quote only at its end. */
  lemma EscapeUnit(c: char)
    ensures var u := EscapeChar(c);
      && u != [] && (u[|u| - 1] == '"' <==> c == '"')
      && (u == [c] || ( && !IsWordChar(c) && 2 <= |u| && u[0] == '\\'
                        && forall i :: 0 <= i < |u| - 1 ==> u[i] != '"'))
  {
    if ShortEscape(c) == NUL && !IsPrintable(c) {
      UnicodeEscapeSafe(c);
      var u := UnicodeEscape(c);
      assert 2 <= |u| && u[0] == '\\' && u[|u| - 1] in u;
    }
  }

  lemma EscapeAtEnd(e: string, u: string, name: string)
    requires forall i :: 0 <= i < |name| ==> IsWordChar(name[i])
    requires name != [] && 2 <= |u| && u[0] == '\\' && forall i :: 0 <= i < |u| - 1 ==> u[i] != '"'
    ensures !Answers(e + u, name)
  {
    var t := e + u;
    assert forall i :: |e| <= i < |t| ==> t[i] == u[i - |e|];
    assert t[|e|] == '\\' && !IsWordChar(t[|e|]);
    if Answers(t, name) {
      AnswersSpelled(t, name);
    }
  }

  /** Escaping neither makes nor breaks an answer: what is searched for in the printed form is
      decided by the name. */
  lemma {:induction false} EscapeAnswers(e: string, name: string)
    requires forall i :: 0 <= i < |name| ==> IsWordChar(name[i])
    ensures Answers(Escape(e), name) <==> Answers(e, name)
    decreases |name|
  {
    hide EscapeChar, IsWordChar, Answers;
    if name == [] {
      AnswersNothing(e);
      AnswersNothing(Escape(e));
    } else {
      AnswersStep(e, name);
      AnswersStep(Escape(e), name);
    }
    if e != [] {
      var front, c := e[..|e| - 1], e[|e| - 1];
      assert e == front + [c];
      EscapeAppend(front, c);
      EscapeUnit(c);
      if name != [] {
        if EscapeChar(c) == [c] {
          assert Escape(e)[..|Escape(e)| - 1] == Escape(front);
          EscapeAnswers(front, name[..|name| - 1]);
        } else {
          EscapeAtEnd(Escape(front), EscapeChar(c), name);
        }
      }
    }
  }
}
