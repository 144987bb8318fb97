/** A reader for JSON texts, written from the grammar of RFC 8259, as the judge of the printer:
    what `Json` prints is JSON, and it reads back to the document it was printed from. */
module JsonReader {
  import opened CText
  import opened Json

  // ---------------------------------------------------------------- characters

  function HexValue(c: char): int {
    if '0' <= c <= '9' then c as int - '0' as int
    else if 'a' <= c <= 'f' then c as int - 'a' as int + 10
    else if 'A' <= c <= 'F' then c as int - 'A' as int + 10
    else -1
  }

  /** Four hex digits, the most significant first. */
  function HexFour(s: string): Option<int> {
    if |s| < 4 || exists i :: 0 <= i < 4 && HexValue(s[i]) < 0 then None
    else Some(HexValue(s[0]) * 4096 + HexValue(s[1]) * 256 + HexValue(s[2]) * 16 + HexValue(s[3]))
  }

  /** The character of a two-character escape. */
  function ShortUnescape(c: char): Option<char> {
    match c
    case '"' => Some('"')
    case '\\' => Some('\\')
    case '/' => Some('/')
    case 'b' => Some(8 as char)
    case 'f' => Some(12 as char)
    case 'n' => Some(10 as char)
    case 'r' => Some(13 as char)
    case 't' => Some(9 as char)
    case _ => None
  }

  /** The first character of the inside of a JSON string and the number of characters it takes there,
      by section 7 of RFC 8259. */
  function ReadChar(s: string): Option<(char, nat)>
    requires s != []
  {
    if s[0] == '"' || s[0] < ' ' then None
    else if s[0] != '\\' then Some((s[0], 1))
    else if |s| < 2 then None
    else if s[1] != 'u' then
      match ShortUnescape(s[1]) case None => None case Some(c) => Some((c, 2))
    else
      match HexFour(s[2..])
      case None => None
      case Some(n) =>
        if n < 0xd800 || 0xdfff < n then Some((n as char, 6))
        else if 0xdbff < n || |s| < 12 || s[6] != '\\' || s[7] != 'u' then None
        else
          match HexFour(s[8..])
          case None => None
          case Some(m) =>
            if m < 0xdc00 || 0xdfff < m then None
            else Some(((0x10000 + (n - 0xd800) * 0x400 + (m - 0xdc00)) as char, 12))
  }

  lemma HexReadsBack(n: int, rest: string)
    requires 0 <= n < 0x10000
    ensures HexFour(HexUnit(n)[2..] + rest) == Some(n)
  {
    hide HexValue, HexDigit;
    var t := HexUnit(n)[2..] + rest;
    HexDigitReads(n / 4096);
    HexDigitReads(n / 256 % 16);
    HexDigitReads(n / 16 % 16);
    HexDigitReads(n % 16);
    assert t[0] == HexDigit(n / 4096) && t[1] == HexDigit(n / 256 % 16);
    assert t[2] == HexDigit(n / 16 % 16) && t[3] == HexDigit(n % 16);
    HexPlaces(n);
  }

  lemma HexDigitReads(d: int)
    requires 0 <= d < 16
    ensures HexValue(HexDigit(d)) == d
  {
  }

  lemma HexPlaces(n: int)
    requires 0 <= n < 0x10000
    ensures n == n / 4096 * 4096 + n / 256 % 16 * 256 + n / 16 % 16 * 16 + n % 16
  {
    assert n / 256 == n / 16 / 16 && n / 4096 == n / 256 / 16;
  }

  lemma HexUnitFrame(n: int)
    requires 0 <= n < 0x10000
    ensures |HexUnit(n)| == 6 && HexUnit(n)[0] == '\\' && HexUnit(n)[1] == 'u'
  {
  }

  lemma ReadEscapedUnit(c: char, rest: string)
    requires c as int < 0x10000 && ShortEscape(c) == NUL && !IsPrintable(c)
    ensures ReadChar(HexUnit(c as int) + rest) == Some((c, 6))
  {
    hide HexFour, HexUnit;
    var u := HexUnit(c as int);
    HexUnitFrame(c as int);
    assert (u + rest)[2..] == u[2..] + rest;
    HexReadsBack(c as int, rest);
  }

  lemma TwoSixes(u: string, w: string, rest: string)
    requires |u| == |w| == 6
    ensures var s := u + w + rest;
      && s[2..] == u[2..] + (w + rest) && s[8..] == w[2..] + rest
      && s[0] == u[0] && s[1] == u[1] && s[6] == w[0] && s[7] == w[1]
  {
  }

  lemma ReadPair(s: string, hi: int, lo: int)
    requires 0xd800 <= hi < 0xdc00 <= lo < 0xe000 && |s| >= 12
    requires s[0] == '\\' && s[1] == 'u' && s[6] == '\\' && s[7] == 'u'
    requires HexFour(s[2..]) == Some(hi) && HexFour(s[8..]) == Some(lo)
    ensures ReadChar(s) == Some(((0x10000 + (hi - 0xd800) * 0x400 + (lo - 0xdc00)) as char, 12))
  {
    hide HexFour;
  }

  lemma ReadEscapedPair(hi: int, lo: int, rest: string)
    requires 0xd800 <= hi < 0xdc00 <= lo < 0xe000
    ensures ReadChar(HexUnit(hi) + HexUnit(lo) + rest)
         == Some(((0x10000 + (hi - 0xd800) * 0x400 + (lo - 0xdc00)) as char, 12))
  {
    hide HexFour, HexUnit, ReadChar;
    var u, w := HexUnit(hi), HexUnit(lo);
    HexUnitFrame(hi);
    HexUnitFrame(lo);
    TwoSixes(u, w, rest);
    HexReadsBack(hi, w + rest);
    HexReadsBack(lo, rest);
    ReadPair(u + w + rest, hi, lo);
  }

  lemma ReadShort(c: char, rest: string)
    requires ShortEscape(c) != NUL
    ensures ReadChar(['\\', ShortEscape(c)] + rest) == Some((c, 2))
  {
    hide HexFour;
    var s := ['\\', ShortEscape(c)] + rest;
    assert s[0] == '\\' && s[1] == ShortEscape(c);
  }

  lemma ReadPlain(c: char, rest: string)
    requires ShortEscape(c) == NUL && IsPrintable(c)
    ensures ReadChar([c] + rest) == Some((c, 1))
  {
    assert ([c] + rest)[0] == c;
  }

  /** One printed character reads back, whatever follows it. */
  lemma ReadEscaped(c: char, rest: string)
    ensures ReadChar(EscapeChar(c) + rest) == Some((c, |EscapeChar(c)|))
  {
    hide ReadChar, HexUnit, ShortEscape;
    if ShortEscape(c) != NUL {
      ReadShort(c, rest);
    } else if IsPrintable(c) {
      ReadPlain(c, rest);
    } else if c as int < 0x10000 {
      ReadEscapedUnit(c, rest);
      HexUnitFrame(c as int);
    } else {
      var v := c as int - 0x10000;
      HexUnitFrame(0xd800 + v / 0x400);
      HexUnitFrame(0xdc00 + v % 0x400);
      ReadEscapedPair(0xd800 + v / 0x400, 0xdc00 + v % 0x400, rest);
    }
  }

  // ---------------------------------------------------------------- texts

  /** Insignificant whitespace, section 2. */
  function SkipWhite(s: string): (r: string)
    ensures |r| <= |s|
  {
    if s != [] && (s[0] == ' ' || s[0] == '\t' || s[0] == '\n' || s[0] == '\r') then SkipWhite(s[1..]) else s
  }

  predicate IsLiteralChar(c: char) {
    IsWordChar(c) || c == '+' || c == '-' || c == '.'
  }

  function LiteralLength(s: string): (n: nat)
    ensures n <= |s|
  {
    if s != [] && IsLiteralChar(s[0]) then 1 + LiteralLength(s[1..]) else 0
  }

  /** A string behind its opening quote, section 7, and the text behind its closing quote. */
  function ReadString(s: string): (r: Option<(string, string)>)
    ensures r.Some? ==> |r.value.1| < |s|
  {
    if s == [] then None
    else if s[0] == '"' then Some(([], s[1..]))
    else
      match ReadChar(s)
      case None => None
      case Some((c, n)) =>
        if n == 0 || |s| < n then None
        else
          match ReadString(s[n..]) case None => None case Some((text, rest)) => Some(([c] + text, rest))
  }

  /** A value, section 3, and the text behind it. */
  function ReadValue(s: string): (r: Option<(Json, string)>)
    ensures r.Some? ==> |r.value.1| < |s|
    decreases |s|, 0
  {
    var t := SkipWhite(s);
    if t == [] then None
    else if t[0] == '"' then
      match ReadString(t[1..]) case None => None case Some((text, rest)) => Some((Str(text), rest))
    else if t[0] == '[' then
      var u := SkipWhite(t[1..]);
      if u != [] && u[0] == ']' then Some((Arr([]), u[1..]))
      else match ReadItems(t[1..]) case None => None case Some((items, rest)) => Some((Arr(items), rest))
    else if t[0] == '{' then
      var u := SkipWhite(t[1..]);
      if u != [] && u[0] == '}' then Some((Obj([]), u[1..]))
      else match ReadMembers(t[1..]) case None => None case Some((members, rest)) => Some((Obj(members), rest))
    else
      var n := LiteralLength(t);
      if n == 0 then None else Some((Literal(t[..n]), t[n..]))
  }

  /** The elements of an array up to its bracket, section 5. */
  function ReadItems(s: string): (r: Option<(seq<Json>, string)>)
    ensures r.Some? ==> |r.value.1| < |s|
    decreases |s|, 1
  {
    match ReadValue(s)
    case None => None
    case Some((item, after)) =>
      var t := SkipWhite(after);
      if t != [] && t[0] == ']' then Some(([item], t[1..]))
      else if t != [] && t[0] == ',' then
        match ReadItems(t[1..]) case None => None case Some((items, rest)) => Some(([item] + items, rest))
      else None
  }

  /** A member: its name, a colon and its value, section 4. */
  function ReadMember(s: string): (r: Option<(Member, string)>)
    ensures r.Some? ==> |r.value.1| < |s|
    decreases |s|, 1
  {
    var t := SkipWhite(s);
    if t == [] || t[0] != '"' then None
    else
      match ReadString(t[1..])
      case None => None
      case Some((name, behind)) =>
        var u := SkipWhite(behind);
        if u == [] || u[0] != ':' then None
        else match ReadValue(u[1..]) case None => None case Some((value, rest)) => Some((Member(name, value), rest))
  }

  /** The members of an object up to its brace, section 4. */
  function ReadMembers(s: string): (r: Option<(seq<Member>, string)>)
    ensures r.Some? ==> |r.value.1| < |s|
    decreases |s|, 2
  {
    match ReadMember(s)
    case None => None
    case Some((member, after)) =>
      var t := SkipWhite(after);
      if t != [] && t[0] == '}' then Some(([member], t[1..]))
      else if t != [] && t[0] == ',' then
        match ReadMembers(t[1..]) case None => None case Some((members, rest)) => Some(([member] + members, rest))
      else None
  }

  /** A whole text is one value with whitespace around it, section 2. */
  function ReadJson(s: string): Option<Json> {
    match ReadValue(s)
    case None => None
    case Some((j, rest)) => if SkipWhite(rest) == [] then Some(j) else None
  }

  // ---------------------------------------------------------------- the printer's documents

  /** Documents as `json.dumps` prints them: every string escaped. */
  predicate Dumped(j: Json) {
    match j
    case Literal(text) => IsLiteral(text)
    case Str(_) => true
    case Verbatim(_) => false
    case Arr(items) => forall i :: 0 <= i < |items| ==> Dumped(items[i])
    case Obj(members) => forall i :: 0 <= i < |members| ==> Dumped(members[i].value)
  }

  /** No blank, or the one that the printer puts in front. */
  predicate Lead(w: string) {
    w == "" || w == " "
  }

  predicate IsWhite(c: char) {
    c == ' ' || c == '\t' || c == '\n' || c == '\r'
  }

  lemma SkipLead(w: string, t: string)
    requires Lead(w) && (t == [] || !IsWhite(t[0]))
    ensures SkipWhite(w + t) == t
  {
    if w == " " {
      assert (w + t)[1..] == t;
    } else {
      assert w + t == t;
    }
  }

  /** Every string reads back from its printed form. */
  lemma {:induction false} StringReadsBack(text: string, rest: string)
    ensures ReadString(Escape(text) + "\"" + rest) == Some((text, rest))
  {
    hide EscapeChar, ReadChar;
    var s := Escape(text) + "\"" + rest;
    if text == [] {
      assert s == "\"" + rest;
    } else {
      var u, more := EscapeChar(text[0]), Escape(text[1..]) + "\"" + rest;
      assert s == u + more;
      StringReadsBack(text[1..], rest);
      ReadEscaped(text[0], more);
      EscapeUnit(text[0]);
      NoQuoteFirst(text[0], more);
      assert s[|u|..] == more;
      assert text == [text[0]] + text[1..];
    }
  }

  lemma NoQuoteFirst(c: char, more: string)
    ensures (EscapeChar(c) + more)[0] != '"'
  {
    ReadEscaped(c, more);
  }

  lemma {:induction false} LiteralReadsBack(text: string, rest: string)
    requires forall i :: 0 <= i < |text| ==> IsLiteralChar(text[i])
    requires rest == [] || !IsLiteralChar(rest[0])
    ensures LiteralLength(text + rest) == |text|
  {
    if text == [] {
      assert text + rest == rest;
    } else {
      assert (text + rest)[1..] == text[1..] + rest;
      LiteralReadsBack(text[1..], rest);
    }
  }

  /** What may follow a printed value: nothing, a comma or a closing bracket. */
  predicate Ends(tail: string) {
    tail == [] || tail[0] == ',' || tail[0] == ']' || tail[0] == '}'
  }

  lemma ReadsString(w: string, text: string, tail: string)
    requires Lead(w)
    ensures ReadValue(w + ("\"" + Escape(text) + "\"" + tail)) == Some((Str(text), tail))
  {
    hide Escape, ReadString, SkipWhite;
    var t := "\"" + Escape(text) + "\"" + tail;
    SkipLead(w, t);
    assert t[1..] == Escape(text) + "\"" + tail;
    StringReadsBack(text, tail);
  }

  lemma ReadsLiteral(w: string, text: string, tail: string)
    requires Lead(w) && IsLiteral(text) && Ends(tail)
    ensures ReadValue(w + (text + tail)) == Some((Literal(text), tail))
  {
    var t := text + tail;
    assert IsLiteralChar(text[0]) && t[0] == text[0];
    SkipLead(w, t);
    LiteralReadsBack(text, tail);
    assert t[..|text|] == text && t[|text|..] == tail;
  }

  lemma ReadsArray(w: string, inside: string)
    requires Lead(w)
    ensures ReadValue(w + ("[" + inside))
         == if SkipWhite(inside) != [] && SkipWhite(inside)[0] == ']' then Some((Arr([]), SkipWhite(inside)[1..]))
            else match ReadItems(inside) case None => None case Some((items, rest)) => Some((Arr(items), rest))
  {
    SkipLead(w, "[" + inside);
    assert ("[" + inside)[1..] == inside;
  }

  lemma ReadsObject(w: string, inside: string)
    requires Lead(w)
    ensures ReadValue(w + ("{" + inside))
         == if SkipWhite(inside) != [] && SkipWhite(inside)[0] == '}' then Some((Obj([]), SkipWhite(inside)[1..]))
            else match ReadMembers(inside) case None => None case Some((members, rest)) => Some((Obj(members), rest))
  {
    SkipLead(w, "{" + inside);
    assert ("{" + inside)[1..] == inside;
  }

  /** How the printed value begins, so that it is not taken for an end. */
  lemma FirstChar(j: Json, rest: seq<Token>)
    requires Dumped(j)
    ensures var t := Print(Emit(j, rest));
      t != [] && !IsWhite(t[0]) && t[0] != ']' && t[0] != '}'
  {
    var tokens := Emit(j, rest);
    assert Print(tokens) == TokenText(tokens[0]) + Print(tokens[1..]);
    if j.Literal? {
      assert IsLiteralChar(j.text[0]);
    }
  }

  lemma {:induction false} ValueReadsBack(w: string, j: Json, rest: seq<Token>)
    requires Lead(w) && Dumped(j) && Ends(Print(rest))
    ensures ReadValue(w + Print(Emit(j, rest))) == Some((j, Print(rest)))
    decreases j, 0
  {
    hide ReadValue, ReadItems, ReadMembers, Print, Ends;
    match j
    case Literal(text) =>
      PrintCons(Bare(text), rest);
      ReadsLiteral(w, text, Print(rest));
    case Str(text) =>
      PrintCons(Quoted(Escape(text)), rest);
      ReadsString(w, text, Print(rest));
    case Arr(items) =>
      var inside := EmitItems(items, true, rest);
      PrintCons(Bare("["), inside);
      ReadsArray(w, Print(inside));
      if items == [] {
        PrintCons(Bare("]"), rest);
        SkipLead("", "]" + Print(rest));
        assert "" + ("]" + Print(rest)) == "]" + Print(rest);
      } else {
        var first := Emit(items[0], EmitItems(items[1..], false, rest));
        assert inside == first;
        FirstChar(items[0], EmitItems(items[1..], false, rest));
        SkipLead("", Print(first));
        ItemsReadBack("", items, rest);
        assert "" + Print(first) == Print(first);
      }
    case Obj(members) =>
      var inside := EmitMembers(members, true, rest);
      PrintCons(Bare("{"), inside);
      ReadsObject(w, Print(inside));
      if members == [] {
        PrintCons(Bare("}"), rest);
        SkipLead("", "}" + Print(rest));
        assert "" + ("}" + Print(rest)) == "}" + Print(rest);
      } else {
        MembersUnfold(members, true, rest);
        PrintCons(Key(Escape(members[0].name)),
                  Emit(members[0].value, EmitMembers(members[1..], false, rest)));
        SkipLead("", Print(inside));
        MembersReadBack("", members, rest);
        assert "" + Print(inside) == Print(inside);
      }
  }

  lemma CommaBlank(t: string)
    ensures TokenText(Bare(", ")) + t == "," + (" " + t)
  {
  }

  lemma ItemsUnfold(items: seq<Json>, rest: seq<Token>)
    requires items != []
    ensures EmitItems(items, false, rest) == [Bare(", ")] + Emit(items[0], EmitItems(items[1..], false, rest))
  {
  }

  /** How the rest of an array is printed. */
  lemma ItemsTail(items: seq<Json>, rest: seq<Token>)
    ensures Print(EmitItems(items, false, rest))
         == if items == [] then "]" + Print(rest)
            else "," + (" " + Print(Emit(items[0], EmitItems(items[1..], false, rest))))
  {
    hide Print, Emit;
    if items == [] {
      PrintCons(Bare("]"), rest);
    } else {
      hide EmitItems, TokenText;
      var value := Emit(items[0], EmitItems(items[1..], false, rest));
      ItemsUnfold(items, rest);
      PrintCons(Bare(", "), value);
      CommaBlank(Print(value));
    }
  }

  lemma ReadsItem(s: string, item: Json, tail: string)
    requires ReadValue(s) == Some((item, tail)) && tail != []
    ensures tail[0] == ']' ==> ReadItems(s) == Some(([item], tail[1..]))
    ensures tail[0] == ',' && ReadItems(tail[1..]).Some? ==>
      ReadItems(s) == Some(([item] + ReadItems(tail[1..]).value.0, ReadItems(tail[1..]).value.1))
  {
  }

  lemma {:induction false} ItemsReadBack(w: string, items: seq<Json>, rest: seq<Token>)
    requires Lead(w) && items != [] && forall i :: 0 <= i < |items| ==> Dumped(items[i])
    ensures ReadItems(w + Print(Emit(items[0], EmitItems(items[1..], false, rest)))) == Some((items, Print(rest)))
    decreases items, 1
  {
    hide ReadValue, ReadItems, Print;
    var more := items[1..];
    var after := EmitItems(more, false, rest);
    ItemsTail(more, rest);
    ValueReadsBack(w, items[0], after);
    ReadsItem(w + Print(Emit(items[0], after)), items[0], Print(after));
    if more == [] {
      assert items == [items[0]];
      assert ("]" + Print(rest))[1..] == Print(rest);
    } else {
      var next := " " + Print(Emit(more[0], EmitItems(more[1..], false, rest)));
      ItemsReadBack(" ", more, rest);
      assert Print(after)[1..] == next;
      assert items == [items[0]] + more;
    }
  }

  lemma MembersTail(members: seq<Member>, rest: seq<Token>)
    ensures Print(EmitMembers(members, false, rest))
         == if members == [] then "}" + Print(rest)
            else "," + (" " + Print(EmitMembers(members, true, rest)))
  {
    hide Print, Emit;
    if members == [] {
      PrintCons(Bare("}"), rest);
    } else {
      MembersUnfold(members, false, rest);
      MembersUnfold(members, true, rest);
      hide EmitMembers, TokenText;
      PrintCons(Bare(", "), EmitMembers(members, true, rest));
      CommaBlank(Print(EmitMembers(members, true, rest)));
    }
  }

  lemma {:induction false} MemberReadsBack(w: string, m: Member, after: seq<Token>)
    requires Lead(w) && Dumped(m.value) && Ends(Print(after))
    ensures ReadMember(w + Print([Key(Escape(m.name))] + Emit(m.value, after))) == Some((m, Print(after)))
    decreases m, 0
  {
    hide ReadValue, Print, Ends, Emit, Escape, ReadString, SkipWhite, TokenText, Dumped;
    var value := Emit(m.value, after);
    PrintCons(Key(Escape(m.name)), value);
    var behind := ":" + (" " + Print(value));
    var t := "\"" + Escape(m.name) + "\"" + behind;
    KeyText(Escape(m.name), Print(value));
    SkipLead(w, t);
    assert t[1..] == Escape(m.name) + "\"" + behind;
    StringReadsBack(m.name, behind);
    assert "" + behind == behind;
    SkipLead("", behind);
    assert behind[1..] == " " + Print(value);
    ValueReadsBack(" ", m.value, after);
  }

  lemma KeyText(e: string, rest: string)
    ensures TokenText(Key(e)) + rest == "\"" + e + "\"" + (":" + (" " + rest))
  {
  }

  lemma {:induction false} MembersReadBack(w: string, members: seq<Member>, rest: seq<Token>)
    requires Lead(w) && members != [] && forall i :: 0 <= i < |members| ==> Dumped(members[i].value)
    ensures ReadMembers(w + Print(EmitMembers(members, true, rest))) == Some((members, Print(rest)))
    decreases members, 1
  {
    hide ReadMember, ReadMembers, Print;
    var more := members[1..];
    var after := EmitMembers(more, false, rest);
    MembersTail(more, rest);
    MembersUnfold(members, true, rest);
    MemberReadsBack(w, members[0], after);
    ReadsMember(w + Print(EmitMembers(members, true, rest)), members[0], Print(after));
    if more == [] {
      assert members == [members[0]];
      assert ("}" + Print(rest))[1..] == Print(rest);
    } else {
      MembersReadBack(" ", more, rest);
      assert Print(after)[1..] == " " + Print(EmitMembers(more, true, rest));
      assert members == [members[0]] + more;
    }
  }

  lemma ReadsMember(s: string, member: Member, tail: string)
    requires ReadMember(s) == Some((member, tail)) && tail != []
    ensures tail[0] == '}' ==> ReadMembers(s) == Some(([member], tail[1..]))
    ensures tail[0] == ',' && ReadMembers(tail[1..]).Some? ==>
      ReadMembers(s) == Some(([member] + ReadMembers(tail[1..]).value.0, ReadMembers(tail[1..]).value.1))
  {
  }

  /** Every document reads back from its printed form. */
  lemma PrintReadsBack(j: Json)
    requires Dumped(j)
    ensures ReadJson(PrintJson(j)) == Some(j)
  {
    ValueReadsBack("", j, []);
    assert "" + PrintJson(j) == PrintJson(j);
  }
}
