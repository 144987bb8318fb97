/** The `/news` scanner: titles cut out of a JSON body, one `"title":` after the other, into a
    table of ten rows, and what it makes of a printed document. */
module NewsScanner {
  import opened CText
  import opened Json

  const NEWS_MAX := 10
  const NEWS_TITLE_LEN := 80
  const TITLE := "title"

  // ---------------------------------------------------------------- the scan as a function

  /** One title behind `"title":` and where the search goes on; None for a null. */
  datatype Cutting = Cutting(title: Option<string>, rest: string)

  function DropQuote(s: string): string {
    if s != [] && s[0] == '"' then s[1..] else s
  }

  function CutTitle(s: string): (c: Cutting)
    ensures |c.rest| <= |s|
  {
    var t := SkipBlanks(s);
    SkipBlanksShorter(s);
    if "null" <= t then Cutting(None, t[4..])
    else
      var v := DropQuote(t);
      var title := Span(v, NEWS_TITLE_LEN - 1, "\"");
      Cutting(Some(title), DropQuote(v[|title|..]))
  }

  lemma {:induction false} SkipBlanksShorter(s: string)
    ensures |SkipBlanks(s)| <= |s|
  {
    if s == [] || (s[0] != ' ' && s[0] != '\t') {
    } else {
      SkipBlanksShorter(s[1..]);
    }
  }

  /** The non-empty titles of a text, in order, at most `room` of them. */
  function Titles(s: string, room: nat): (r: seq<string>)
    ensures |r| <= room
    decreases |s|
  {
    if room == 0 then []
    else
      match Find(s, Pattern(TITLE))
      case None => []
      case Some(p) =>
        PatternLength(s, p);
        var c := CutTitle(s[p + 8..]);
        match c.title
        case None => Titles(c.rest, room)
        case Some(title) => if title == [] then Titles(c.rest, room) else [title] + Titles(c.rest, room - 1)
  }

  lemma TitlesUnfold(s: string, room: nat)
    requires 0 < room
    ensures Titles(s, 0) == []
    ensures match Find(s, Pattern(TITLE))
      case None => Titles(s, room) == []
      case Some(p) =>
        && p + 8 <= |s|
        && var c := CutTitle(s[p + 8..]);
           Titles(s, room)
           == if c.title.None? || c.title.value == [] then Titles(c.rest, room)
              else [c.title.value] + Titles(c.rest, room - 1)
  {
    var r := Find(s, Pattern(TITLE));
    if r.Some? {
      PatternLength(s, r.value);
    }
  }

  lemma PatternLength(s: string, p: nat)
    requires MatchAt(s, Pattern(TITLE), p)
    ensures p + 8 <= |s|
  {
    assert |Pattern(TITLE)| == 8;
  }

  /** In numbers: never more than ten titles, each of 1 to 79 characters without quotes. */
  lemma {:induction false} TitlesFit(s: string, room: nat)
    requires room <= 10
    ensures |Titles(s, room)| <= 10
    ensures forall i :: 0 <= i < |Titles(s, room)| ==>
      1 <= |Titles(s, room)[i]| <= 79 && '"' !in Titles(s, room)[i]
    decreases |s|
  {
    hide Titles;
    TitlesUnfold(s, room + 1);
    if room > 0 {
      TitlesUnfold(s, room);
      var r := Find(s, Pattern(TITLE));
      if r.Some? {
        var c := CutTitle(s[r.value + 8..]);
        TitlesFit(c.rest, room);
        TitlesFit(c.rest, room - 1);
        CutFits(s[r.value + 8..]);
      }
    }
  }

  lemma CutFits(s: string)
    ensures CutTitle(s).title.Some? ==> |CutTitle(s).title.value| <= 79 && '"' !in CutTitle(s).title.value
  {
  }

  // ---------------------------------------------------------------- what one cut yields

  /** A title up to a quote or the end of the text, behind blanks and an opening quote or none. */
  lemma CutText(w: string, t: string, title: string, tail: string)
    requires Blanks(w) && t != [] && t[0] != ' ' && t[0] != '\t' && !("null" <= t)
    requires DropQuote(t) == title + tail && '"' !in title && (tail == [] || tail[0] == '"')
    ensures CutTitle(w + t)
         == if |title| <= 79 then Cutting(Some(title), if tail == [] then [] else tail[1..])
            else Cutting(Some(title[..79]), title[79..] + tail)
  {
    SkipBlanksInFront(w, t);
    var v := title + tail;
    if |title| <= 79 {
      SpanIs(v, 79, "\"", title);
      assert v[|title|..] == tail;
    } else {
      SpanIs(v, 79, "\"", title[..79]);
      assert v[79..] == title[79..] + tail;
      assert v[79] == title[79] && title[79] in title;
    }
  }

  /** A quoted title, closed or cut off by the end of the text. */
  lemma CutQuotedText(w: string, title: string, tail: string)
    requires Blanks(w) && '"' !in title && (tail == [] || tail[0] == '"')
    ensures CutTitle(w + ("\"" + (title + tail)))
         == if |title| <= 79 then Cutting(Some(title), if tail == [] then [] else tail[1..])
            else Cutting(Some(title[..79]), title[79..] + tail)
  {
    var t := "\"" + (title + tail);
    assert t[1..] == title + tail;
    assert t[0] != "null"[0];
    CutText(w, t, title, tail);
  }

  /** A title without an opening quote. */
  lemma CutBareText(w: string, title: string, tail: string)
    requires Blanks(w) && '"' !in title && (tail == [] || tail[0] == '"')
    requires title != [] && title[0] != ' ' && title[0] != '\t' && !("null" <= title + tail)
    ensures CutTitle(w + (title + tail))
         == if |title| <= 79 then Cutting(Some(title), if tail == [] then [] else tail[1..])
            else Cutting(Some(title[..79]), title[79..] + tail)
  {
    assert (title + tail)[0] == title[0] && title[0] in title;
    CutText(w, title + tail, title, tail);
  }

  lemma CutNullText(w: string, tail: string)
    requires Blanks(w)
    ensures CutTitle(w + ("null" + tail)) == Cutting(None, tail)
  {
    var t := "null" + tail;
    SkipBlanksInFront(w, t);
    assert t[4..] == tail;
  }

  // ---------------------------------------------------------------- the scanner

  ghost function Row(titles: array2<char>, i: nat): (r: seq<char>)
    requires i < titles.Length0
    reads titles
    ensures |r| == titles.Length1 && forall j :: 0 <= j < |r| ==> r[j] == titles[i, j]
  {
    seq(titles.Length1, j requires 0 <= j < titles.Length1 reads titles => titles[i, j])
  }

  /** A row of the table as C text. */
  ghost function RowText(titles: array2<char>, i: nat): string
    requires i < titles.Length0
    reads titles
  {
    CString(Row(titles, i))
  }

  ghost function RowTexts(titles: array2<char>, n: nat): (r: seq<string>)
    requires n <= titles.Length0
    reads titles
    ensures |r| == n && forall i :: 0 <= i < n ==> r[i] == RowText(titles, i)
  {
    if n == 0 then [] else RowTexts(titles, n - 1) + [RowText(titles, n - 1)]
  }

  lemma RowTextIs(titles: array2<char>, i: nat, text: string)
    requires i < titles.Length0 && |text| < titles.Length1 && NUL !in text
    requires forall j :: 0 <= j < |text| ==> titles[i, j] == text[j]
    requires titles[i, |text|] == NUL
    ensures RowText(titles, i) == text
  {
    CStringIs(Row(titles, i), text);
  }

  class NewsStore {
    const titles: array2<char>
    var count: nat
    var ready: bool

    ghost predicate Valid()
      reads this
    {
      titles.Length0 == NEWS_MAX && titles.Length1 == NEWS_TITLE_LEN && count <= NEWS_MAX
    }

    /** The titles on show. */
    ghost function Shown(): seq<string>
      requires Valid()
      reads this, titles
    {
      RowTexts(titles, count)
    }

    constructor ()
      ensures Valid() && fresh(titles) && Shown() == [] && !ready
    {
      titles := new char[NEWS_MAX, NEWS_TITLE_LEN]((_, _) => NUL);
      count, ready := 0, false;
    }

    /** Copies one title into row `count`; the rows above it stay as they are. */
    method CopyTitle(json: string, pos0: nat) returns (i: nat, pos: nat)
      requires Valid() && count < NEWS_MAX && pos0 <= |json| && NUL !in json
      modifies titles
      ensures RowText(titles, count) == Span(json[pos0..], NEWS_TITLE_LEN - 1, "\"")
      ensures i == |RowText(titles, count)| && pos == pos0 + i <= |json|
      ensures Shown() == old(Shown())
    {
      pos, i := pos0, 0;
      ghost var title: string := [];
      while pos < |json| && json[pos] != '"' && i < NEWS_TITLE_LEN - 1
        invariant pos == pos0 + i <= |json| && i <= NEWS_TITLE_LEN - 1
        invariant title == json[pos0..pos]
        invariant forall k :: 0 <= k < |title| ==> title[k] != '"' && titles[count, k] == title[k]
        invariant forall r, j :: 0 <= r < count && 0 <= j < NEWS_TITLE_LEN ==> titles[r, j] == old(titles[r, j])
      {
        titles[count, i] := json[pos];
        title := title + [json[pos]];
        i, pos := i + 1, pos + 1;
      }
      titles[count, i] := NUL;
      SpanIs(json[pos0..], NEWS_TITLE_LEN - 1, "\"", title);
      RowTextIs(titles, count, title);
      forall r | 0 <= r < count
        ensures RowText(titles, r) == old(RowText(titles, r))
      {
        assert Row(titles, r) == old(Row(titles, r));
      }
    }

    method SkipQuote(json: string, pos0: nat) returns (pos: nat)
      requires pos0 <= |json|
      ensures pos0 <= pos <= |json| && json[pos..] == DropQuote(json[pos0..])
    {
      pos := pos0;
      if pos < |json| && json[pos] == '"' {
        pos := pos + 1;
        assert json[pos0..][1..] == json[pos..];
      }
    }

    /** What follows one `"title":`. */
    method TakeTitle(json: string, pos0: nat) returns (isNull: bool, i: nat, pos: nat)
      requires Valid() && count < NEWS_MAX && pos0 <= |json| && NUL !in json
      modifies titles
      ensures pos0 <= pos <= |json| && Shown() == old(Shown())
      ensures CutTitle(json[pos0..])
           == Cutting(if isNull then None else Some(RowText(titles, count)), json[pos..])
      ensures !isNull ==> i == |RowText(titles, count)|
    {
      hide Span, SkipBlanks, RowText, RowTexts, DropQuote;
      isNull, i := false, 0;
      pos := SkipBlanksFrom(json, pos0);
      if "null" <= json[pos..] {
        assert json[pos..][4..] == json[pos + 4..];
        pos := pos + 4;
        isNull := true;
        return;
      }
      pos := SkipQuote(json, pos);
      ghost var v := json[pos..];
      i, pos := CopyTitle(json, pos);
      assert v[i..] == json[pos..];
      pos := SkipQuote(json, pos);
    }

    method ParseNewsTitles(json: string)
      requires Valid() && NUL !in json
      modifies this, titles
      ensures Valid() && Shown() == Titles(json, NEWS_MAX)
      ensures ready <==> Titles(json, NEWS_MAX) != []
    {
      hide CutTitle, Pattern, RowText, Find, Titles;
      count, ready := 0, false;
      var pos := 0;
      assert json[0..] == json;
      while count < NEWS_MAX
        invariant Valid() && pos <= |json|
        invariant Shown() + Titles(json[pos..], NEWS_MAX - count) == Titles(json, NEWS_MAX)
        decreases |json| - pos
      {
        ghost var s := json[pos..];
        TitlesUnfold(s, NEWS_MAX - count);
        var found := Find(json[pos..], Pattern(TITLE));
        if found.None? { break; }
        assert s[found.value + 8..] == json[pos + found.value + 8..];
        pos := pos + found.value + 8;
        var isNull, i;
        isNull, i, pos := TakeTitle(json, pos);
        if isNull { continue; }
        if i > 0 {
          count := count + 1;
        }
      }
      TitlesUnfold(json[pos..], 1);
      ready := count > 0;
    }
  }
}
