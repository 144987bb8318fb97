/** C strings: the text before the first NUL, `strstr`, `atoi` and decimal numerals. */
module CText {

  datatype Option<+T> = None | Some(value: T)

  const NUL := '\0'

  // ---------------------------------------------------------------- NUL-terminated cells

  /** The text a C function sees in a buffer: everything before the first NUL. */
  function CString(cells: seq<char>): (s: string)
    ensures |s| <= |cells| && s == cells[..|s|]
    ensures NUL !in s
    ensures |s| < |cells| ==> cells[|s|] == NUL
  {
    if cells == [] || cells[0] == NUL then [] else [cells[0]] + CString(cells[1..])
  }

  lemma CStringIs(cells: seq<char>, s: string)
    requires |s| <= |cells| && s == cells[..|s|] && NUL !in s
    requires |s| == |cells| || cells[|s|] == NUL
    ensures CString(cells) == s
  {
    var t := CString(cells);
    assert forall i :: 0 <= i < |s| ==> cells[i] == s[i] != NUL;
    assert forall i :: 0 <= i < |t| ==> cells[i] == t[i] != NUL;
    assert |t| == |s|;
  }

  // ---------------------------------------------------------------- strstr

  predicate MatchAt(s: string, pattern: string, p: int) {
    0 <= p && p + |pattern| <= |s| && s[p..p + |pattern|] == pattern
  }

  /** `strstr`: the first occurrence. */
  function Find(s: string, pattern: string): (r: Option<nat>)
    ensures r.Some? ==> MatchAt(s, pattern, r.value) && forall p :: MatchAt(s, pattern, p) ==> r.value <= p
    ensures r.None? ==> forall p :: !MatchAt(s, pattern, p)
  {
    if |pattern| <= |s| && s[..|pattern|] == pattern then Some(0)
    else if s == [] then None
    else
      FindTail(s, pattern);
      match Find(s[1..], pattern)
      case None => None
      case Some(r) => Some(r + 1)
  }

  lemma FindTail(s: string, pattern: string)
    requires s != [] && !MatchAt(s, pattern, 0)
    ensures forall p :: MatchAt(s, pattern, p) ==> MatchAt(s[1..], pattern, p - 1)
    ensures forall p :: MatchAt(s[1..], pattern, p) ==> MatchAt(s, pattern, p + 1)
  {
    forall p | MatchAt(s, pattern, p)
      ensures MatchAt(s[1..], pattern, p - 1)
    {
      assert s[1..][p - 1..p - 1 + |pattern|] == s[p..p + |pattern|];
    }
    forall p | MatchAt(s[1..], pattern, p)
      ensures MatchAt(s, pattern, p + 1)
    {
      assert s[1..][p..p + |pattern|] == s[p + 1..p + 1 + |pattern|];
    }
  }

  lemma FindIs(s: string, pattern: string, p: nat)
    requires MatchAt(s, pattern, p)
    requires forall q :: 0 <= q < p ==> !MatchAt(s, pattern, q)
    ensures Find(s, pattern) == Some(p)
  {
  }

  /** Appending to a text moves no occurrence. */
  lemma MatchInPrefix(s: string, t: string, pattern: string, p: int)
    requires p + |pattern| <= |s|
    ensures MatchAt(s, pattern, p) <==> MatchAt(s + t, pattern, p)
  {
    if 0 <= p {
      assert s[p..p + |pattern|] == (s + t)[p..p + |pattern|];
    }
  }

  lemma MatchAfterDrop(s: string, pattern: string, n: nat, p: nat)
    requires n <= |s|
    ensures MatchAt(s[n..], pattern, p) <==> MatchAt(s, pattern, p + n)
  {
    if p + n + |pattern| <= |s| {
      assert s[n..][p..p + |pattern|] == s[p + n..p + n + |pattern|];
    }
  }

  /** Dropping a prefix in which no occurrence starts moves the first occurrence by its length. */
  lemma FindSkips(s: string, pattern: string, n: nat)
    requires n <= |s|
    requires forall p :: 0 <= p < n ==> !MatchAt(s, pattern, p)
    ensures Find(s, pattern)
         == match Find(s[n..], pattern) { case None => None case Some(r) => Some(r + n) }
  {
    hide MatchAt;
    var r := Find(s, pattern);
    var t := Find(s[n..], pattern);
    if r.Some? {
      assert n <= r.value;
      MatchAfterDrop(s, pattern, n, r.value - n);
    }
    if t.Some? {
      MatchAfterDrop(s, pattern, n, t.value);
    }
  }

  /** What `strstr` finds in a text that breaks off: the same occurrence, if it is there whole. */
  lemma FindInPrefix(s: string, pattern: string, k: nat)
    requires k <= |s|
    ensures Find(s[..k], pattern)
         == match Find(s, pattern)
            case None => None
            case Some(p) => if p + |pattern| <= k then Some(p) else None
  {
    hide MatchAt, Find;
    assert s == s[..k] + s[k..];
    MatchesInPrefix(s[..k], s[k..], pattern);
    FindMeans(s, pattern);
    FindMeans(s[..k], pattern);
    FindEnds(s, pattern);
    FindEnds(s[..k], pattern);
  }

  lemma FindMeans(s: string, pattern: string)
    ensures match Find(s, pattern)
      case None => forall p :: !MatchAt(s, pattern, p)
      case Some(r) => MatchAt(s, pattern, r) && forall p :: MatchAt(s, pattern, p) ==> r <= p
  {
  }

  lemma FindEnds(s: string, pattern: string)
    ensures forall p :: MatchAt(s, pattern, p) ==> 0 <= p && p + |pattern| <= |s|
  {
  }

  lemma MatchesInPrefix(s: string, t: string, pattern: string)
    ensures forall p :: MatchAt(s, pattern, p) <==> MatchAt(s + t, pattern, p) && p + |pattern| <= |s|
  {
    forall p
      ensures MatchAt(s, pattern, p) <==> MatchAt(s + t, pattern, p) && p + |pattern| <= |s|
    {
      if p + |pattern| <= |s| {
        MatchInPrefix(s, t, pattern, p);
      }
    }
  }

  // ---------------------------------------------------------------- numerals

  predicate IsDigit(c: char) {
    '0' <= c <= '9'
  }

  predicate AllDigits(s: string) {
    forall i :: 0 <= i < |s| ==> IsDigit(s[i])
  }

  function DigitOf(d: int): char
    requires 0 <= d < 10
    ensures IsDigit(DigitOf(d)) && (DigitOf(d) as int) - ('0' as int) == d
  {
    (d + '0' as int) as char
  }

  /** Decimal numeral of n without leading zeros. */
  function Decimal(n: nat): (s: string)
    ensures s != [] && AllDigits(s)
  {
    if n < 10 then [DigitOf(n)] else Decimal(n / 10) + [DigitOf(n % 10)]
  }

  /** Value of a string of digits, read from left to right. */
  function NumeralValue(s: string): nat
    requires AllDigits(s)
  {
    if s == [] then 0
    else NumeralValue(s[..|s| - 1]) * 10 + ((s[|s| - 1] as int) - ('0' as int))
  }

  lemma {:induction false} DecimalReadsBack(n: nat)
    ensures NumeralValue(Decimal(n)) == n
  {
    var s := Decimal(n);
    if n < 10 {
    } else {
      DecimalReadsBack(n / 10);
      assert s[..|s| - 1] == Decimal(n / 10);
    }
  }

  function PowerOfTen(k: nat): nat {
    if k == 0 then 1 else 10 * PowerOfTen(k - 1)
  }

  lemma {:induction false} DecimalLength(n: nat, k: nat)
    requires 1 <= k && n < PowerOfTen(k)
    ensures |Decimal(n)| <= k
    decreases k
  {
    if n < 10 {
    } else {
      assert k > 1 by { assert PowerOfTen(1) == 10; }
      assert n / 10 < PowerOfTen(k - 1);
      DecimalLength(n / 10, k - 1);
    }
  }

  lemma {:induction false} NumeralPrefixSmaller(s: string, i: nat)
    requires AllDigits(s) && i <= |s|
    ensures NumeralValue(s[..i]) <= NumeralValue(s)
    decreases |s|
  {
    if i == |s| {
      assert s[..i] == s;
    } else {
      var t := s[..|s| - 1];
      NumeralPrefixSmaller(t, i);
      assert t[..i] == s[..i];
    }
  }

  /** The leading digits of a text. */
  function DigitPrefix(s: string): (d: string)
    ensures |d| <= |s| && d == s[..|d|] && AllDigits(d)
    ensures |d| < |s| ==> !IsDigit(s[|d|])
  {
    if s == [] || !IsDigit(s[0]) then [] else [s[0]] + DigitPrefix(s[1..])
  }

  lemma DigitPrefixIs(d: string, rest: string)
    requires AllDigits(d) && (rest == [] || !IsDigit(rest[0]))
    ensures DigitPrefix(d + rest) == d
  {
    var s := d + rest;
    var t := DigitPrefix(s);
    assert forall i :: 0 <= i < |d| ==> s[i] == d[i] && IsDigit(s[i]);
    assert forall i :: 0 <= i < |t| ==> s[i] == t[i] && IsDigit(s[i]);
    assert rest != [] ==> s[|d|] == rest[0];
    assert |t| == |d|;
  }

  predicate IsSpace(c: char) {
    c == ' ' || '\t' <= c <= '\r'
  }

  function SkipSpace(s: string): string {
    if s != [] && IsSpace(s[0]) then SkipSpace(s[1..]) else s
  }

  /** `atoi`, with unbounded integers: blanks, an optional sign, then digits. */
  function Atoi(s: string): int {
    var t := SkipSpace(s);
    if t != [] && t[0] == '-' then 0 - NumeralValue(DigitPrefix(t[1..]))
    else if t != [] && t[0] == '+' then NumeralValue(DigitPrefix(t[1..]))
    else NumeralValue(DigitPrefix(t))
  }

  lemma AtoiReadsDecimal(n: nat, rest: string)
    requires rest == [] || !IsDigit(rest[0])
    ensures Atoi(Decimal(n) + rest) == n
  {
    var s := Decimal(n) + rest;
    assert IsDigit(s[0]);
    assert SkipSpace(s) == s;
    DigitPrefixIs(Decimal(n), rest);
    DecimalReadsBack(n);
  }

  lemma {:induction false} SkipSpaceAppend(s: string, rest: string)
    requires SkipSpace(s) != []
    ensures SkipSpace(s + rest) == SkipSpace(s) + rest
  {
    if s == [] || !IsSpace(s[0]) {
    } else {
      assert (s + rest)[1..] == s[1..] + rest;
      SkipSpaceAppend(s[1..], rest);
    }
  }

  lemma DigitPrefixAppend(s: string, rest: string)
    requires rest == [] || !IsDigit(rest[0])
    ensures DigitPrefix(s + rest) == DigitPrefix(s)
  {
    var d := DigitPrefix(s);
    assert s + rest == d + (s[|d|..] + rest);
    DigitPrefixIs(d, s[|d|..] + rest);
  }

  /** Behind a field that is not blank, `atoi` does not read on past a non-digit. */
  lemma AtoiStops(s: string, rest: string)
    requires SkipSpace(s) != [] && (rest == [] || !IsDigit(rest[0]))
    ensures Atoi(s + rest) == Atoi(s)
  {
    SkipSpaceAppend(s, rest);
    var t := SkipSpace(s);
    assert (t + rest)[1..] == t[1..] + rest;
    DigitPrefixAppend(t[1..], rest);
    DigitPrefixAppend(t, rest);
  }

  /** The characters that `isspace` names: blank, tab, line feed, vertical tab, form feed, return. */
  predicate White(w: string) {
    forall i :: 0 <= i < |w| ==> w[i] == ' ' || 9 <= w[i] as int <= 13
  }

  lemma {:induction false} SkipSpacesInFront(w: string, t: string)
    requires White(w) && t != [] && t[0] != ' ' && !(9 <= t[0] as int <= 13)
    ensures SkipSpace(w + t) == t
  {
    if w == [] {
      assert w + t == t;
    } else {
      assert (w + t)[1..] == w[1..] + t;
      SkipSpacesInFront(w[1..], t);
    }
  }

  /** White space in front of a number, and a sign. */
  lemma AtoiReadsSigned(w: string, n: nat, rest: string)
    requires White(w) && (rest == [] || !IsDigit(rest[0]))
    ensures Atoi(w + ("-" + (Decimal(n) + rest))) == 0 - n
    ensures Atoi(w + ("+" + (Decimal(n) + rest))) == n
    ensures Atoi(w + (Decimal(n) + rest)) == n
  {
    hide Decimal, SkipSpace;
    var t := Decimal(n) + rest;
    assert t[0] == Decimal(n)[0] && IsDigit(t[0]);
    DigitPrefixIs(Decimal(n), rest);
    DecimalReadsBack(n);
    SkipSpacesInFront(w, "-" + t);
    SkipSpacesInFront(w, "+" + t);
    SkipSpacesInFront(w, t);
    assert ("-" + t)[1..] == t && ("+" + t)[1..] == t;
  }

  /** Anything else behind the white space reads as 0. */
  lemma AtoiReadsNothing(w: string, t: string)
    requires White(w) && t != [] && t[0] != ' ' && !(9 <= t[0] as int <= 13)
    requires !IsDigit(t[0]) && t[0] != '-' && t[0] != '+'
    ensures Atoi(w + t) == 0
  {
    SkipSpacesInFront(w, t);
  }

  /** A number without its last digits is smaller. */
  lemma NumeralCutSmaller(n: nat, i: nat)
    requires 0 < i < |Decimal(n)|
    ensures NumeralValue(Decimal(n)[..i]) < n
  {
    var s := Decimal(n);
    assert s[..|s| - 1] == Decimal(n / 10);
    DecimalReadsBack(n / 10);
    assert s[..i] == Decimal(n / 10)[..i];
    NumeralPrefixSmaller(Decimal(n / 10), i);
  }

  // ---------------------------------------------------------------- spans

  function SkipBlanks(s: string): string {
    if s != [] && (s[0] == ' ' || s[0] == '\t') then SkipBlanks(s[1..]) else s
  }

  /** The leading characters of s outside `stops`, at most `limit` of them. */
  function Span(s: string, limit: nat, stops: string): (r: string)
    ensures |r| <= |s| && |r| <= limit && r == s[..|r|]
    ensures forall i :: 0 <= i < |r| ==> r[i] !in stops
    ensures |r| < |s| && |r| < limit ==> s[|r|] in stops
  {
    if s == [] || limit == 0 || s[0] in stops then [] else [s[0]] + Span(s[1..], limit - 1, stops)
  }

  lemma SpanIs(s: string, limit: nat, stops: string, r: string)
    requires |r| <= |s| && |r| <= limit && r == s[..|r|]
    requires forall i :: 0 <= i < |r| ==> r[i] !in stops
    requires |r| == |s| || |r| == limit || s[|r|] in stops
    ensures Span(s, limit, stops) == r
  {
    var t := Span(s, limit, stops);
    assert forall i :: 0 <= i < |r| ==> s[i] == r[i] && s[i] !in stops;
    assert forall i :: 0 <= i < |t| ==> s[i] == t[i] && s[i] !in stops;
    assert |t| == |r|;
  }

  function Cut(s: string, n: nat): string {
    if |s| <= n then s else s[..n]
  }

  lemma SpanCut(s: string, rest: string, limit: nat, stops: string)
    requires rest != [] && rest[0] in stops
    ensures Span(s + rest, limit, stops) == Cut(Span(s, |s|, stops), limit)
  {
    var t := Span(s, |s|, stops);
    var r := Cut(t, limit);
    assert |t| < |s| ==> (s + rest)[|t|] == s[|t|];
    assert (s + rest)[..|r|] == s[..|r|];
    SpanIs(s + rest, limit, stops, r);
  }

  lemma SkipOneBlank(t: string)
    requires t != [] && t[0] != ' ' && t[0] != '\t'
    ensures SkipBlanks(" " + t) == t
  {
    assert (" " + t)[1..] == t;
  }

  /** The scanners' first loop: step over blanks. */
  method SkipBlanksFrom(s: string, start: nat) returns (pos: nat)
    requires start <= |s|
    ensures start <= pos <= |s| && s[pos..] == SkipBlanks(s[start..])
    ensures pos < |s| ==> s[pos] != ' ' && s[pos] != '\t'
  {
    pos := start;
    while pos < |s| && (s[pos] == ' ' || s[pos] == '\t')
      invariant start <= pos <= |s|
      invariant SkipBlanks(s[pos..]) == SkipBlanks(s[start..])
    {
      assert s[pos..][1..] == s[pos + 1..];
      pos := pos + 1;
    }
  }

  predicate Blanks(w: string) {
    forall i :: 0 <= i < |w| ==> w[i] == ' ' || w[i] == '\t'
  }

  lemma {:induction false} SkipBlanksInFront(w: string, t: string)
    requires Blanks(w) && (t == [] || (t[0] != ' ' && t[0] != '\t'))
    ensures SkipBlanks(w + t) == t
  {
    if w == [] {
      assert w + t == t;
    } else {
      assert (w + t)[1..] == w[1..] + t;
      SkipBlanksInFront(w[1..], t);
    }
  }

  lemma {:induction false} SkipBlanksOfPrefix(s: string, k: nat)
    requires k <= |s|
    ensures |SkipBlanks(s)| <= |s|
    ensures var b := |s| - |SkipBlanks(s)|;
      SkipBlanks(s[..k]) == if k <= b then [] else SkipBlanks(s)[..k - b]
    decreases |s|
  {
    if k == 0 {
      if s != [] && (s[0] == ' ' || s[0] == '\t') {
        SkipBlanksOfPrefix(s[1..], 0);
      }
    } else if s[0] == ' ' || s[0] == '\t' {
      SkipBlanksOfPrefix(s[1..], k - 1);
      assert s[..k][1..] == s[1..][..k - 1];
    }
  }

  lemma SpanOfPrefix(s: string, k: nat, limit: nat, stops: string)
    requires k <= |s|
    ensures Span(s[..k], limit, stops) == Cut(Span(s, limit, stops), k)
  {
    var r := Cut(Span(s, limit, stops), k);
    SpanIs(s[..k], limit, stops, r);
  }
}
