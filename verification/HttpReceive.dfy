/** The HTTP/1.0 receive loop shared by both network threads, and its independence from the way
    the stream is cut into pieces.  A call of `recv` delivers the next piece; running out of
    pieces stands for the timeout, the error and the closed connection, which all leave the loop
    the same way. */
module HttpReceive {
  import opened CText

  const HEADER_END := "\r\n\r\n"
  const LENGTH_FIELD := "Content-Length: "

  const INFO_BUFFER := 3072
  const NEWS_BUFFER := 5120

  // ---------------------------------------------------------------- the loop as a function

  datatype Recv = Recv(data: string, contentLength: int)

  const START := Recv([], -1)

  /** `content_length` after one more piece: read once, when both marks are in the buffer. */
  function LengthAfter(contentLength: int, data: string): int {
    var cl := Find(CString(data), LENGTH_FIELD);
    if contentLength < 0 && cl.Some? && Find(CString(data), HEADER_END).Some?
    then Atoi(CString(data)[cl.value + |LENGTH_FIELD|..])
    else contentLength
  }

  function Step(r: Recv, piece: string): Recv {
    Recv(r.data + piece, LengthAfter(r.contentLength, r.data + piece))
  }

  /** The break test behind the copy of a piece. */
  predicate Complete(contentLength: int, data: string) {
    var header := Find(CString(data), HEADER_END);
    && (contentLength < 0 ==> Find(CString(data), LENGTH_FIELD).Some?)
    && header.Some?
    && |data| >= header.value + 4 + LengthAfter(contentLength, data)
  }

  /** The state the loop ends in and the number of pieces it has taken. */
  function Receive(r: Recv, pieces: seq<string>, size: nat): (Recv, nat)
    decreases |pieces|
  {
    if |r.data| >= size - 1 || pieces == [] then (r, 0)
    else if Complete(r.contentLength, r.data + pieces[0]) then (Step(r, pieces[0]), 1)
    else
      var (last, n) := Receive(Step(r, pieces[0]), pieces[1..], size);
      (last, n + 1)
  }

  /** Every piece that the loop takes leaves room for a NUL behind it. */
  predicate Fits(r: Recv, pieces: seq<string>, size: nat)
    decreases |pieces|
  {
    || |r.data| >= size - 1 || pieces == []
    || ( && |r.data + pieces[0]| < size
         && (Complete(r.contentLength, r.data + pieces[0]) || Fits(Step(r, pieces[0]), pieces[1..], size)))
  }

  function Join(pieces: seq<string>): string {
    if pieces == [] then [] else pieces[0] + Join(pieces[1..])
  }

  function Body(data: string): Option<string> {
    match Find(CString(data), HEADER_END)
    case None => None
    case Some(p) => Some(CString(data)[p + 4..])
  }

  /** The news request's return value. */
  function NewsResult(r: Recv): int {
    if r.contentLength > 0 then
      var header := Find(CString(r.data), HEADER_END);
      var size := if header.Some? then header.value + 4 else 0;
      if |r.data| >= size + r.contentLength then 0 else -1
    else if |r.data| > 0 then 0 else -1
  }

  // ---------------------------------------------------------------- the loop on its buffer

  lemma ZeroedTail(data: string, zeros: string)
    requires zeros != [] && forall i :: 0 <= i < |zeros| ==> zeros[i] == NUL
    ensures CString(data + zeros) == CString(data)
  {
    var s := CString(data);
    CStringIs(data + zeros, s);
  }

  class HttpBuffer {
    const buf: array<char>
    var total: nat
    var contentLength: int

    ghost predicate Valid()
      reads this, buf
    {
      total < buf.Length && forall i :: total <= i < buf.Length ==> buf[i] == NUL
    }

    ghost function State(): Recv
      reads this, buf
      requires Valid()
    {
      Recv(buf[..total], contentLength)
    }

    /** The static buffer, cleared as at the start of a request. */
    constructor (size: nat)
      requires 0 < size
      ensures fresh(buf) && buf.Length == size && Valid() && State() == START
    {
      buf := new char[size](_ => NUL);
      total, contentLength := 0, -1;
    }

    ghost method Text()
      requires Valid()
      ensures CString(buf[..]) == CString(buf[..total])
    {
      assert buf[..] == buf[..total] + buf[total..];
      ZeroedTail(buf[..total], buf[total..]);
    }

    method Append(piece: string)
      requires Valid() && total + |piece| < buf.Length
      modifies this`total, buf
      ensures Valid() && buf[..total] == old(buf[..total]) + piece
    {
      forall i | 0 <= i < |piece| {
        buf[total + i] := piece[i];
      }
      total := total + |piece|;
    }

    /** The inspection of the buffer behind the copy of a piece. */
    method Inspect() returns (stop: bool)
      requires Valid()
      modifies this`contentLength
      ensures Valid() && contentLength == LengthAfter(old(contentLength), buf[..total])
      ensures stop == Complete(old(contentLength), buf[..total])
    {
      Text();
      stop := false;
      if contentLength < 0 {
        var cl := Find(CString(buf[..]), LENGTH_FIELD);
        var headerEnd := Find(CString(buf[..]), HEADER_END);
        if cl.Some? && headerEnd.Some? {
          contentLength := Atoi(CString(buf[..])[cl.value + |LENGTH_FIELD|..]);
          if total >= headerEnd.value + 4 + contentLength { stop := true; }
        }
      } else {
        var headerEnd := Find(CString(buf[..]), HEADER_END);
        if headerEnd.Some? {
          if total >= headerEnd.value + 4 + contentLength { stop := true; }
        }
      }
    }

    method ReceiveLoop(pieces: seq<string>) returns (consumed: nat)
      requires Valid() && State() == START && Fits(START, pieces, buf.Length)
      modifies this, buf
      ensures Valid() && consumed <= |pieces|
      ensures (State(), consumed) == Receive(START, pieces, buf.Length)
    {
      hide Complete, LengthAfter;
      consumed := 0;
      while total < buf.Length - 1 && consumed < |pieces|
        invariant Valid() && consumed <= |pieces|
        invariant Fits(State(), pieces[consumed..], buf.Length)
        invariant Receive(START, pieces, buf.Length)
               == (var rest := Receive(State(), pieces[consumed..], buf.Length); (rest.0, rest.1 + consumed))
      {
        assert pieces[consumed..][1..] == pieces[consumed + 1..];
        Append(pieces[consumed]);
        consumed := consumed + 1;
        var stop := Inspect();
        if stop { break; }
      }
    }

    method ReadBody() returns (body: Option<string>)
      requires Valid()
      ensures body == Body(State().data)
    {
      Text();
      var headerEnd := Find(CString(buf[..]), HEADER_END);
      if headerEnd.Some? {
        body := Some(CString(buf[..])[headerEnd.value + 4..]);
      } else {
        body := None;
      }
    }

    /** What the news request reports to its caller. */
    method ReadNewsResult() returns (result: int)
      requires Valid()
      ensures result == NewsResult(State())
    {
      Text();
      if contentLength > 0 {
        var headerEnd := Find(CString(buf[..]), HEADER_END);
        var headerSize := if headerEnd.Some? then headerEnd.value + 4 else 0;
        return if total >= headerSize + contentLength then 0 else -1;
      }
      return if total > 0 then 0 else -1;
    }
  }

  // ---------------------------------------------------------------- responses

  function Response(header: string, body: string): string {
    header + HEADER_END + body
  }

  /** The header's first length field holds the numeral of n. */
  predicate DeclaresLength(header: string, n: nat) {
    match Find(header, LENGTH_FIELD)
    case None => false
    case Some(c) =>
      var t := header[c + |LENGTH_FIELD|..];
      && Decimal(n) <= t
      && (|Decimal(n)| < |t| ==> !IsDigit(t[|Decimal(n)|]))
  }

  /** The header's first length field is not blank and reads as v. */
  predicate Declares(header: string, v: int) {
    match Find(header, LENGTH_FIELD)
    case None => false
    case Some(c) =>
      var t := header[c + |LENGTH_FIELD|..];
      SkipSpace(t) != [] && Atoi(t) == v
  }

  /** A response without NULs whose first blank line ends the header. */
  predicate Headed(header: string, body: string) {
    && NUL !in header && NUL !in body
    && Find(header + HEADER_END, HEADER_END) == Some(|header|)
  }

  /** A response whose header declares the length of the body. */
  predicate GoodResponse(header: string, body: string) {
    Headed(header, body) && DeclaresLength(header, |body|)
  }

  lemma LengthIsDeclared(header: string, n: nat)
    requires DeclaresLength(header, n)
    ensures Declares(header, n)
  {
    hide Decimal, NumeralValue;
    var t := header[Find(header, LENGTH_FIELD).value + |LENGTH_FIELD|..];
    var d := Decimal(n);
    assert t == d + t[|d|..];
    AtoiReadsDecimal(n, t[|d|..]);
    assert IsDigit(t[0]) by { assert t[0] == d[0]; }
  }

  lemma NoNulIsText(s: string)
    requires NUL !in s
    ensures CString(s) == s
  {
    CStringIs(s, s);
  }

  /** Where a prefix of the response contains the blank line. */
  lemma HeaderEndInPrefix(header: string, body: string, k: nat)
    requires Headed(header, body) && k <= |Response(header, body)|
    ensures Find(Response(header, body)[..k], HEADER_END)
         == if |header| + 4 <= k then Some(|header|) else None
  {
    var r := Response(header, body);
    var s := r[..k];
    var h := header + HEADER_END;
    forall p | 0 <= p < |header|
      ensures !MatchAt(s, HEADER_END, p)
    {
      if MatchAt(s, HEADER_END, p) {
        MatchInPrefix(s, r[k..], HEADER_END, p);
        assert s + r[k..] == r == h + body;
        MatchInPrefix(h, body, HEADER_END, p);
        assert false;
      }
    }
    if |header| + 4 <= k {
      assert s == h + body[..k - |h|];
      assert h[|header|..] == HEADER_END;
      MatchInPrefix(h, body[..k - |h|], HEADER_END, |header|);
      FindIs(s, HEADER_END, |header|);
    } else {
      assert forall p :: |header| <= p ==> !MatchAt(s, HEADER_END, p);
    }
  }

  /** Once the header is complete the length field is found whole. */
  lemma LengthInPrefix(header: string, body: string, v: int, k: nat)
    requires Headed(header, body) && Declares(header, v) && |header| + 4 <= k <= |Response(header, body)|
    ensures var s := Response(header, body)[..k];
      var cl := Find(s, LENGTH_FIELD);
      cl.Some? && Atoi(s[cl.value + |LENGTH_FIELD|..]) == v
  {
    hide Atoi, Find, SkipSpace;
    var s := Response(header, body)[..k];
    var tail := s[|header|..];
    var c := Find(header, LENGTH_FIELD).value;
    assert s == header + tail;
    assert tail[0] == '\r';
    MatchInPrefix(header, tail, LENGTH_FIELD, c);
    forall p | 0 <= p < c
      ensures !MatchAt(s, LENGTH_FIELD, p)
    {
      MatchInPrefix(header, tail, LENGTH_FIELD, p);
    }
    FindIs(s, LENGTH_FIELD, c);
    var t := header[c + |LENGTH_FIELD|..];
    assert s[c + |LENGTH_FIELD|..] == t + tail;
    AtoiStops(t, tail);
  }

  /** The state while a response of declared length v arrives is a function of the number of bytes
      received. */
  function StateAfter(header: string, body: string, v: int, k: nat): Recv
    requires k <= |Response(header, body)|
  {
    Recv(Response(header, body)[..k], if |header| + 4 <= k then v else -1)
  }

  /** The loop has what the header promised. */
  predicate Enough(header: string, v: int, k: nat) {
    |header| + 4 <= k && |header| + 4 + v <= k
  }

  lemma ResponseText(header: string, body: string)
    requires Headed(header, body)
    ensures NUL !in Response(header, body) && |Response(header, body)| == |header| + 4 + |body|
  {
  }

  lemma StepWithinResponse(header: string, body: string, v: int, k: nat, piece: string)
    requires Headed(header, body) && Declares(header, v) && k + |piece| <= |Response(header, body)|
    requires piece == Response(header, body)[k..k + |piece|]
    ensures Step(StateAfter(header, body, v, k), piece) == StateAfter(header, body, v, k + |piece|)
    ensures Complete(StateAfter(header, body, v, k).contentLength, StateAfter(header, body, v, k).data + piece)
            <==> Enough(header, v, k + |piece|)
  {
    hide Response, Find, CString, Headed, Declares, Atoi;
    var r := Response(header, body);
    var m := k + |piece|;
    assert r[..k] + piece == r[..m];
    ResponseText(header, body);
    NoNulIsText(r[..m]);
    HeaderEndInPrefix(header, body, m);
    if |header| + 4 <= m {
      LengthInPrefix(header, body, v, m);
    }
  }

  predicate NonEmpty(pieces: seq<string>) {
    forall i :: 0 <= i < |pieces| ==> pieces[i] != []
  }

  lemma JoinEmpty(pieces: seq<string>)
    requires NonEmpty(pieces)
    ensures Join(pieces) == [] <==> pieces == []
  {
  }

  lemma FirstAndRest(pieces: seq<string>)
    requires NonEmpty(pieces) && pieces != []
    ensures pieces[0] != [] && NonEmpty(pieces[1..])
  {
  }

  lemma GoodParts(header: string, body: string)
    requires GoodResponse(header, body)
    ensures Headed(header, body) && Declares(header, |body|)
  {
    LengthIsDeclared(header, |body|);
  }

  lemma EnoughIsAll(header: string, body: string, k: nat)
    requires Headed(header, body) && k <= |Response(header, body)|
    ensures Enough(header, |body|, k) <==> k == |Response(header, body)|
  {
    ResponseText(header, body);
  }

  lemma {:induction false} ReceiveFrom(header: string, body: string, k: nat, pieces: seq<string>,
                                       more: seq<string>, size: nat)
    requires GoodResponse(header, body) && |Response(header, body)| < size
    requires NonEmpty(pieces) && k <= |Response(header, body)|
    requires Join(pieces) <= Response(header, body)[k..]
    requires more != [] ==> k + |Join(pieces)| == |Response(header, body)| && pieces != []
    ensures Receive(StateAfter(header, body, |body|, k), pieces + more, size)
         == (StateAfter(header, body, |body|, k + |Join(pieces)|), |pieces|)
    decreases |pieces|
  {
    var r := Response(header, body);
    hide GoodResponse, Headed, Declares, Response, Complete, Step, StateAfter, Receive, Enough, NonEmpty;
    GoodParts(header, body);
    var all := pieces + more;
    var state := StateAfter(header, body, |body|, k);
    if pieces == [] {
      assert all == [];
      ReceiveUnfold(state, all, size);
    } else {
      var m := k + |pieces[0]|;
      var rest := Join(pieces[1..]);
      FirstAndRest(pieces);
      JoinEmpty(pieces[1..]);
      PrefixParts(pieces[0], rest, r, k);
      StateData(header, body, |body|, k);
      StepWithinResponse(header, body, |body|, k, pieces[0]);
      EnoughIsAll(header, body, m);
      assert all[0] == pieces[0] && all[1..] == pieces[1..] + more;
      ReceiveUnfold(state, all, size);
      if m == |r| {
        assert rest == [] && pieces[1..] == [];
      } else {
        ReceiveFrom(header, body, m, pieces[1..], more, size);
      }
    }
  }

  /** Whatever length is declared, the loop ends with the bytes it was sent or with enough of them. */
  lemma {:induction false} ReceiveStops(header: string, body: string, v: int, k: nat, pieces: seq<string>, size: nat)
    returns (m: nat)
    requires Headed(header, body) && Declares(header, v) && |Response(header, body)| < size
    requires NonEmpty(pieces) && k <= |Response(header, body)| && Join(pieces) <= Response(header, body)[k..]
    ensures k <= m <= k + |Join(pieces)| <= |Response(header, body)| && (pieces != [] ==> k < m)
    ensures Receive(StateAfter(header, body, v, k), pieces, size).0 == StateAfter(header, body, v, m)
    ensures m == k + |Join(pieces)| || Enough(header, v, m)
    decreases |pieces|
  {
    hide Headed, Declares, Response, Complete, Step, StateAfter, Receive;
    var state := StateAfter(header, body, v, k);
    ReceiveUnfold(state, pieces, size);
    if pieces == [] {
      m := k;
    } else {
      m := k + |pieces[0]|;
      PrefixParts(pieces[0], Join(pieces[1..]), Response(header, body), k);
      StateData(header, body, v, k);
      StepWithinResponse(header, body, v, k, pieces[0]);
      if !Enough(header, v, m) {
        m := ReceiveStops(header, body, v, m, pieces[1..], size);
      }
    }
  }

  lemma ReceiveUnfold(r: Recv, all: seq<string>, size: nat)
    ensures all == [] ==> Receive(r, all, size) == (r, 0)
    ensures all != [] && |r.data| < size - 1 ==>
      Receive(r, all, size)
      == if Complete(r.contentLength, r.data + all[0]) then (Step(r, all[0]), 1)
         else var rest := Receive(Step(r, all[0]), all[1..], size); (rest.0, rest.1 + 1)
  {
  }

  /** Everything fits that ends up in less than the buffer. */
  lemma {:induction false} FitsIfItEndsSo(r: Recv, pieces: seq<string>, size: nat)
    requires |Receive(r, pieces, size).0.data| < size
    ensures Fits(r, pieces, size) && |r.data| <= |Receive(r, pieces, size).0.data|
    decreases |pieces|
  {
    hide Complete, LengthAfter;
    if |r.data| >= size - 1 || pieces == [] {
    } else if !Complete(r.contentLength, r.data + pieces[0]) {
      FitsIfItEndsSo(Step(r, pieces[0]), pieces[1..], size);
    }
  }

  lemma PrefixParts(a: string, b: string, r: string, k: nat)
    requires k <= |r| && a + b <= r[k..]
    ensures k + |a| <= |r| && a == r[k..k + |a|] && b <= r[k + |a|..]
  {
    assert a == (a + b)[..|a|] == r[k..][..|a|];
    assert b == (a + b)[|a|..] <= r[k..][|a|..];
    assert r[k..][|a|..] == r[k + |a|..];
  }

  lemma StateData(header: string, body: string, v: int, k: nat)
    requires k <= |Response(header, body)|
    ensures StateAfter(header, body, v, k).data == Response(header, body)[..k]
    ensures |StateAfter(header, body, v, k).data| == k
  {
  }

  /** However a response that fits the buffer is cut into non-empty pieces, the loop stops exactly
      at its end, with the whole response, its length and its body; bytes that follow stay unread. */
  lemma ChunkIndependence(header: string, body: string, pieces: seq<string>, more: seq<string>, size: nat)
    requires GoodResponse(header, body) && |Response(header, body)| < size
    requires NonEmpty(pieces) && Join(pieces) == Response(header, body)
    ensures Receive(START, pieces + more, size) == (Recv(Response(header, body), |body|), |pieces|)
    ensures Fits(START, pieces + more, size)
    ensures Body(Response(header, body)) == Some(body)
  {
    hide Receive, Find, CString;
    var r := Response(header, body);
    assert pieces != [] by { assert Join([]) == []; }
    assert r[..0] == [] && r[0..] == r && r[..|r|] == r;
    ReceiveFrom(header, body, 0, pieces, more, size);
    FitsIfItEndsSo(START, pieces + more, size);
    HeaderEndInPrefix(header, body, |r|);
    NoNulIsText(r);
    assert r[|header| + 4..] == body;
  }

  /** A response of which only a part arrives is received to that part, without an early stop and
      without reading a half-received length. */
  lemma PartialResponse(header: string, body: string, pieces: seq<string>, size: nat)
    requires GoodResponse(header, body) && |Response(header, body)| < size
    requires NonEmpty(pieces) && Join(pieces) <= Response(header, body)
    ensures Receive(START, pieces, size)
         == (Recv(Join(pieces), if |header| + 4 <= |Join(pieces)| then |body| else -1), |pieces|)
  {
    hide Receive, GoodResponse, Join;
    var r := Response(header, body);
    assert r[..0] == [] && r[0..] == r && r[..|Join(pieces)|] == Join(pieces);
    ReceiveFrom(header, body, 0, pieces, [], size);
    assert pieces + [] == pieces;
  }

  /** The body that is handed on of a response that broke off: as much of it as came, or none if the
      header did not come whole. */
  lemma PartialBody(header: string, body: string, k: nat)
    requires Headed(header, body) && k <= |Response(header, body)|
    ensures |Response(header, body)| == |header| + 4 + |body|
    ensures Body(Response(header, body)[..k])
         == if |header| + 4 <= k then Some(body[..k - (|header| + 4)]) else None
  {
    hide Find, Headed;
    ResponseText(header, body);
    HeaderEndInPrefix(header, body, k);
    NoNulIsText(Response(header, body)[..k]);
    if |header| + 4 <= k {
      assert Response(header, body)[..k][|header| + 4..] == body[..k - (|header| + 4)];
    }
  }

  /** With a declared length v, and however much of the response arrives, the news request reports
      success exactly when something arrived and v is not positive, or the header is not complete,
      or v bytes of the body are there. */
  lemma NewsResultByLength(header: string, body: string, v: int, pieces: seq<string>, size: nat)
    requires Headed(header, body) && Declares(header, v) && |Response(header, body)| < size
    requires NonEmpty(pieces) && Join(pieces) <= Response(header, body)
    ensures var n := |Join(pieces)|;
      NewsResult(Receive(START, pieces, size).0) == 0
      <==> 0 < n && (v <= 0 || n < |header| + 4 || |header| + 4 + v <= n)
  {
    hide Headed, Declares, Receive, NewsResult, Response;
    var r := Response(header, body);
    assert r[..0] == [] && r[0..] == r;
    assert START == StateAfter(header, body, v, 0);
    var m := ReceiveStops(header, body, v, 0, pieces, size);
    NewsResultOfPrefix(header, body, v, m);
    JoinEmpty(pieces);
  }

  lemma NewsResultOfPrefix(header: string, body: string, v: int, k: nat)
    requires Headed(header, body) && k <= |Response(header, body)|
    ensures NewsResult(StateAfter(header, body, v, k)) == 0
            <==> 0 < k && (v <= 0 || k < |header| + 4 || |header| + 4 + v <= k)
  {
    hide Find, Headed;
    ResponseText(header, body);
    HeaderEndInPrefix(header, body, k);
    NoNulIsText(Response(header, body)[..k]);
  }

  /** With the body's own length declared, success is reported exactly for a whole response and for
      a download that broke off inside the header. */
  lemma NewsResultExactly(header: string, body: string, pieces: seq<string>, size: nat)
    requires GoodResponse(header, body) && |Response(header, body)| < size
    requires NonEmpty(pieces) && Join(pieces) <= Response(header, body)
    ensures NewsResult(Receive(START, pieces, size).0) == 0
            <==> Join(pieces) == Response(header, body) || 0 < |Join(pieces)| < |header| + 4
  {
    hide GoodResponse, Headed, Declares, Receive, NewsResult, Response;
    GoodParts(header, body);
    ResponseText(header, body);
    NewsResultByLength(header, body, |body|, pieces, size);
    var r, s := Response(header, body), Join(pieces);
    assert s == r[..|s|] && (|s| == |r| ==> s == r);
  }

  /** Without a length field any received byte counts as success, wherever the body breaks off. */
  lemma NewsResultWithoutLength(pieces: seq<string>, size: nat)
    requires NUL !in Join(pieces) && Find(Join(pieces), LENGTH_FIELD).None? && |Join(pieces)| < size
    ensures Receive(START, pieces, size).0 == Recv(Join(pieces), -1)
    ensures NewsResult(Receive(START, pieces, size).0) == 0 <==> Join(pieces) != []
  {
    assert [] + Join(pieces) == Join(pieces);
    ReceiveAll([], pieces, size);
  }

  lemma {:induction false} ReceiveAll(data: string, pieces: seq<string>, size: nat)
    requires NUL !in data + Join(pieces) && Find(data + Join(pieces), LENGTH_FIELD).None?
    requires |data + Join(pieces)| < size
    ensures Receive(Recv(data, -1), pieces, size).0 == Recv(data + Join(pieces), -1)
    decreases |pieces|
  {
    hide Find, CString, Receive;
    ReceiveUnfold(Recv(data, -1), pieces, size);
    if pieces == [] {
      assert data + Join(pieces) == data;
    } else {
      var now := data + pieces[0];
      var rest := Join(pieces[1..]);
      assert data + Join(pieces) == now + rest;
      NoNulIsText(now);
      NoneInPrefix(now, rest, LENGTH_FIELD);
      if |data| < size - 1 {
        ReceiveAll(now, pieces[1..], size);
      } else {
        assert pieces[0] == [] && rest == [] && now == data;
        ReceiveFull(Recv(data, -1), pieces, size);
      }
    }
  }

  lemma ReceiveFull(r: Recv, pieces: seq<string>, size: nat)
    requires |r.data| >= size - 1
    ensures Receive(r, pieces, size) == (r, 0)
  {
  }

  lemma NoneInPrefix(s: string, t: string, pattern: string)
    requires Find(s + t, pattern).None?
    ensures Find(s, pattern).None?
  {
    var r := Find(s, pattern);
    if r.Some? {
      MatchInPrefix(s, t, pattern, r.value);
    }
  }

  /** A length is read once: what is received after it cannot change it. */
  lemma {:induction false} LengthReadOnce(r: Recv, pieces: seq<string>, size: nat)
    requires 0 <= r.contentLength
    ensures Receive(r, pieces, size).0.contentLength == r.contentLength
    decreases |pieces|
  {
    hide Complete, Find;
    if |r.data| >= size - 1 || pieces == [] {
    } else {
      LengthReadOnce(Step(r, pieces[0]), pieces[1..], size);
    }
  }

  /** The firmware's two buffers: responses of up to 3071 and 5119 bytes are received whole. */
  lemma FirmwareBuffers(header: string, body: string, pieces: seq<string>, more: seq<string>)
    requires GoodResponse(header, body) && NonEmpty(pieces) && Join(pieces) == Response(header, body)
    ensures |Response(header, body)| <= 3071 ==>
      Receive(START, pieces + more, INFO_BUFFER) == (Recv(Response(header, body), |body|), |pieces|)
    ensures |Response(header, body)| <= 5119 ==>
      Receive(START, pieces + more, NEWS_BUFFER) == (Recv(Response(header, body), |body|), |pieces|)
  {
    hide Receive, GoodResponse, Response, Join;
    if |Response(header, body)| <= 3071 {
      ChunkIndependence(header, body, pieces, more, INFO_BUFFER);
    }
    if |Response(header, body)| <= 5119 {
      ChunkIndependence(header, body, pieces, more, NEWS_BUFFER);
    }
  }

  /** And they hold no more: once all but one byte is filled, nothing further is read. */
  lemma FullBuffer(data: string, contentLength: int, pieces: seq<string>)
    ensures |data| == 3071 ==> Receive(Recv(data, contentLength), pieces, INFO_BUFFER) == (Recv(data, contentLength), 0)
    ensures |data| == 5119 ==> Receive(Recv(data, contentLength), pieces, NEWS_BUFFER) == (Recv(data, contentLength), 0)
  {
  }

  /** One byte of a header counts as a successful download, against the remark beside the return
      statement that success needs the full content. */
  lemma BrokenHeaderSucceeds()
    ensures var r := Receive(START, ["H"], NEWS_BUFFER).0;
      NewsResult(r) == 0 && Body(r.data) == None
  {
    var r := START.data + "H";
    assert r == "H";
    NoNulIsText("H");
    assert Find("H", HEADER_END) == None;
  }

  /** When only the body holds a length field, the result is no function of the bytes: one stream
      of 22 bytes fails in one piece and succeeds in two. */
  lemma LengthInBodyDependsOnCut()
    ensures var one, two := "\r\n\r\nContent-Length: 99", ["\r\n\r\nContent-Length: 9", "9"];
      && Join([one]) == Join(two)
      && NewsResult(Receive(START, [one], NEWS_BUFFER).0) == -1
      && NewsResult(Receive(START, two, NEWS_BUFFER).0) == 0
  {
    hide Receive, NewsResult, Find, CString, LengthAfter, Decimal;
    var one, cut := "\r\n\r\nContent-Length: 99", "\r\n\r\nContent-Length: 9";
    assert one == HEADER_END + LENGTH_FIELD + "99" && cut == HEADER_END + LENGTH_FIELD + "9";
    Nines();
    LengthInBody("99", 99);
    LengthInBody("9", 9);
    OneLength(one, [], 99);
    OneLength(cut, ["9"], 9);
    assert [one] + [] == [one] && [cut] + ["9"] == [cut, "9"];
    JoinTwo(cut, "9");
  }

  lemma Nines()
    ensures Decimal(9) == "9" && Decimal(99) == "99"
  {
    assert DigitOf(9) == '9';
    assert Decimal(99) == Decimal(9) + [DigitOf(9)];
  }

  lemma JoinTwo(a: string, b: string)
    ensures Join([a, b]) == a + b == Join([a + b])
  {
    assert [a, b][1..] == [b] && [b][1..] == [] && [a + b][1..] == [];
    assert Join([b]) == b + [] == b;
  }

  lemma OneLength(s: string, more: seq<string>, n: nat)
    requires 0 < n && CString(s) == s && s != [] && (|s| < 4 + n ==> more == [])
    requires Find(s, HEADER_END) == Some(0) && Find(s, LENGTH_FIELD) == Some(4) && LengthAfter(-1, s) == n
    ensures NewsResult(Receive(START, [s] + more, NEWS_BUFFER).0) == if |s| < 4 + n then -1 else 0
  {
    hide Find, CString, LengthAfter;
    assert ([s] + more)[1..] == more && START.data + s == s;
  }

  lemma LengthInBody(digits: string, n: nat)
    requires digits == Decimal(n)
    ensures var s := HEADER_END + LENGTH_FIELD + digits;
      && CString(s) == s
      && Find(s, HEADER_END) == Some(0) && Find(s, LENGTH_FIELD) == Some(4)
      && LengthAfter(-1, s) == n
  {
    var s := HEADER_END + LENGTH_FIELD + digits;
    NoNulIsText(s);
    assert s[0..4] == HEADER_END && s[4..20] == LENGTH_FIELD;
    FindIs(s, HEADER_END, 0);
    forall p | 0 <= p < 4
      ensures !MatchAt(s, LENGTH_FIELD, p)
    {
      if MatchAt(s, LENGTH_FIELD, p) {
        PatternSpelled(s, LENGTH_FIELD, p);
      }
    }
    FindIs(s, LENGTH_FIELD, 4);
    assert s[20..] == digits + [];
    AtoiReadsDecimal(n, []);
  }

  const STATUS_LINE := "HTTP/1.0 200 OK\r\n"

  /** The plainest header the framing theorems speak of: a status line and the length field. */
  function PlainHeader(n: nat): string {
    STATUS_LINE + LENGTH_FIELD + Decimal(n)
  }

  lemma PlainHeaderChars(n: nat, p: nat)
    requires p < |PlainHeader(n)|
    ensures PlainHeader(n)[p] == '\r' <==> p == 15
    ensures p < 17 ==> PlainHeader(n)[p] != 'C'
    ensures PlainHeader(n)[p] != NUL
  {
    if 33 <= p {
      assert PlainHeader(n)[p] == Decimal(n)[p - 33];
    }
  }

  lemma PatternSpelled(s: string, pattern: string, p: nat)
    requires MatchAt(s, pattern, p) && 4 <= |pattern|
    ensures s[p] == pattern[0] && s[p + 2] == pattern[2] && s[p + 3] == pattern[3]
  {
    var m := s[p..p + |pattern|];
    assert s[p] == m[0] && s[p + 2] == m[2] && s[p + 3] == m[3];
  }

  /** Every body without NULs has a good response, so the framing theorems are not empty. */
  lemma PlainResponseIsGood(body: string)
    requires NUL !in body
    ensures GoodResponse(PlainHeader(|body|), body)
  {
    var h := PlainHeader(|body|);
    forall p | 0 <= p < |h|
      ensures h[p] != NUL && (h[p] == '\r' <==> p == 15) && (p < 17 ==> h[p] != 'C')
    {
      PlainHeaderChars(|body|, p);
    }
    var r := h + HEADER_END;
    forall p | 0 <= p < |h|
      ensures !MatchAt(r, HEADER_END, p)
    {
      if MatchAt(r, HEADER_END, p) {
        PatternSpelled(r, HEADER_END, p);
      }
    }
    assert r[|h|..|h| + 4] == HEADER_END;
    FindIs(r, HEADER_END, |h|);
    forall p | 0 <= p < 17
      ensures !MatchAt(h, LENGTH_FIELD, p)
    {
      if MatchAt(h, LENGTH_FIELD, p) {
        PatternSpelled(h, LENGTH_FIELD, p);
      }
    }
    assert h[17..33] == LENGTH_FIELD;
    FindIs(h, LENGTH_FIELD, 17);
    assert h[33..] == Decimal(|body|);
  }
}
