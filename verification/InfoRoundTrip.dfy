/** The proxy's `/info` object, printed and scanned back into the struct, and its epoch read back
    from the digits. */
module InfoRoundTrip {
  import opened CText
  import opened Json
  import opened JsonReader
  import opened InfoScanner

  // ---------------------------------------------------------------- the digit loop

  /** The digit loop of the date screen.  `peak` is the largest value it ever computes. */
  method ReadEpoch(field: seq<char>) returns (epoch: nat, ghost peak: nat)
    requires NUL in field
    ensures epoch == NumeralValue(DigitPrefix(CString(field)))
    ensures peak == epoch
  {
    epoch, peak := 0, 0;
    var i := 0;
    ghost var end := |CString(field)|;
    NulEndsText(field);
    assert field[end] == NUL;
    while '0' <= field[i] <= '9'
      invariant i <= end
      invariant AllDigits(field[..i]) && epoch == NumeralValue(field[..i]) && peak == epoch
      decreases end - i
    {
      assert field[..i + 1][..i] == field[..i];
      peak := if peak < epoch * 10 then epoch * 10 else peak;
      epoch := epoch * 10 + (field[i] as int - '0' as int);
      peak := if peak < epoch then epoch else peak;
      i := i + 1;
    }
    var digits, text := field[..i], CString(field);
    assert text == digits + text[i..];
    DigitPrefixIs(digits, text[i..]);
  }

  lemma NulEndsText(field: seq<char>)
    requires NUL in field
    ensures |CString(field)| < |field| && field[|CString(field)|] == NUL
  {
    var t := CString(field);
    assert forall i :: 0 <= i < |t| ==> field[i] == t[i] != NUL;
  }

  // ---------------------------------------------------------------- the proxy's object

  datatype InfoDoc = InfoDoc(epoch: nat, weekday: string, day: string, month: string, clock: string, ip: Json,
                             city: Json, country: Json, latitude: Json, longitude: Json,
                             weather: Json, temperature: Json)

  predicate ValidDoc(d: InfoDoc) {
    && IsScalar(d.ip) && IsScalar(d.city) && IsScalar(d.country) && IsScalar(d.latitude)
    && IsScalar(d.longitude) && IsScalar(d.weather) && IsScalar(d.temperature)
  }

  function Members(d: InfoDoc): seq<Member> {
    [ Member("unix_epoch", Literal(Decimal(d.epoch))),
      Member("weekday", Str(d.weekday)),
      Member("day", Str(d.day)),
      Member("month", Str(d.month)),
      Member("time", Str(d.clock)),
      Member("ip", d.ip),
      Member("city", d.city),
      Member("country", d.country),
      Member("latitude", d.latitude),
      Member("longitude", d.longitude),
      Member("weather", d.weather),
      Member("temperature_celsius", d.temperature) ]
  }

  function InfoBody(d: InfoDoc): string {
    PrintJson(Obj(Members(d)))
  }

  /** The value the proxy puts in a field of the struct. */
  function FieldValue(d: InfoDoc, f: nat): Json
    requires f < FIELDS
  {
    match f
    case 0 => d.city
    case 1 => d.country
    case 2 => d.weather
    case 3 => d.temperature
    case 4 => d.latitude
    case 5 => d.longitude
    case _ => Literal(Decimal(d.epoch))
  }

  /** Where the proxy's object holds a field of the struct. */
  function Position(f: nat): nat
    requires f < FIELDS
  {
    match f
    case 0 => 6
    case 1 => 7
    case 2 => 10
    case 3 => 11
    case 4 => 8
    case 5 => 9
    case _ => 0
  }

  lemma DecimalIsLiteral(n: nat)
    ensures IsLiteral(Decimal(n))
  {
  }

  lemma MembersScalar(d: InfoDoc)
    requires ValidDoc(d)
    ensures |Members(d)| == 12 && ScalarMembers(Members(d))
  {
    DecimalIsLiteral(d.epoch);
  }

  lemma NameWords(i: nat, d: InfoDoc)
    requires i < 12
    ensures IsWord(Members(d)[i].name)
  {
  }

  lemma WordHasNoQuote(name: string)
    requires IsWord(name)
    ensures '"' !in name
  {
  }

  lemma NamesDiffer(d: InfoDoc, f: nat, j: nat)
    requires f < FIELDS && j < Position(f)
    ensures !Answers(Members(d)[j].name, Name(f))
  {
    NameWords(j, d);
    WordHasNoQuote(Members(d)[j].name);
    QuoteFreeAnswers(Members(d)[j].name, Name(f));
    hide Answers, IsWord;
    var a, b := Members(d)[j].name, Name(f);
    if |a| == |b| {
      assert a[0] != b[0] || a[2] != b[2];
    }
  }

  lemma NameAtPosition(d: InfoDoc, f: nat)
    requires f < FIELDS
    ensures Members(d)[Position(f)] == Member(Name(f), FieldValue(d, f))
    ensures IsWord(Name(f)) && Answers(Name(f), Name(f))
  {
    NameWords(Position(f), d);
    AnswersMeans(Name(f), Name(f));
  }

  /** Every field is scanned to the value the proxy printed, as far as its first quote and cut to
      31 characters, whatever the other strings of the object contain. */
  lemma FieldRoundTrip(d: InfoDoc, f: nat)
    requires ValidDoc(d) && f < FIELDS
    ensures IsScalar(FieldValue(d, f))
    ensures ScanField(InfoBody(d), Name(f)) == Some(Cut(Shown(FieldValue(d, f)), INFO_STR_LEN - 1))
  {
    MembersScalar(d);
    NameAtPosition(d, f);
    forall j | 0 <= j < Position(f)
      ensures !Answers(Members(d)[j].name, Name(f))
    {
      NamesDiffer(d, f, j);
    }
    hide Members, Name, FieldValue, ScanField, PrintJson, Answers;
    ScanMember(Members(d), Name(f), Position(f));
  }

  predicate IsDumped(j: Json) {
    (j.Literal? && IsLiteral(j.text)) || j.Str?
  }

  /** The body is JSON, and reads back to the proxy's object. */
  lemma BodyReadsBack(d: InfoDoc)
    requires && IsDumped(d.ip) && IsDumped(d.city) && IsDumped(d.country) && IsDumped(d.latitude)
             && IsDumped(d.longitude) && IsDumped(d.weather) && IsDumped(d.temperature)
    ensures ReadJson(InfoBody(d)) == Some(Obj(Members(d)))
  {
    DecimalIsLiteral(d.epoch);
    var members := Members(d);
    assert forall i :: 0 <= i < |members| ==> Dumped(members[i].value);
    hide Members;
    PrintReadsBack(Obj(Members(d)));
  }

  lemma BodyIsText(d: InfoDoc)
    requires ValidDoc(d)
    ensures NUL !in InfoBody(d)
  {
    MembersScalar(d);
    DocumentWellFormed(Obj(Members(d)));
    PrintedHasNoNul(Emit(Obj(Members(d)), []));
  }

  /** After a parse of the proxy's object, the fields of the struct hold its values. */
  lemma StructHoldsObject(d: InfoDoc, cells: seq<char>, f: nat)
    requires ValidDoc(d) && |cells| == INFO_CELLS && f < FIELDS
    ensures IsScalar(FieldValue(d, f))
    ensures FieldText(Apply(cells, ParseWrites(InfoBody(d))), f) == Cut(Shown(FieldValue(d, f)), INFO_STR_LEN - 1)
  {
    FieldRoundTrip(d, f);
    BodyIsText(d);
    ParseEffect(cells, InfoBody(d), f);
  }

  /** The struct byte by byte: which value of the proxy's object stands where. */
  lemma StructLayout(d: InfoDoc, cells: seq<char>)
    requires ValidDoc(d) && |cells| == INFO_CELLS
    ensures var after := Apply(cells, ParseWrites(InfoBody(d)));
      && |after| == 225 && after[224] as int == 1
      && CString(after[0..32]) == Cut(Shown(d.city), 31)
      && CString(after[32..64]) == Cut(Shown(d.country), 31)
      && CString(after[64..96]) == Cut(Shown(d.weather), 31)
      && CString(after[96..128]) == Cut(Shown(d.temperature), 31)
      && CString(after[128..160]) == Cut(Shown(d.latitude), 31)
      && CString(after[160..192]) == Cut(Shown(d.longitude), 31)
      && CString(after[192..224]) == Cut(Decimal(d.epoch), 31)
  {
    var after := Apply(cells, ParseWrites(InfoBody(d)));
    forall f | 0 <= f < 7
      ensures IsScalar(FieldValue(d, f)) && FieldText(after, f) == Cut(Shown(FieldValue(d, f)), 31)
    {
      StructHoldsObject(d, cells, f);
    }
    BodyIsText(d);
    ParseEffect(cells, InfoBody(d), 0);
    hide Apply, ParseWrites, InfoBody, CString, Shown, Cut;
    FieldsApart(after);
    LiteralShown(Decimal(d.epoch));
  }

  lemma LiteralShown(text: string)
    requires IsLiteral(text)
    ensures Shown(Literal(text)) == text
  {
  }

  lemma FieldsApart(cells: seq<char>)
    requires |cells| == INFO_CELLS
    ensures FieldText(cells, 0) == CString(cells[0..32]) && FieldText(cells, 1) == CString(cells[32..64])
    ensures FieldText(cells, 2) == CString(cells[64..96]) && FieldText(cells, 3) == CString(cells[96..128])
    ensures FieldText(cells, 4) == CString(cells[128..160]) && FieldText(cells, 5) == CString(cells[160..192])
    ensures FieldText(cells, 6) == CString(cells[192..224])
  {
  }

  /** Unescaped strings come back as they are, cut to 31 characters. */
  lemma PlainFieldComesBack(d: InfoDoc, cells: seq<char>, f: nat, content: string)
    requires ValidDoc(d) && |cells| == INFO_CELLS && f < FIELDS
    requires FieldValue(d, f) == Str(content) && NeedsNoEscape(content)
    ensures FieldText(Apply(cells, ParseWrites(InfoBody(d))), f) == if |content| <= 31 then content else content[..31]
  {
    StructHoldsObject(d, cells, f);
    ShownUnescaped(content);
  }

  /** The epoch field holds the decimal digits of the epoch, and the digits read back to it. */
  lemma EpochComesBack(d: InfoDoc, cells: seq<char>)
    requires ValidDoc(d) && |cells| == INFO_CELLS && d.epoch <= 0x7fff_ffff
    ensures var field := FieldText(Apply(cells, ParseWrites(InfoBody(d))), UNIX_EPOCH);
      && field == Decimal(d.epoch)
      && DigitPrefix(field) == field
      && NumeralValue(field) == d.epoch
      && forall i :: 0 <= i <= |field| ==> NumeralValue(field[..i]) <= 0x7fff_ffff
  {
    hide Apply, ParseWrites, FieldText;
    StructHoldsObject(d, cells, UNIX_EPOCH);
    DecimalLength(d.epoch, 10) by { TenDigits(); }
    var field := Decimal(d.epoch);
    DecimalReadsBack(d.epoch);
    DigitPrefixIs(field, []);
    assert field + [] == field;
    forall i | 0 <= i <= |field|
      ensures NumeralValue(field[..i]) <= 0x7fff_ffff
    {
      NumeralPrefixSmaller(field, i);
    }
  }

  lemma TenDigits()
    ensures 0x7fff_ffff < PowerOfTen(10)
  {
    assert PowerOfTen(5) == 100000;
    assert PowerOfTen(10) == 100000 * PowerOfTen(5);
  }

  /** A JSON object that holds only an error message changes none of the seven fields. */
  lemma ErrorBodyKeepsFields(message: string, cells: seq<char>, f: nat)
    requires |cells| == INFO_CELLS && f < FIELDS
    ensures var after := Apply(cells, ParseWrites(PrintJson(Obj([Member("error", Str(message))]))));
      FieldCells(after, f) == FieldCells(cells, f) && after[READY_CELL] == READY
  {
    var members := [Member("error", Str(message))];
    assert ScalarMembers(members);
    NoFieldIsError(f);
    ScanNoMember(members, Name(f));
    DocumentWellFormed(Obj(members));
    PrintedHasNoNul(Emit(Obj(members), []));
    ParseEffect(cells, PrintJson(Obj(members)), f);
  }

  lemma NoFieldIsError(f: nat)
    requires f < FIELDS
    ensures !Answers("error", Name(f)) && IsWord(Name(f))
  {
    QuoteFreeAnswers("error", Name(f));
    assert |Name(f)| != |"error"|;
  }
}
