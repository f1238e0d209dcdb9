/** Sensor records as text: what the uploader prints, what the UDP handler accepts, and the
    JSON body of an upload. */
module RecordText {
  import opened Records
  import opened CText
  import opened NumberTexts

  // ---------- the UDP handler's parse dispatch ----------

  /** strstr: the text from the first occurrence on, if there is one. */
  function Find(t: string, pattern: string): (r: Option<string>)
    ensures r.Some? ==> pattern <= r.value && |r.value| <= |t|
  {
    if pattern <= t then Some(t)
    else if t == "" then None
    else Find(t[1..], pattern)
  }

  const COMMA_FORMAT: seq<Directive> := [Unsigned, Literal(','), Double]
  const BLANK_FORMAT: seq<Directive> := [Unsigned, Blank, Double]

  /** `{"id":%u, "data":%lf}` */
  function JsonFormat(): seq<Directive> {
    Literals("{\"id\":") + ([Unsigned] + ([Literal(',')] + ([Blank] + DataFormat())))
  }

  function DataFormat(): seq<Directive> {
    Literals("\"data\":") + ([Double] + ([Literal('}')] + []))
  }

  /** The value an unchecked `sscanf(s, "%lf", &v)` leaves in a `v` that starts at 0. */
  function DoubleOrZero(s: string): real {
    match ScanDouble(s)
    case Some((d, _)) => d.Value()
    case None => 0.0
  }

  /** Both items assigned: sscanf returned 2. */
  predicate Took(r: ScanResult) {
    |r.items| == 2 && r.items[0].U? && r.items[1].D?
  }

  function RecordOf(r: ScanResult): Record
    requires Took(r)
  {
    Record(r.items[0].value % 0x1_0000_0000, r.items[1].decimal.Value())
  }

  const TEMPERATURE_ID: Uint32 := 16790
  const HUMIDITY_ID: Uint32 := 16789

  /** The first format that assigned both items wins. */
  function FirstTaken(comma: ScanResult, blank: ScanResult, json: ScanResult): seq<Record> {
    if Took(comma) then [RecordOf(comma)]
    else if Took(blank) then [RecordOf(blank)]
    else if Took(json) then [RecordOf(json)]
    else []
  }

  function SingleReading(t: string): seq<Record> {
    FirstTaken(Scan(COMMA_FORMAT, t), Scan(BLANK_FORMAT, t), Scan(JsonFormat(), t))
  }

  function BothReadings(temp: string, hum: string): seq<Record>
    requires 7 <= |temp| && 6 <= |hum|
  {
    [Record(TEMPERATURE_ID, DoubleOrZero(temp[7..])), Record(HUMIDITY_ID, DoubleOrZero(hum[6..]))]
  }

  /** The readings the handler takes from a datagram, in the order it enqueues them. */
  function Readings(t: string): (rs: seq<Record>)
    ensures |rs| <= 2
  {
    var temp, hum := Find(t, "\"temp\":"), Find(t, "\"hum\":");
    if temp.Some? && hum.Some? then BothReadings(temp.value, hum.value) else SingleReading(t)
  }

  // ---------- the uploader's printer ----------

  /** A record whose value has six decimals, as `%f` prints it. */
  datatype Entry = Entry(id: Uint32, value: Fixed)

  /** `{"id":%u, "data":%f}`, followed by `rest`. */
  function PrintEntryThen(e: Entry, rest: string): string {
    "{\"id\":" + (PrintNat(e.id) + ("," + (" " + PrintDataThen(e.value, rest))))
  }

  function PrintDataThen(v: Fixed, rest: string): string {
    "\"data\":" + (PrintFixed(v) + ("}" + rest))
  }

  function PrintEntry(e: Entry): string {
    PrintEntryThen(e, "")
  }

  lemma PrintEntryConcat(e: Entry, rest: string)
    ensures PrintEntry(e) + rest == PrintEntryThen(e, rest)
  {
  }

  lemma Concat(a: string, b: string, c: string)
    ensures a + b + c == a + (b + c)
    ensures b == "" ==> a + b == a && b + c == c
  {
  }

  function Scanned(v: Fixed): Decimal {
    Decimal(v.negative, v.micros, -6)
  }

  lemma ScanData(v: Fixed, rest: string)
    ensures Scan(DataFormat(), PrintDataThen(v, rest)) == ScanResult([D(Scanned(v))], true, rest)
  {
    ScanPrintedFixed(v, "}" + rest);
    ScanValue(PrintFixed(v), Scanned(v), rest);
  }

  lemma ScanValue(number: string, d: Decimal, rest: string)
    requires ScanDouble(number + ("}" + rest)) == Some((d, "}" + rest))
    ensures Scan(DataFormat(), "\"data\":" + (number + ("}" + rest))) == ScanResult([D(d)], true, rest)
  {
    var t := number + ("}" + rest);
    ScanLiterals("\"data\":", [Double] + ([Literal('}')] + []), t);
    ScanNumber([Literal('}')] + [], t, d, "}" + rest);
    ScanBrace(rest);
  }

  lemma ScanNumber(fmt: seq<Directive>, t: string, d: Decimal, u: string)
    requires ScanDouble(t) == Some((d, u))
    ensures Scan([Double] + fmt, t) == Prepend(D(d), Scan(fmt, u))
  {
    ScanHead(Double, fmt, t);
  }

  lemma ScanBrace(rest: string)
    ensures Scan([Literal('}')] + [], "}" + rest) == ScanResult([], true, rest)
  {
    ScanLiteral('}', [], rest);
  }

  lemma SkipOneSpace(v: Fixed, rest: string)
    ensures SkipSpace(" " + PrintDataThen(v, rest)) == PrintDataThen(v, rest)
  {
  }

  /** Scanning a printed entry takes exactly its text and both its numbers. */
  lemma ScanEntry(e: Entry, rest: string)
    ensures Scan(JsonFormat(), PrintEntry(e) + rest)
            == ScanResult([U(e.id), D(Scanned(e.value))], true, rest)
  {
    var afterId := "," + (" " + PrintDataThen(e.value, rest));
    PrintEntryConcat(e, rest);
    ScanLiterals("{\"id\":", [Unsigned] + ([Literal(',')] + ([Blank] + DataFormat())), PrintNat(e.id) + afterId);
    ScanHead(Unsigned, [Literal(',')] + ([Blank] + DataFormat()), PrintNat(e.id) + afterId);
    ScanPrintedNat(e.id, afterId);
    ScanLiteral(',', [Blank] + DataFormat(), " " + PrintDataThen(e.value, rest));
    ScanHead(Blank, DataFormat(), " " + PrintDataThen(e.value, rest));
    SkipOneSpace(e.value, rest);
    ScanData(e.value, rest);
  }

  // ---------- printer and parser undo each other ----------

  /** strstr returns the suffix at the first occurrence, and none only if there is none. */
  lemma {:induction false} FindIsFirst(t: string, pattern: string)
    ensures match Find(t, pattern)
            case Some(u) =>
              var k := |t| - |u|;
              0 <= k && t[k..] == u && pattern <= u && forall j :: 0 <= j < k ==> !(pattern <= t[j..])
            case None => forall j :: 0 <= j <= |t| ==> !(pattern <= t[j..])
  {
    if pattern <= t {
      assert t[0..] == t;
    } else if t != "" {
      FindIsFirst(t[1..], pattern);
      assert t[0..] == t && forall j :: 0 < j <= |t| ==> t[j..] == t[1..][j - 1..];
    }
  }

  lemma {:induction false} FindNeedsEveryCharacter(t: string, pattern: string, c: char)
    requires c in pattern && c !in t
    ensures Find(t, pattern) == None
  {
    if t != "" { FindNeedsEveryCharacter(t[1..], pattern, c); }
  }

  lemma EntryHasNo(e: Entry, c: char)
    requires c == 'm' || c == '\0'
    ensures c !in PrintEntry(e)
  {
    assert c !in PrintNat(e.id);
    assert c !in PrintMicros(e.value.micros);
    assert c !in PrintFixed(e.value);
    assert c !in PrintDataThen(e.value, "");
  }

  lemma BraceIsNoNumber(t: string, fmt: seq<Directive>)
    requires t != "" && t[0] == '{'
    ensures Scan([Unsigned] + fmt, t).items == []
  {
  }

  /** The text of an entry is not taken by the temp/hum branch, nor by the first two formats. */
  lemma EntryReachesJsonFormat(e: Entry)
    ensures Find(PrintEntry(e), "\"temp\":") == None && Find(PrintEntry(e), "\"hum\":") == None
    ensures Scan(COMMA_FORMAT, PrintEntry(e)).items == [] && Scan(BLANK_FORMAT, PrintEntry(e)).items == []
  {
    var t := PrintEntry(e);
    EntryHasNo(e, 'm');
    assert "\"temp\":"[3] == 'm' && "\"hum\":"[3] == 'm';
    FindNeedsEveryCharacter(t, "\"temp\":", 'm');
    FindNeedsEveryCharacter(t, "\"hum\":", 'm');
    BraceIsNoNumber(t, [Literal(','), Double]);
    BraceIsNoNumber(t, [Blank, Double]);
    assert COMMA_FORMAT == [Unsigned] + [Literal(','), Double];
    assert BLANK_FORMAT == [Unsigned] + [Blank, Double];
  }

  lemma JsonFormatReadsEntry(e: Entry)
    ensures Scan(JsonFormat(), PrintEntry(e)).items == [U(e.id), D(Scanned(e.value))]
  {
    ScanEntry(e, "");
    Concat(PrintEntry(e), "", "");
  }

  lemma TakenByJsonFormat(comma: ScanResult, blank: ScanResult, json: ScanResult, id: Uint32, d: Decimal)
    requires comma.items == [] && blank.items == [] && json.items == [U(id), D(d)]
    ensures FirstTaken(comma, blank, json) == [Record(id, d.Value())]
  {
  }

  /** The handler reads every printed entry back with the same id and the same value. */
  lemma HandlerReadsPrintedEntry(e: Entry)
    ensures Readings(PrintEntry(e)) == [Record(e.id, e.value.Value())]
  {
    EntryReachesJsonFormat(e);
    JsonFormatReadsEntry(e);
    FixedAsDecimal(e.value);
    var t := PrintEntry(e);
    TakenByJsonFormat(Scan(COMMA_FORMAT, t), Scan(BLANK_FORMAT, t), Scan(JsonFormat(), t), e.id, Scanned(e.value));
  }

  // ---------- everything the handler accepts ----------

  const TEMP: string := "\"temp\":"
  const HUM: string := "\"hum\":"

  lemma NumberHasNo(n: NumberText, c: char)
    requires n.Valid() && (c == '"' || c == 'm' || c == ',')
    ensures c !in n.Text()
  {
    assert c !in n.blanks && c !in n.sign && c !in n.whole && c !in n.frac;
    assert c !in PointPart(n.point, n.frac);
    assert c !in n.ExponentPart();
    assert c !in n.Magnitude();
  }

  /** `%u` as the first directive of a format. */
  lemma ScanLeadingId(fmt: seq<Directive>, blanks: string, sign: string, digits: string, tail: string)
    requires AllBlank(blanks) && IsSign(sign) && digits != "" && AllDigits(digits)
    requires tail == "" || !IsDigit(tail[0])
    ensures Scan([Unsigned] + fmt, blanks + (sign + (digits + tail)))
            == Prepend(U(UnsignedOf(sign == "-", NatOf(digits))), Scan(fmt, tail))
  {
    ScanUnsignedText(blanks, sign, digits, tail);
    ScanHead(Unsigned, fmt, blanks + (sign + (digits + tail)));
  }

  lemma ScanMismatch(c: char, fmt: seq<Directive>, t: string)
    requires t == "" || t[0] != c
    ensures Scan([Literal(c)] + fmt, t) == ScanResult([], false, t)
  {
    ScanHead(Literal(c), fmt, t);
  }

  /** The id of a reading as text: blanks, a sign and digits. */
  datatype IdText = IdText(blanks: string, sign: string, digits: string) {
    predicate Valid() {
      AllBlank(blanks) && IsSign(sign) && digits != "" && AllDigits(digits)
    }

    function Then(tail: string): string {
      blanks + (sign + (digits + tail))
    }

    /** The 32-bit id it denotes. */
    function Id(): Uint32
      requires Valid()
    {
      UnsignedMeans(sign == "-", NatOf(digits));
      UnsignedOf(sign == "-", NatOf(digits))
    }
  }

  lemma IdHasNo(i: IdText, tail: string, c: char)
    requires i.Valid() && (c == '"' || c == 'm') && c !in tail
    ensures c !in i.Then(tail)
  {
    assert c !in i.blanks && c !in i.sign && c !in i.digits;
  }

  lemma OneKeyMissing(t: string)
    requires 'm' !in t
    ensures Readings(t) == SingleReading(t)
  {
    assert TEMP[3] == 'm';
    FindNeedsEveryCharacter(t, TEMP, 'm');
  }

  /** `id,value`: any id text, any number text, anything that does not prolong it. */
  lemma HandlerReadsComma(i: IdText, n: NumberText, tail: string)
    requires i.Valid() && n.Valid() && n.Ends(tail) && 'm' !in tail
    ensures Readings(i.Then("," + (n.Text() + tail))) == [Record(i.Id(), n.Number())]
  {
    var t := i.Then("," + (n.Text() + tail));
    NumberHasNo(n, 'm');
    IdHasNo(i, "," + (n.Text() + tail), 'm');
    OneKeyMissing(t);
    var d := ScanNumberText(n, tail);
    CommaItems(i, n.Text() + tail, d, tail);
    TakenByCommaFormat(Scan(COMMA_FORMAT, t), Scan(BLANK_FORMAT, t), Scan(JsonFormat(), t), i.Id(), d);
  }

  lemma CommaItems(i: IdText, number: string, d: Decimal, tail: string)
    requires i.Valid() && ScanDouble(number) == Some((d, tail))
    ensures Scan(COMMA_FORMAT, i.Then("," + number)).items == [U(i.Id()), D(d)]
  {
    ScanLeadingId([Literal(',')] + ([Double] + []), i.blanks, i.sign, i.digits, "," + number);
    ScanLiteral(',', [Double] + [], number);
    ScanNumber([], number, d, tail);
    assert COMMA_FORMAT == [Unsigned] + ([Literal(',')] + ([Double] + []));
  }

  /** `id value`: the number text must not begin with a digit, since the id takes all digits,
      so it begins with a blank, a sign or a point. */
  lemma HandlerReadsBlank(i: IdText, n: NumberText, tail: string)
    requires i.Valid() && n.Valid() && n.Ends(tail) && 'm' !in tail && !IsDigit(n.Text()[0])
    ensures Readings(i.Then(n.Text() + tail)) == [Record(i.Id(), n.Number())]
  {
    var t := i.Then(n.Text() + tail);
    NumberHasNo(n, 'm');
    NumberHasNo(n, ',');
    assert (n.Text() + tail)[0] == n.Text()[0];
    IdHasNo(i, n.Text() + tail, 'm');
    OneKeyMissing(t);
    var number := n.Text() + tail;
    var d := ScanNumberText(n, tail);
    SkipSpaceTwice(number);
    NoComma(i, number);
    BlankItems(i, number, SkipSpace(number), d, tail);
    TakenByBlankFormat(Scan(COMMA_FORMAT, t), Scan(BLANK_FORMAT, t), Scan(JsonFormat(), t), i.Id(), d);
  }

  lemma NoComma(i: IdText, number: string)
    requires i.Valid() && number != "" && !IsDigit(number[0]) && number[0] != ','
    ensures |Scan(COMMA_FORMAT, i.Then(number)).items| == 1
  {
    ScanLeadingId([Literal(',')] + ([Double] + []), i.blanks, i.sign, i.digits, number);
    ScanMismatch(',', [Double] + [], number);
    assert COMMA_FORMAT == [Unsigned] + ([Literal(',')] + ([Double] + []));
  }

  lemma BlankItems(i: IdText, number: string, bare: string, d: Decimal, tail: string)
    requires i.Valid() && bare == SkipSpace(number) && ScanDouble(bare) == Some((d, tail))
    requires number != "" && !IsDigit(number[0])
    ensures Scan(BLANK_FORMAT, i.Then(number)).items == [U(i.Id()), D(d)]
  {
    ScanLeadingId([Blank] + ([Double] + []), i.blanks, i.sign, i.digits, number);
    ScanHead(Blank, [Double] + [], number);
    ScanNumber([], bare, d, tail);
    assert BLANK_FORMAT == [Unsigned] + ([Blank] + ([Double] + []));
  }

  lemma TakenByCommaFormat(comma: ScanResult, blank: ScanResult, json: ScanResult, id: Uint32, d: Decimal)
    requires comma.items == [U(id), D(d)]
    ensures FirstTaken(comma, blank, json) == [Record(id, d.Value())]
  {
  }

  lemma TakenByBlankFormat(comma: ScanResult, blank: ScanResult, json: ScanResult, id: Uint32, d: Decimal)
    requires |comma.items| < 2 && blank.items == [U(id), D(d)]
    ensures FirstTaken(comma, blank, json) == [Record(id, d.Value())]
  {
  }

  /** `{"id":id, "data":value`, with any blanks or none after the comma, whatever follows. */
  lemma HandlerReadsJson(i: IdText, blanks: string, n: NumberText, tail: string)
    requires i.Valid() && AllBlank(blanks) && n.Valid() && n.Ends(tail) && 'm' !in tail
    ensures Readings("{\"id\":" + i.Then("," + (blanks + ("\"data\":" + (n.Text() + tail)))))
            == [Record(i.Id(), n.Number())]
  {
    var value := "\"data\":" + (n.Text() + tail);
    var afterId := "," + (blanks + value);
    var t := "{\"id\":" + i.Then(afterId);
    NumberHasNo(n, 'm');
    assert 'm' !in "\"data\":" && 'm' !in blanks;
    assert 'm' !in value;
    IdHasNo(i, afterId, 'm');
    assert 'm' !in "{\"id\":";
    OneKeyMissing(t);
    BraceIsNoNumber(t, [Literal(','), Double]);
    BraceIsNoNumber(t, [Blank, Double]);
    assert COMMA_FORMAT == [Unsigned] + [Literal(','), Double];
    assert BLANK_FORMAT == [Unsigned] + [Blank, Double];
    var d := ScanNumberText(n, tail);
    JsonItems(i, blanks, n.Text() + tail, d, tail);
    TakenByJsonFormat(Scan(COMMA_FORMAT, t), Scan(BLANK_FORMAT, t), Scan(JsonFormat(), t), i.Id(), d);
  }

  lemma JsonItems(i: IdText, blanks: string, number: string, d: Decimal, tail: string)
    requires i.Valid() && AllBlank(blanks) && ScanDouble(number) == Some((d, tail))
    ensures Scan(JsonFormat(), "{\"id\":" + i.Then("," + (blanks + ("\"data\":" + number)))).items
            == [U(i.Id()), D(d)]
  {
    var value := "\"data\":" + number;
    var afterId := "," + (blanks + value);
    ScanLiterals("{\"id\":", [Unsigned] + ([Literal(',')] + ([Blank] + DataFormat())), i.Then(afterId));
    ScanLeadingId([Literal(',')] + ([Blank] + DataFormat()), i.blanks, i.sign, i.digits, afterId);
    ScanLiteral(',', [Blank] + DataFormat(), blanks + value);
    ScanHead(Blank, DataFormat(), blanks + value);
    SkipSpaceBlank(blanks, value);
    ScanLiterals("\"data\":", [Double] + ([Literal('}')] + []), number);
    ScanNumber([Literal('}')] + [], number, d, tail);
    ScanBraceOrNot(tail);
  }

  lemma ScanBraceOrNot(t: string)
    ensures Scan([Literal('}')] + [], t).items == []
  {
    ScanHead(Literal('}'), [], t);
  }

  /** A format that begins with ordinary characters assigns nothing to a text that does not. */
  lemma {:induction false} ScanNeedsPrefix(s: string, fmt: seq<Directive>, t: string)
    requires !(s <= t)
    ensures Scan(Literals(s) + fmt, t).items == []
  {
    if s != "" {
      assert Literals(s) + fmt == [Literal(s[0])] + (Literals(s[1..]) + fmt);
      if t != "" && t[0] == s[0] {
        assert t == [t[0]] + t[1..];
        PrefixAfterHead(s, t);
        ScanLiteral(s[0], Literals(s[1..]) + fmt, t[1..]);
        ScanNeedsPrefix(s[1..], fmt, t[1..]);
      } else {
        ScanMismatch(s[0], Literals(s[1..]) + fmt, t);
      }
    }
  }

  lemma PrefixAfterHead(s: string, t: string)
    requires s != "" && t != "" && s[0] == t[0]
    ensures s <= t <==> s[1..] <= t[1..]
  {
    assert s[1..] <= t[1..] ==> forall k :: 1 <= k < |s| ==> s[k] == s[1..][k - 1] == t[1..][k - 1] == t[k];
  }

  /** A text without both keys that begins neither with an unsigned number nor with
      `{"id":` gives no reading. */
  lemma HandlerIgnores(t: string)
    requires Find(t, TEMP) == None || Find(t, HUM) == None
    requires ScanUnsigned(t) == None && !("{\"id\":" <= t)
    ensures Readings(t) == []
  {
    ScanHead(Unsigned, [Literal(','), Double], t);
    ScanHead(Unsigned, [Blank, Double], t);
    assert COMMA_FORMAT == [Unsigned] + [Literal(','), Double];
    assert BLANK_FORMAT == [Unsigned] + [Blank, Double];
    ScanNeedsPrefix("{\"id\":", [Unsigned] + ([Literal(',')] + ([Blank] + DataFormat())), t);
  }

  // ---------- the combined temperature and humidity text ----------

  /** With both keys present the text gives temperature 16790, then humidity 16789, each the
      number after the first occurrence of its key, or 0 if there is none. */
  lemma HandlerTakesBothKeys(t: string, temp: string, hum: string)
    requires Find(t, TEMP) == Some(TEMP + temp) && Find(t, HUM) == Some(HUM + hum)
    ensures Readings(t) == [Record(16790, DoubleOrZero(temp)), Record(16789, DoubleOrZero(hum))]
  {
    assert (TEMP + temp)[7..] == temp && (HUM + hum)[6..] == hum;
  }

  lemma NumberAfterKey(n: NumberText, tail: string)
    requires n.Valid() && n.Ends(tail)
    ensures DoubleOrZero(n.Text() + tail) == n.Number()
  {
    var d := ScanNumberText(n, tail);
  }

  lemma NothingAfterKey(blanks: string, sign: string, t: string)
    requires AllBlank(blanks) && IsSign(sign)
    requires t == "" || !(IsDigit(t[0]) || IsSpace(t[0]) || HasSign(t))
    requires t != "" && t[0] == '.' ==> |t| == 1 || !IsDigit(t[1])
    ensures DoubleOrZero(blanks + (sign + t)) == 0.0
  {
    NoNumber(blanks, sign, t);
  }

  /** `{key1 n1,key2 n2}` */
  function PairText(key1: string, n1: NumberText, key2: string, n2: NumberText): string {
    "{" + (key1 + (n1.Text() + ("," + (key2 + (n2.Text() + "}")))))
  }

  /** strstr skips a text in which the pattern's first two characters never stand together. */
  lemma {:induction false} FindAfter(a: string, u: string, pattern: string)
    requires 2 <= |pattern| && pattern <= u
    requires forall j :: 0 <= j < |a| ==> a[j] != pattern[0] || (a + u)[j + 1] != pattern[1]
    ensures Find(a + u, pattern) == Some(u)
  {
    if a == "" {
      assert a + u == u;
    } else {
      var t := a + u;
      assert t[0] == a[0] && t[1..] == a[1..] + u;
      forall j | 0 <= j < |a[1..]|
        ensures a[1..][j] != pattern[0] || (a[1..] + u)[j + 1] != pattern[1]
      {
        assert a[1..][j] == a[j + 1] && (a[1..] + u)[j + 1] == t[j + 2];
      }
      FindAfter(a[1..], u, pattern);
    }
  }

  lemma FindFirstKey(key: string, u: string)
    requires (key == TEMP || key == HUM) && key <= u
    ensures Find("{" + u, key) == Some(u)
  {
    FindAfter("{", u, key);
  }

  lemma FindSecondKey(key1: string, number: string, key2: string, u: string)
    requires key2 <= u && '"' !in number
    requires (key1 == TEMP && key2 == HUM) || (key1 == HUM && key2 == TEMP)
    ensures Find("{" + (key1 + (number + ("," + u))), key2) == Some(u)
  {
    var a := "{" + (key1 + (number + ","));
    assert a + u == "{" + (key1 + (number + ("," + u)));
    forall j | 0 <= j < |a|
      ensures a[j] != key2[0] || (a + u)[j + 1] != key2[1]
    {
      if j > |key1| && j < |a| - 1 { assert a[j] == number[j - 1 - |key1|]; }
    }
    FindAfter(a, u, key2);
  }

  /** A text with both keys, in either order, is read as exactly the two readings. */
  lemma HandlerReadsPair(temp: NumberText, hum: NumberText)
    requires temp.Valid() && hum.Valid()
    ensures Readings(PairText(TEMP, temp, HUM, hum)) == [Record(16790, temp.Number()), Record(16789, hum.Number())]
    ensures Readings(PairText(HUM, hum, TEMP, temp)) == [Record(16790, temp.Number()), Record(16789, hum.Number())]
  {
    FindKeys(TEMP, temp, HUM, hum);
    FindKeys(HUM, hum, TEMP, temp);
    NumberAfterKey(temp, "," + (HUM + (hum.Text() + "}")));
    NumberAfterKey(hum, "," + (TEMP + (temp.Text() + "}")));
    NumberAfterKey(temp, "}");
    NumberAfterKey(hum, "}");
    HandlerTakesBothKeys(PairText(TEMP, temp, HUM, hum),
                         temp.Text() + ("," + (HUM + (hum.Text() + "}"))), hum.Text() + "}");
    HandlerTakesBothKeys(PairText(HUM, hum, TEMP, temp),
                         temp.Text() + "}", hum.Text() + ("," + (TEMP + (temp.Text() + "}"))));
  }

  /** Each key is found, followed by its own number. */
  lemma FindKeys(key1: string, n1: NumberText, key2: string, n2: NumberText)
    requires (key1 == TEMP && key2 == HUM) || (key1 == HUM && key2 == TEMP)
    requires n1.Valid() && n2.Valid()
    ensures var second := key2 + (n2.Text() + "}");
            && Find(PairText(key1, n1, key2, n2), key1) == Some(key1 + (n1.Text() + ("," + second)))
            && Find(PairText(key1, n1, key2, n2), key2) == Some(second)
  {
    var second := key2 + (n2.Text() + "}");
    FindFirstKey(key1, key1 + (n1.Text() + ("," + second)));
    NumberHasNo(n1, '"');
    FindSecondKey(key1, n1.Text(), key2, second);
  }

  // ---------- records as the uploader prints them ----------

  /** What the conversions of `{"id":%u, "data":%f}` make of a record. */
  function EntryOf(r: Record): Entry {
    Entry(r.sensorId, Micros(r.data))
  }

  /** A printed record is read back with its id and with its value to within half a unit of
      the sixth decimal; it comes back unchanged if and only if it has six decimals. */
  lemma HandlerReadsPrintedRecord(r: Record)
    ensures |Readings(PrintEntry(EntryOf(r)))| == 1
    ensures var back := Readings(PrintEntry(EntryOf(r)))[0];
            back.sensorId == r.sensorId && -0.0000005 <= back.data - r.data <= 0.0000005
            && (back == r <==> HasSixDecimals(r.data))
  {
    HandlerReadsPrintedEntry(EntryOf(r));
    MicrosDenote(r.data);
  }

  /** A datagram `id,m` with a decimal exponent. */
  function ScientificText(id: Uint32, m: nat, e: nat): string {
    PrintNat(id) + ("," + (PrintNat(m) + ("e" + PrintNat(e))))
  }

  /** The comma format takes such a datagram: values of any magnitude reach the ring. */
  lemma HandlerReadsScientific(id: Uint32, m: nat, e: nat)
    ensures Readings(ScientificText(id, m, e)) == [Record(id, Shifted(m, e) as real)]
  {
    var i := IdText("", "", PrintNat(id));
    var n := NumberText("", "", PrintNat(m), false, "", Some(ExponentText('e', "", PrintNat(e))));
    HandlerReadsComma(i, n, "");
    NatOfPrintNat(id);
    NatOfPrintNat(m);
    NatOfPrintNat(e);
    UnsignedMeans(false, id);
    ScientificNumber(n, m, e);
    ScientificParts(PrintNat(id), PrintNat(m), PrintNat(e), n);
  }

  lemma ScientificNumber(n: NumberText, m: nat, e: nat)
    requires n.Valid() && n.sign == "" && n.frac == "" && NatOf(n.whole) == m && n.Exponent() == e
    ensures n.Number() == Shifted(m, e) as real
  {
    assert Scaled(NatOf("") as real, 0 - 0) == 0.0;
    ScaledUp(m, e);
  }

  lemma ScientificParts(id: string, m: string, e: string, n: NumberText)
    requires n == NumberText("", "", m, false, "", Some(ExponentText('e', "", e)))
    ensures IdText("", "", id).Then("," + (n.Text() + "")) == id + ("," + (m + ("e" + e)))
  {
    assert n.ExponentPart() == "e" + e;
    assert n.Magnitude() == m + ("e" + e);
    NothingAround(n.Magnitude());
    NothingAround(id + ("," + n.Magnitude()));
  }

  lemma NothingAround(s: string)
    ensures "" + ("" + s) + "" == s && "" + ("" + s) == s
  {
  }
}
