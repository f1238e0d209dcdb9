/** The JSON body of one upload: how the loop prints it, how long it is, and that it can be
    parsed back. */
module Upload {
  import opened Records
  import opened CText
  import opened RecordText
  import opened SensorQueue

  const OPENING: string := "{\"datas\":["
  const CLOSING: string := "]}"
  const PAYLOAD_SIZE: nat := 4096

  /** The entries as the loop appends them, a comma before every one but the first. */
  function Items(es: seq<Entry>): string {
    if es == [] then "" else Items(es[..|es| - 1]) + Separated(es)
  }

  function Separated(es: seq<Entry>): string
    requires es != []
  {
    (if |es| > 1 then "," else "") + PrintEntry(es[|es| - 1])
  }

  function Body(es: seq<Entry>): string {
    OPENING + Items(es) + CLOSING
  }

  function Entries(rs: seq<Record>): seq<Entry> {
    seq(|rs|, k requires 0 <= k < |rs| => EntryOf(rs[k]))
  }

  /** `sprintf(buf + at, ...)`: the text and a terminating NUL. */
  method SprintfAt(buf: array<char>, at: nat, text: string) returns (n: nat)
    requires at + |text| < buf.Length
    modifies buf
    ensures n == |text| && buf[..at + n] == old(buf[..at]) + text && buf[at + n] == '\0'
  {
    n := 0;
    while n < |text|
      invariant n <= |text| && buf[..at] == old(buf[..at]) && buf[at..at + n] == text[..n]
    {
      buf[at + n] := text[n];
      n := n + 1;
    }
    buf[at + n] := '\0';
  }

  /** One iteration of the payload loop. */
  method AppendEntry(json: array<char>, len: nat, i: nat, text: string) returns (jsonLen: nat)
    requires len + |(if i > 0 then "," else "") + text| < json.Length
    modifies json
    ensures jsonLen < json.Length && jsonLen == len + |(if i > 0 then "," else "") + text|
    ensures json[..jsonLen] == old(json[..len]) + ((if i > 0 then "," else "") + text)
  {
    jsonLen := len;
    var n := 0;
    if i > 0 {
      n := SprintfAt(json, jsonLen, ",");
      jsonLen := jsonLen + n;
      Concat(old(json[..len]), ",", text);
    } else {
      Concat("", text, "");
    }
    n := SprintfAt(json, jsonLen, text);
    jsonLen := jsonLen + n;
  }

  /** The payload loop; `jsonLen` is kept by adding up what sprintf returns. */
  method BuildPayload(batch: array<Record>, count: nat, json: array<char>) returns (jsonLen: nat)
    requires count <= batch.Length && batch as object != json
    requires |Body(Entries(batch[..count]))| < json.Length
    modifies json
    ensures var body := Body(Entries(batch[..count]));
            jsonLen == |body| < json.Length && json[..jsonLen] == body && json[jsonLen] == '\0'
  {
    ghost var es := Entries(batch[..count]);
    PrefixStarts(es);
    jsonLen := SprintfAt(json, 0, OPENING);
    for i := 0 to count
      invariant jsonLen < json.Length && json[..jsonLen] == Prefix(es, i)
    {
      PrefixStep(es, i);
      jsonLen := AppendEntry(json, jsonLen, i, PrintEntry(EntryOf(batch[i])));
    }
    PrefixEnds(es);
    var n := SprintfAt(json, jsonLen, CLOSING);
    jsonLen := jsonLen + n;
  }

  /** One round of the uploader up to the finished body: the batch is taken from the ring and
      printed.  It is enough that the oldest 50 records fit the buffer. */
  method NextPayload(queue: SharedQueue, landing: seq<nat>, json: array<char>) returns (count: nat, jsonLen: nat)
    requires queue.Valid() && 0 < queue.sem && json as object != queue.data
    requires queue.sem + Landed(landing, |landing|) <= queue.View().Length()
    requires json.Length == PAYLOAD_SIZE && |Body(Entries(Oldest(queue.View().Contents())))| < PAYLOAD_SIZE
    modifies queue`tail, queue`sem, json
    ensures queue.Valid() && 1 <= count <= BATCH_LIMIT && count <= |old(queue.View()).Contents()|
    ensures queue.View().Contents() == old(queue.View()).Contents()[count..]
    ensures jsonLen < json.Length && json[jsonLen] == '\0'
    ensures json[..jsonLen] == Body(Entries(old(queue.View()).Contents()[..count]))
  {
    ghost var rs := queue.View().Contents();
    var batch;
    batch, count := queue.TakeBatch(landing);
    ShorterBatchFits(rs, count);
    jsonLen := BuildPayload(batch, count, json);
  }

  /** The most one batch can take. */
  ghost function Oldest(rs: seq<Record>): seq<Record> {
    if |rs| <= BATCH_LIMIT then rs else rs[..BATCH_LIMIT]
  }

  lemma ShorterBatchFits(rs: seq<Record>, count: nat)
    requires count <= |rs| && count <= BATCH_LIMIT
    ensures |Body(Entries(rs[..count]))| <= |Body(Entries(Oldest(rs)))|
  {
    var es := Entries(Oldest(rs));
    ItemsGrow(es, count);
    assert Entries(rs[..count]) == es[..count];
  }

  /** The buffer after `i` iterations. */
  ghost function Prefix(es: seq<Entry>, i: nat): string
    requires i <= |es|
  {
    OPENING + Items(es[..i])
  }

  lemma PrefixStarts(es: seq<Entry>)
    ensures Prefix(es, 0) == OPENING && |OPENING| <= |Body(es)|
  {
  }

  lemma PrefixStep(es: seq<Entry>, i: nat)
    requires i < |es|
    ensures Prefix(es, i + 1) == Prefix(es, i) + ((if i > 0 then "," else "") + PrintEntry(es[i]))
    ensures |Prefix(es, i + 1)| <= |Body(es)|
  {
    assert es[..i + 1][..i] == es[..i];
    ItemsGrow(es, i + 1);
    Concat(OPENING, Items(es[..i]), (if i > 0 then "," else "") + PrintEntry(es[i]));
  }

  lemma PrefixEnds(es: seq<Entry>)
    ensures Prefix(es, |es|) + CLOSING == Body(es)
  {
    assert es[..|es|] == es;
  }

  lemma {:induction false} ItemsGrow(es: seq<Entry>, i: nat)
    requires i <= |es|
    ensures |Items(es[..i])| <= |Items(es)|
    decreases |es|
  {
    if i == |es| {
      assert es[..i] == es;
    } else {
      ItemsGrow(es[..|es| - 1], i);
      assert es[..|es| - 1][..i] == es[..i];
    }
  }

  /** The body contains no NUL, so the C string in the buffer, and with it the body of the
      HTTP request, is exactly as long as Content-Length says. */
  lemma {:induction false} BodyHasNoNul(es: seq<Entry>)
    ensures '\0' !in Items(es) && '\0' !in Body(es)
  {
    if es != [] {
      BodyHasNoNul(es[..|es| - 1]);
      EntryHasNo(es[|es| - 1], '\0');
    }
  }

  /** The text of a batch of one, character by character. */
  lemma BodyOfOne(e: Entry)
    ensures Body([e]) == "{\"datas\":[{\"id\":" + PrintNat(e.id) + ", \"data\":" + PrintFixed(e.value) + "}]}"
  {
    assert [e][..0] == [];
    assert Items([e]) == "" + ("" + PrintEntry(e));
    TextOfOne(PrintNat(e.id), PrintFixed(e.value), PrintEntry(e));
  }

  lemma TextOfOne(id: string, number: string, entry: string)
    requires entry == "{\"id\":" + (id + ("," + (" " + ("\"data\":" + (number + ("}" + ""))))))
    ensures "{\"datas\":[" + ("" + ("" + entry)) + "]}"
            == "{\"datas\":[{\"id\":" + id + ", \"data\":" + number + "}]}"
  {
  }

  /** A value in print: sign, whole part, point, six decimals. */
  lemma ValueText(negative: bool, whole: nat, micros: nat)
    requires micros < 1000000
    ensures PrintFixed(Fixed(negative, whole * 1000000 + micros))
            == (if negative then "-" else "") + (PrintNat(whole) + ("." + PrintPadded(micros, 6)))
  {
  }

  // ---------- length ----------

  /** What an entry contributes, the comma after it included, in terms of its magnitudes: the
      digits of the id and of the whole part, and a sign. */
  ghost function Size(e: Entry): nat {
    24 + Digits(e.id) + (if e.value.negative then 1 else 0) + Digits(e.value.micros / 1000000)
  }

  ghost function Sizes(es: seq<Entry>): nat {
    if es == [] then 0 else Sizes(es[..|es| - 1]) + Size(es[|es| - 1])
  }

  lemma FixedLength(v: Fixed)
    ensures |PrintFixed(v)| == (if v.negative then 1 else 0) + Digits(v.micros / 1000000) + 7
  {
    PrintNatLength(v.micros / 1000000);
  }

  lemma EntryLength(e: Entry)
    ensures |PrintEntry(e)| + 1 == Size(e)
  {
    PrintNatLength(e.id);
    FixedLength(e.value);
  }

  /** The exact length of the body. */
  lemma {:induction false} BodyLength(es: seq<Entry>)
    ensures |Items(es)| == if es == [] then 0 else Sizes(es) - 1
    ensures |es| <= |Items(es)| && |Body(es)| == |Items(es)| + 12
  {
    if es != [] {
      BodyLength(es[..|es| - 1]);
      EntryLength(es[|es| - 1]);
    }
  }

  /** A body fits the buffer, NUL included, exactly when the digits and signs of its records
      add up to few enough. */
  lemma FitsBufferIff(es: seq<Entry>)
    ensures |Body(es)| < 4096 <==> es == [] || Sizes(es) + 11 < 4096
  {
    BodyLength(es);
  }

  lemma IdDigits(id: Uint32)
    ensures Digits(id) <= 10
  {
    assert Pow10(5) == 100000;
    Pow10Adds(5, 5);
    DigitsAtMost(id, 10);
  }

  /** In particular every batch of up to 50 entries fits if no printed value is longer than 54
      characters. */
  lemma FitsBuffer(es: seq<Entry>)
    requires |es| <= 50
    requires forall k :: 0 <= k < |es| ==> |PrintFixed(es[k].value)| <= 54
    ensures |Body(es)| < 4096
  {
    SizesAtMost(es);
    FitsBufferIff(es);
  }

  lemma {:induction false} SizesAtMost(es: seq<Entry>)
    requires forall k :: 0 <= k < |es| ==> |PrintFixed(es[k].value)| <= 54
    ensures Sizes(es) <= 81 * |es|
  {
    if es != [] {
      var e := es[|es| - 1];
      SizesAtMost(es[..|es| - 1]);
      IdDigits(e.id);
      FixedLength(e.value);
    }
  }

  lemma {:induction false} SizesAtLeast(es: seq<Entry>)
    requires forall k :: 0 <= k < |es| ==> |PrintFixed(es[k].value)| >= 55 && Digits(es[k].id) == 10
    ensures Sizes(es) >= 82 * |es|
  {
    if es != [] {
      SizesAtLeast(es[..|es| - 1]);
      FixedLength(es[|es| - 1].value);
    }
  }

  /** The bound of 54 cannot be raised: a full batch of ten-digit ids with values of 55
      characters does not fit. */
  lemma LongerValuesOverflow(es: seq<Entry>)
    requires |es| == BATCH_LIMIT
    requires forall k :: 0 <= k < |es| ==> |PrintFixed(es[k].value)| >= 55 && Digits(es[k].id) == 10
    ensures |Body(es)| >= PAYLOAD_SIZE
  {
    SizesAtLeast(es);
    FitsBufferIff(es);
  }

  const WIDE_ID: Uint32 := 4294967295

  /** A whole value is printed with as many digits as it has, a point and six zeros. */
  lemma WholeEntry(id: Uint32, n: nat)
    ensures EntryOf(Record(id, n as real)) == Entry(id, Fixed(false, n * 1000000))
    ensures |PrintFixed(EntryOf(Record(id, n as real)).value)| == Digits(n) + 7
  {
    NearestOfInteger(n * 1000000, n as real * 1000000.0);
    FixedLength(Fixed(false, n * 1000000));
  }

  /** 50 readings of the datagram `4294967295,2e47` make such a batch. */
  lemma DatagramsCanOverflow(rs: seq<Record>)
    requires |rs| == BATCH_LIMIT
    requires forall k :: 0 <= k < |rs| ==> [rs[k]] == Readings(ScientificText(WIDE_ID, 2, 47))
    ensures |Body(Entries(rs))| >= PAYLOAD_SIZE
  {
    var es := Entries(rs);
    TenDigits();
    forall k | 0 <= k < |es|
      ensures |PrintFixed(es[k].value)| >= 55 && Digits(es[k].id) == 10
    {
      WideReading(rs[k], WIDE_ID, 2, 47, 47);
    }
    LongerValuesOverflow(es);
  }

  lemma WideReading(r: Record, id: Uint32, m: nat, e: nat, k: nat)
    requires 1 <= m && 47 <= k <= e && [r] == Readings(ScientificText(id, m, e))
    ensures r.sensorId == id && |PrintFixed(EntryOf(r).value)| >= 55
  {
    HandlerReadsScientific(id, m, e);
    WideValue(r, id, Shifted(m, e));
    ManyDigits(m, e, k);
  }

  lemma WideRecord(id: Uint32, m: nat, e: nat) returns (r: Record)
    ensures Readings(ScientificText(id, m, e)) == [r]
  {
    HandlerReadsScientific(id, m, e);
    r := Record(id, Shifted(m, e) as real);
  }

  lemma WideValue(r: Record, id: Uint32, n: nat)
    requires [r] == [Record(id, n as real)]
    ensures r.sensorId == id && |PrintFixed(EntryOf(r).value)| == Digits(n) + 7
  {
    assert [r][0] == Record(id, n as real);
    WholeEntry(id, n);
  }

  lemma ManyDigits(m: nat, e: nat, k: nat)
    requires 1 <= m && 0 < k <= e
    ensures Digits(Shifted(m, e)) > k
  {
    Pow10Grows(k, e);
    AtLeast(m, Pow10(e));
    DigitsAtMost(Shifted(m, e), k);
  }

  lemma AtLeast(m: nat, p: nat)
    requires 1 <= m
    ensures p <= m * p
  {
  }

  lemma TenDigits()
    ensures Digits(WIDE_ID) == 10
  {
    assert Pow10(5) == 100000 && Pow10(4) == 10000;
    Pow10Adds(5, 4);
    DigitsAtMost(WIDE_ID, 9);
    IdDigits(WIDE_ID);
  }

  // ---------- parsing the body back ----------

  /** One record of the body, as the gateway's own third scan format reads it. */
  function ParseEntry(t: string): (r: Option<(Entry, string)>) {
    var s := Scan(JsonFormat(), t);
    if s.complete && |s.items| == 2 && s.items[0].U? && s.items[0].value < 0x1_0000_0000
       && s.items[1].D? && s.items[1].decimal.exponent == -6
    then Some((Entry(s.items[0].value, Fixed(s.items[1].decimal.negative, s.items[1].decimal.mantissa)), s.rest))
    else None
  }

  type EntryParser = string -> Option<(Entry, string)>

  /** A comma-separated list of entries and the closing text; `fuel` bounds their number. */
  function ParseItems(p: EntryParser, t: string, fuel: nat): Option<seq<Entry>>
    decreases fuel
  {
    if t == CLOSING then Some([])
    else
      match p(t)
      case None => None
      case Some((e, rest)) =>
        if rest == CLOSING then Some([e])
        else if fuel == 0 || rest == "" || rest[0] != ',' then None
        else
          match ParseItems(p, rest[1..], fuel - 1)
          case None => None
          case Some(es) => Some([e] + es)
  }

  function ParseBody(t: string): Option<seq<Entry>> {
    if OPENING <= t then ParseItems(ParseEntry, t[|OPENING|..], |t|) else None
  }

  /** The items from the front, followed by the closing text. */
  ghost function FrontItems(es: seq<Entry>): string {
    if es == [] then CLOSING
    else PrintEntry(es[0]) + ((if |es| > 1 then "," else "") + FrontItems(es[1..]))
  }

  lemma {:induction false} FrontItemsAppend(es: seq<Entry>, f: seq<Entry>)
    requires f != []
    ensures Items(es) + ((if es != [] then "," else "") + FrontItems(f)) == Items(es + f) + CLOSING
    decreases |f|
  {
    var e, g := es + [f[0]], f[1..];
    var comma, sep := if es != [] then "," else "", if |f| > 1 then "," else "";
    ItemsSnoc(es, f[0]);
    assert es + f == e + g;
    if g == [] {
      EmptySeparator(Items(e), sep, CLOSING);
      assert es + f == e;
    } else {
      FrontItemsAppend(e, g);
    }
    FrontItemsStep(f);
    Chain(Items(es), comma, PrintEntry(f[0]), Items(e), sep + FrontItems(g), FrontItems(f));
  }

  lemma FrontItemsStep(f: seq<Entry>)
    requires f != []
    ensures FrontItems(f) == PrintEntry(f[0]) + ((if |f| > 1 then "," else "") + FrontItems(f[1..]))
  {
  }

  lemma EmptySeparator(a: string, sep: string, b: string)
    requires sep == ""
    ensures a + (sep + b) == a + b
  {
  }

  lemma Chain(items: string, comma: string, text: string, more: string, tail: string, front: string)
    requires more == items + (comma + text) && front == text + tail
    ensures items + (comma + front) == more + tail
  {
  }

  lemma ItemsSnoc(es: seq<Entry>, e: Entry)
    ensures Items(es + [e]) == Items(es) + ((if es != [] then "," else "") + PrintEntry(e))
  {
    assert (es + [e])[..|es|] == es;
  }

  lemma BodyFromFront(es: seq<Entry>)
    ensures Body(es) == OPENING + FrontItems(es)
  {
    if es == [] {
      Concat("", "", CLOSING);
    } else {
      FrontItemsAppend([], es);
      assert [] + es == es;
      Prepended(Items([]), "", FrontItems(es));
    }
    Concat(OPENING, Items(es), CLOSING);
  }

  lemma Prepended(a: string, b: string, c: string)
    requires a == "" && b == ""
    ensures a + (b + c) == c
  {
  }

  /** The parser takes exactly what was printed for one entry. */
  ghost predicate ReadsPrinted(p: EntryParser) {
    forall e, rest :: p(PrintEntry(e) + rest) == Some((e, rest))
  }

  lemma ParseEntryReadsPrinted()
    ensures ReadsPrinted(ParseEntry)
  {
    forall e, rest
      ensures ParseEntry(PrintEntry(e) + rest) == Some((e, rest))
    {
      ScanEntry(e, rest);
    }
  }

  lemma EntryIsNotClosing(e: Entry, rest: string)
    ensures PrintEntry(e) + rest != CLOSING
  {
  }

  lemma {:induction false} ParseFrontItems(p: EntryParser, es: seq<Entry>, fuel: nat)
    requires ReadsPrinted(p) && |es| <= fuel
    ensures ParseItems(p, FrontItems(es), fuel) == Some(es)
    decreases fuel
  {
    if |es| == 1 {
      EntryIsNotClosing(es[0], CLOSING);
      assert FrontItems(es) == PrintEntry(es[0]) + CLOSING && es == [es[0]];
    } else if es != [] {
      var more := FrontItems(es[1..]);
      ParseFrontItems(p, es[1..], fuel - 1);
      EntryIsNotClosing(es[0], "," + more);
      assert ("," + more)[1..] == more && [es[0]] + es[1..] == es;
    }
  }

  /** The body determines the batch: parsing it gives back every id, sign and digit. */
  lemma BodyParsesBack(es: seq<Entry>)
    ensures ParseBody(Body(es)) == Some(es)
  {
    BodyFromFront(es);
    assert (OPENING + FrontItems(es))[|OPENING|..] == FrontItems(es);
    BodyLength(es);
    ParseEntryReadsPrinted();
    ParseFrontItems(ParseEntry, es, |Body(es)|);
  }

  /** The body of a batch tells the receiver every id, and every value to within half a unit
      of the sixth decimal; values with six decimals arrive unchanged. */
  lemma BodyDenotesBatch(rs: seq<Record>)
    ensures ParseBody(Body(Entries(rs))) == Some(Entries(rs)) && |Entries(rs)| == |rs|
    ensures forall k :: 0 <= k < |rs| ==>
              var e := Entries(rs)[k];
              && e.id == rs[k].sensorId
              && -0.0000005 <= e.value.Value() - rs[k].data <= 0.0000005
              && (e.value.Value() == rs[k].data <==> HasSixDecimals(rs[k].data))
  {
    BodyParsesBack(Entries(rs));
    forall k | 0 <= k < |rs|
      ensures Entries(rs)[k] == EntryOf(rs[k])
      ensures -0.0000005 <= EntryOf(rs[k]).value.Value() - rs[k].data <= 0.0000005
      ensures EntryOf(rs[k]).value.Value() == rs[k].data <==> HasSixDecimals(rs[k].data)
    {
      MicrosDenote(rs[k].data);
    }
  }

  lemma BodyIsInjective(es: seq<Entry>, fs: seq<Entry>)
    ensures Body(es) == Body(fs) ==> es == fs
  {
    BodyParsesBack(es);
    BodyParsesBack(fs);
  }
}
