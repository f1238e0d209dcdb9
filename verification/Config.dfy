/** The configuration reader: `key = value` lines, last assignment per key wins. */
module Config {
  import opened CText
  import opened Trimming
  import opened NumberTexts

  const LINE_SIZE: nat := 512

  // ---------- values ----------

  /** A configured field: a string cut to its buffer, or a port number. */
  datatype Field = Text(s: string) | Number(n: int)

  datatype Settings = Settings(cloudIp: string, cloudPort: int, deviceId: string, apiKey: string,
                               logPath: string, multicastIp: string, multicastPort: int, localIp: string)

  /** strncpy(dst, value, size - 1) into a buffer whose last byte is already NUL. */
  function Cut(value: string, size: nat): string
    requires 0 < size
  {
    if |value| < size then value else value[..size - 1]
  }

  /** atoi */
  function Atoi(s: string): int {
    var t := SkipSpace(s);
    var digits := SplitDigits(SkipSign(t)).0;
    if t != "" && t[0] == '-' then 0 - NatOf(digits) else NatOf(digits)
  }

  function Assign(c: Settings, key: string, value: string): Settings {
    if key == "CLOUD_IP" then c.(cloudIp := Cut(value, 64))
    else if key == "CLOUD_PORT" then c.(cloudPort := Atoi(value))
    else if key == "DEVICE_ID" then c.(deviceId := Cut(value, 64))
    else if key == "API_KEY" then c.(apiKey := Cut(value, 256))
    else if key == "LOG_PATH" then c.(logPath := Cut(value, 256))
    else if key == "MULTICAST_IP" then c.(multicastIp := Cut(value, 32))
    else if key == "MULTICAST_PORT" then c.(multicastPort := Atoi(value))
    else if key == "LOCAL_IP" then c.(localIp := Cut(value, 32))
    else c
  }

  /** The key=value pair of a line, if it is one. */
  function Assignment(line: string): Option<(string, string)> {
    var t := Strip(line);
    if t == "" || t[0] == '#' then None
    else
      var eq := IndexOf(t, '=');
      if eq == |t| then None else Some((Strip(t[..eq]), Strip(t[eq + 1..])))
  }

  function ApplyLine(c: Settings, line: string): Settings {
    match Assignment(line)
    case None => c
    case Some((key, value)) => Assign(c, key, value)
  }

  function ApplyLines(c: Settings, lines: seq<string>): Settings {
    if lines == [] then c else ApplyLine(ApplyLines(c, lines[..|lines| - 1]), lines[|lines| - 1])
  }

  /** Position of the first `c`, |s| if there is none. */
  function IndexOf(s: string, c: char): (k: nat)
    ensures k <= |s| && (k < |s| ==> s[k] == c) && forall j :: 0 <= j < k ==> s[j] != c
  {
    IndexFrom(s, c, 0)
  }

  function IndexFrom(s: string, c: char, i: nat): (k: nat)
    requires i <= |s|
    ensures i <= k <= |s| && (k < |s| ==> s[k] == c) && forall j :: i <= j < k ==> s[j] != c
    decreases |s| - i
  {
    if i == |s| || s[i] == c then i else IndexFrom(s, c, i + 1)
  }

  /** Length of what fgets(line, 512, fp) takes: at most 511 characters, up to a newline. */
  function ChunkLength(text: string): (n: nat)
    ensures n <= |text| && n < LINE_SIZE && (text != "" ==> 0 < n)
  {
    var newline := IndexOf(text, '\n');
    if newline < |text| && newline + 1 < LINE_SIZE then newline + 1
    else if |text| < LINE_SIZE then |text|
    else LINE_SIZE - 1
  }

  /** The C strings successive calls of fgets leave in `line`. */
  function Chunks(text: string): seq<string> {
    if text == "" then []
    else
      var n := ChunkLength(text);
      [text[..IndexOf(text[..n], NUL)]] + Chunks(text[n..])
  }

  // ---------- the reader ----------

  class ConfigReader {
    var config: Settings

    constructor ()
      ensures config == Settings("", 0, "", "", "", "", 0, "")
    {
      config := Settings("", 0, "", "", "", "", 0, "");
    }

    /** The chain of strcmp tests. */
    method Set(key: string, value: string)
      modifies this
      ensures config == Assign(old(config), key, value)
    {
      if key == "CLOUD_IP" {
        config := config.(cloudIp := Cut(value, 64));
      } else if key == "CLOUD_PORT" {
        config := config.(cloudPort := Atoi(value));
      } else if key == "DEVICE_ID" {
        config := config.(deviceId := Cut(value, 64));
      } else if key == "API_KEY" {
        config := config.(apiKey := Cut(value, 256));
      } else if key == "LOG_PATH" {
        config := config.(logPath := Cut(value, 256));
      } else if key == "MULTICAST_IP" {
        config := config.(multicastIp := Cut(value, 32));
      } else if key == "MULTICAST_PORT" {
        config := config.(multicastPort := Atoi(value));
      } else if key == "LOCAL_IP" {
        config := config.(localIp := Cut(value, 32));
      }
    }

    /** The loop body once a trimmed, non-comment line with an '=' at `eq` is in the buffer. */
    method ReadAssignment(line: array<char>, eq: nat)
      requires Terminated(line[..], 0) && eq < EndOf(line[..], 0)
      modifies this, line
      ensures config == Assign(old(config), Strip(old(CString(line[..], 0))[..eq]),
                               Strip(old(CString(line[..], 0))[eq + 1..]))
    {
      CutAt(line, eq);
      TrimHalves(line, eq);
      Set(CString(line[..], 0), CString(line[..], eq + 1));
    }

    /** The loop body: trim the line, skip blanks and comments, split it in its buffer. */
    method ReadLine(line: array<char>)
      requires Terminated(line[..], 0)
      modifies this, line
      ensures config == ApplyLine(old(config), old(CString(line[..], 0)))
    {
      Trim(line, 0);
      if line[0] == NUL || line[0] == '#' { return; }
      var eq := Strchr(line, '=');
      if line[eq] == NUL { return; }
      ReadAssignment(line, eq);
    }

    /** fgets: the next chunk of the file and a NUL into the buffer. */
    method Fgets(line: array<char>, text: string) returns (n: nat)
      requires line.Length == LINE_SIZE && text != ""
      modifies line
      ensures n == ChunkLength(text)
      ensures Terminated(line[..], 0) && CString(line[..], 0) == text[..IndexOf(text[..n], NUL)]
    {
      n := ChunkLength(text);
      forall k | 0 <= k < n {
        line[k] := text[k];
      }
      line[n] := NUL;
      CStringIs(line[..], 0, text[..IndexOf(text[..n], NUL)]);
    }

    /** `load_config`; None is a file that cannot be opened. */
    method Load(file: Option<string>) returns (rc: int)
      modifies this
      ensures file == None ==> rc == -1 && config == old(config)
      ensures file.Some? ==> rc == 0 && config == ApplyLines(old(config), Chunks(file.value))
    {
      if file == None { return -1; }
      var line := new char[LINE_SIZE];
      var text := file.value;
      while text != ""
        invariant ApplyLines(config, Chunks(text)) == ApplyLines(old(config), Chunks(file.value))
        decreases |text|
      {
        var n := Fgets(line, text);
        ApplyFirst(config, CString(line[..], 0), Chunks(text[n..]));
        ReadLine(line);
        text := text[n..];
      }
      rc := 0;
    }
  }

  lemma {:induction false} ApplyFirst(c: Settings, first: string, rest: seq<string>)
    ensures ApplyLines(c, [first] + rest) == ApplyLines(ApplyLine(c, first), rest)
  {
    var lines := [first] + rest;
    if rest == [] {
      assert lines == [first];
      assert ApplyLines(c, []) == c;
    } else {
      assert lines[..|lines| - 1] == [first] + rest[..|rest| - 1];
      ApplyFirst(c, first, rest[..|rest| - 1]);
    }
  }

  /** `*eq_pos = '\0'`: one C string becomes two. */
  method CutAt(line: array<char>, eq: nat)
    requires Terminated(line[..], 0) && eq < EndOf(line[..], 0)
    modifies line
    ensures Terminated(line[..], 0) && Terminated(line[..], eq + 1) && EndOf(line[..], 0) == eq
    ensures CString(line[..], 0) == old(CString(line[..], 0))[..eq]
    ensures CString(line[..], eq + 1) == old(CString(line[..], 0))[eq + 1..]
  {
    ghost var t := CString(line[..], 0);
    line[eq] := NUL;
    CStringIs(line[..], 0, t[..eq]);
    CStringIs(line[..], eq + 1, t[eq + 1..]);
  }

  /** Trimming the key and then the value; neither disturbs the other. */
  method TrimHalves(line: array<char>, eq: nat)
    requires Terminated(line[..], 0) && Terminated(line[..], eq + 1) && EndOf(line[..], 0) == eq
    modifies line
    ensures Terminated(line[..], 0) && Terminated(line[..], eq + 1)
    ensures CString(line[..], 0) == Strip(old(CString(line[..], 0)))
    ensures CString(line[..], eq + 1) == Strip(old(CString(line[..], eq + 1)))
  {
    ghost var mem := line[..];
    Trim(line, 0);
    SameString(mem, line[..], eq + 1);
    mem := line[..];
    Trim(line, eq + 1);
    SameString(mem, line[..], 0);
  }

  /** strchr from the start of the buffer; the end of the string if `c` is not in it. */
  method Strchr(line: array<char>, c: char) returns (k: nat)
    requires Terminated(line[..], 0) && c != NUL
    ensures k == IndexOf(CString(line[..], 0), c) <= EndOf(line[..], 0)
  {
    k := 0;
    ghost var t := CString(line[..], 0);
    while line[k] != NUL && line[k] != c
      invariant k <= |t| && forall j :: 0 <= j < k ==> t[j] != c
      decreases |t| - k
    {
      k := k + 1;
    }
  }

  // ---------- what reading a file means ----------

  /** The fields a file can set, by their keys. */
  datatype Key = CloudIp | CloudPort | DeviceId | ApiKey | LogPath | MulticastIp | MulticastPort | LocalIp

  function Name(k: Key): string {
    match k
    case CloudIp => "CLOUD_IP"
    case CloudPort => "CLOUD_PORT"
    case DeviceId => "DEVICE_ID"
    case ApiKey => "API_KEY"
    case LogPath => "LOG_PATH"
    case MulticastIp => "MULTICAST_IP"
    case MulticastPort => "MULTICAST_PORT"
    case LocalIp => "LOCAL_IP"
  }

  function Get(c: Settings, k: Key): Field {
    match k
    case CloudIp => Text(c.cloudIp)
    case CloudPort => Number(c.cloudPort)
    case DeviceId => Text(c.deviceId)
    case ApiKey => Text(c.apiKey)
    case LogPath => Text(c.logPath)
    case MulticastIp => Text(c.multicastIp)
    case MulticastPort => Number(c.multicastPort)
    case LocalIp => Text(c.localIp)
  }

  /** What a field holds after its key is assigned this value. */
  function Converted(k: Key, value: string): Field {
    match k
    case CloudPort => Number(Atoi(value))
    case MulticastPort => Number(Atoi(value))
    case CloudIp => Text(Cut(value, 64))
    case DeviceId => Text(Cut(value, 64))
    case ApiKey => Text(Cut(value, 256))
    case LogPath => Text(Cut(value, 256))
    case MulticastIp => Text(Cut(value, 32))
    case LocalIp => Text(Cut(value, 32))
  }

  lemma AssignSetsOneField(c: Settings, key: string, value: string, k: Key)
    ensures Get(Assign(c, key, value), k) == if key == Name(k) then Converted(k, value) else Get(c, k)
  {
  }

  /** atoi reads blanks, a sign and digits as the number they denote, whatever follows ... */
  lemma AtoiReads(blanks: string, sign: string, digits: string, rest: string)
    requires AllBlank(blanks) && IsSign(sign) && digits != "" && AllDigits(digits)
    requires rest == "" || !IsDigit(rest[0])
    ensures Atoi(blanks + (sign + (digits + rest))) == if sign == "-" then 0 - NatOf(digits) else NatOf(digits)
  {
    SkipSpaceBlank(blanks, sign + (digits + rest));
    SkipSignOf(sign, digits + rest);
    SplitDigitsOf(digits, rest);
  }

  /** ... and a text without digits after blanks and sign as 0. */
  lemma AtoiOfNoNumber(blanks: string, sign: string, rest: string)
    requires AllBlank(blanks) && IsSign(sign)
    requires rest == "" || !(IsDigit(rest[0]) || IsSpace(rest[0]) || HasSign(rest))
    ensures Atoi(blanks + (sign + rest)) == 0
  {
    SkipSpaceBlank(blanks, sign + rest);
    SkipSignOf(sign, rest);
    assert "" + rest == rest;
    SplitDigitsOf("", rest);
  }

  /** Ports come out as they are written. */
  lemma AtoiOfPrinted(n: nat)
    ensures Atoi(PrintNat(n)) == n && Atoi("-" + PrintNat(n)) == 0 - n
  {
    NatOfPrintNat(n);
    assert "" + ("" + (PrintNat(n) + "")) == PrintNat(n);
    assert "" + ("-" + (PrintNat(n) + "")) == "-" + PrintNat(n);
    AtoiReads("", "", PrintNat(n), "");
    AtoiReads("", "-", PrintNat(n), "");
  }

  predicate IsPort(k: Key) { k == CloudPort || k == MulticastPort }

  /** Characters a field can hold besides its NUL. */
  function Capacity(k: Key): nat {
    match k
    case CloudIp => 63
    case DeviceId => 63
    case ApiKey => 255
    case LogPath => 255
    case MulticastIp => 31
    case LocalIp => 31
    case CloudPort => 0
    case MulticastPort => 0
  }

  /** A text field keeps the beginning of the value, all of it if it fits. */
  lemma FieldKeepsPrefix(c: Settings, k: Key, value: string)
    requires !IsPort(k)
    ensures match Get(Assign(c, Name(k), value), k)
            case Text(s) => s <= value && |s| == if |value| <= Capacity(k) then |value| else Capacity(k)
            case Number(_) => false
  {
    AssignSetsOneField(c, Name(k), value, k);
  }

  /** A port line such as `CLOUD_PORT = 80`, with blanks and line end as they come, sets
      exactly that number. */
  lemma PortLine(c: Settings, k: Key, w1: string, w2: string, w3: string, n: nat, w4: string)
    requires IsPort(k) && AllBlank(w1) && AllBlank(w2) && AllBlank(w3) && AllBlank(w4)
    ensures Get(ApplyLine(c, w1 + (Name(k) + w2 + ("=" + (w3 + PrintNat(n)))) + w4), k) == Number(n)
  {
    var digits := PrintNat(n);
    assert !IsSpace(digits[0]) && !IsSpace(digits[|digits| - 1]);
    PaddedAssignment(w1, Name(k), w2, w3, digits, w4);
    AssignSetsOneField(c, Name(k), digits, k);
    AtoiOfPrinted(n);
  }

  /** The value of the last line that assigns to `key`. */
  ghost function LastAssigned(lines: seq<string>, key: string): Option<string> {
    if lines == [] then None
    else
      match Assignment(lines[|lines| - 1])
      case Some((k, value)) => if k == key then Some(value) else LastAssigned(lines[..|lines| - 1], key)
      case None => LastAssigned(lines[..|lines| - 1], key)
  }

  /** Per key the last assignment wins, and a key that is never assigned keeps its field. */
  lemma {:induction false} LastAssignmentWins(c: Settings, lines: seq<string>, k: Key)
    ensures Get(ApplyLines(c, lines), k)
            == match LastAssigned(lines, Name(k))
               case Some(value) => Converted(k, value)
               case None => Get(c, k)
  {
    if lines != [] {
      var init, last := lines[..|lines| - 1], lines[|lines| - 1];
      LastAssignmentWins(c, init, k);
      match Assignment(last)
      case None =>
      case Some((key, value)) => AssignSetsOneField(ApplyLines(c, init), key, value, k);
    }
  }

  lemma {:induction false} ApplyConcat(c: Settings, first: seq<string>, second: seq<string>)
    ensures ApplyLines(c, first + second) == ApplyLines(ApplyLines(c, first), second)
    decreases |second|
  {
    if second == [] {
      assert first + second == first;
    } else {
      assert (first + second)[..|first + second| - 1] == first + second[..|second| - 1];
      ApplyConcat(c, first, second[..|second| - 1]);
    }
  }

  /** Lines that assign nothing can be inserted anywhere. */
  lemma NoiseDoesNotMatter(c: Settings, before: seq<string>, noise: string, after: seq<string>)
    requires Assignment(noise) == None
    ensures ApplyLines(c, before + [noise] + after) == ApplyLines(c, before + after)
  {
    ApplyConcat(c, before + [noise], after);
    ApplyConcat(c, before, after);
    assert (before + [noise])[..|before|] == before;
  }

  lemma StripBlank(w: string)
    requires AllBlank(w)
    ensures Strip(w) == ""
  {
    StripOfPadded(w, "", "");
    assert w + "" + "" == w;
  }

  /** Blank lines and comment lines are such noise, also when they are indented. */
  lemma BlanksAndCommentsAreNoise(w: string, comment: string)
    requires AllBlank(w)
    ensures Assignment(w) == None
    ensures Assignment(w + "#" + comment) == None
  {
    StripBlank(w);
    var text := "#" + comment;
    assert w + "#" + comment == w + text;
    SkipSpaceBlank(w, text);
    var b := StripRightSplits(text);
  }

  /** A line without '=' assigns nothing either. */
  lemma NoEqualsIsNoise(line: string)
    requires '=' !in line
    ensures Assignment(line) == None
  {
    StripHasNo(line, '=');
  }

  /** Splitting a stripped line at its first '='. */
  lemma SplitAtEquals(line: string, left: string, right: string)
    requires Strip(line) == left + ("=" + right) && '=' !in left && (left == "" || left[0] != '#')
    ensures Assignment(line) == Some((Strip(left), Strip(right)))
  {
    var t := Strip(line);
    assert t[|left|] == '=' && t[..|left|] == left && t[|left| + 1..] == right;
    assert forall j :: 0 <= j < |left| ==> t[j] == left[j];
    assert IndexOf(t, '=') == |left|;
  }

  /** `left=right` with blank text around it; the ends of the core are not blank. */
  lemma PaddedCore(before: string, left: string, right: string, after: string)
    requires AllBlank(before) && AllBlank(after) && '=' !in left
    requires left == "" || (left[0] != '#' && !IsSpace(left[0]))
    requires right == "" || !IsSpace(right[|right| - 1])
    ensures Assignment(before + (left + ("=" + right)) + after) == Some((Strip(left), Strip(right)))
  {
    var core := left + ("=" + right);
    assert core[0] == (if left == "" then '=' else left[0]);
    assert core[|core| - 1] == (if right == "" then '=' else right[|right| - 1]);
    StripOfPadded(before, core, after);
    SplitAtEquals(before + core + after, left, right);
  }

  /** Conversely, a line that assigns has a key without '=' and a value, both stripped, with
      nothing but blanks around them. */
  lemma AssignmentsArePadded(line: string) returns (w1: string, w2: string, w3: string, w4: string)
    requires Assignment(line).Some?
    ensures AllBlank(w1) && AllBlank(w2) && AllBlank(w3) && AllBlank(w4)
    ensures var (key, value) := Assignment(line).value;
            && '=' !in key && Stripped(key) && Stripped(value)
            && line == w1 + (key + w2 + ("=" + (w3 + value))) + w4
  {
    var t := Strip(line);
    var eq := IndexOf(t, '=');
    var before, after := StripSplits(line);
    var l1, l2, r1, r2 := SidesArePadded(t, eq);
    w1, w2, w3, w4 := before + l1, l2, r1, r2 + after;
    Pieces(before, l1, Strip(t[..eq]), l2, r1, Strip(t[eq + 1..]), r2, after);
  }

  lemma SidesArePadded(t: string, eq: nat) returns (l1: string, l2: string, r1: string, r2: string)
    requires eq < |t| && eq == IndexOf(t, '=')
    ensures AllBlank(l1) && AllBlank(l2) && AllBlank(r1) && AllBlank(r2)
    ensures '=' !in Strip(t[..eq]) && Stripped(Strip(t[..eq])) && Stripped(Strip(t[eq + 1..]))
    ensures t == l1 + Strip(t[..eq]) + l2 + ("=" + (r1 + Strip(t[eq + 1..]) + r2))
  {
    l1, l2 := StripSplits(t[..eq]);
    r1, r2 := StripSplits(t[eq + 1..]);
    assert t == t[..eq] + ("=" + t[eq + 1..]);
    StripHasNo(t[..eq], '=');
  }

  lemma StripHasNo(s: string, c: char)
    requires c !in s
    ensures c !in Strip(s)
  {
    var a, b := StripSplits(s);
    assert forall k :: 0 <= k < |Strip(s)| ==> Strip(s)[k] == s[|a| + k];
  }

  lemma Pieces(a: string, b: string, c: string, d: string, e: string, f: string, g: string, h: string)
    ensures a + (b + c + d + ("=" + (e + f + g))) + h == a + b + (c + d + ("=" + (e + f))) + (g + h)
  {
  }

  ghost function KeyPart(key: string, w: string): string { if key == "" then "" else key + w }

  ghost function ValuePart(w: string, value: string): string { if value == "" then "" else w + value }

  lemma PartsStrip(key: string, w2: string, w3: string, value: string)
    requires AllBlank(w2) && AllBlank(w3) && Stripped(key) && Stripped(value)
    ensures Strip(KeyPart(key, w2)) == key && Strip(ValuePart(w3, value)) == value
  {
    StripOfPadded("", key, w2);
    assert "" + key + w2 == key + w2;
    StripOfPadded(w3, value, "");
    assert w3 + value + "" == w3 + value;
  }

  /** White space around the line, the key and the value does not matter. */
  lemma PaddedAssignment(w1: string, key: string, w2: string, w3: string, value: string, w4: string)
    requires AllBlank(w1) && AllBlank(w2) && AllBlank(w3) && AllBlank(w4)
    requires Stripped(key) && Stripped(value) && (key == "" || key[0] != '#')
    requires '=' !in key
    ensures Assignment(w1 + (key + w2 + ("=" + (w3 + value))) + w4) == Some((key, value))
  {
    var before := if key == "" then w1 + w2 else w1;
    var after := if value == "" then w3 + w4 else w4;
    PartsStrip(key, w2, w3, value);
    Regrouped(w1, key, w2, w3, value, w4);
    PaddedCore(before, KeyPart(key, w2), ValuePart(w3, value), after);
  }

  lemma Regrouped(w1: string, key: string, w2: string, w3: string, value: string, w4: string)
    ensures w1 + (key + w2 + ("=" + (w3 + value))) + w4
            == (if key == "" then w1 + w2 else w1)
               + (KeyPart(key, w2) + ("=" + ValuePart(w3, value)))
               + (if value == "" then w3 + w4 else w4)
  {
  }

  // ---------- lines and chunks ----------

  ghost function Concatenated(lines: seq<string>): string {
    if lines == [] then "" else lines[0] + Concatenated(lines[1..])
  }

  /** A line as it stands in the file: no NUL, one newline, at its end. */
  ghost predicate IsLine(line: string) {
    && line != "" && NUL !in line && |line| < LINE_SIZE
    && forall k :: 0 <= k < |line| ==> (line[k] == '\n' <==> k == |line| - 1)
  }

  /** The last line of a file that does not end in a newline. */
  ghost predicate IsLastLine(line: string) {
    line != "" && NUL !in line && '\n' !in line && |line| < LINE_SIZE
  }

  /** fgets delivers the lines of a file, one by one, when none exceeds 511 characters; the
      last one may lack its newline. */
  lemma {:induction false} ChunksAreLines(lines: seq<string>)
    requires forall i :: 0 <= i < |lines| ==> IsLine(lines[i]) || (i == |lines| - 1 && IsLastLine(lines[i]))
    ensures Chunks(Concatenated(lines)) == lines
  {
    if |lines| == 1 && IsLastLine(lines[0]) {
      LastChunk(lines[0]);
      assert Concatenated(lines) == lines[0];
    } else if lines != [] {
      ChunksAreLines(lines[1..]);
      FirstChunk(lines[0], Concatenated(lines[1..]));
    }
  }

  lemma FirstChunk(first: string, rest: string)
    requires IsLine(first)
    ensures Chunks(first + rest) == [first] + Chunks(rest)
  {
    var text := first + rest;
    assert text[|first| - 1] == '\n' && forall k :: 0 <= k < |first| - 1 ==> text[k] == first[k] != '\n';
    assert IndexOf(text, '\n') == |first| - 1;
    assert ChunkLength(text) == |first|;
    assert text[..|first|] == first && text[|first|..] == rest;
    assert IndexOf(first, NUL) == |first|;
  }

  /** A longer line comes in pieces of 511 characters. */
  lemma LongLineComesInPieces(text: string)
    requires 511 <= |text| && forall k :: 0 <= k < 511 ==> text[k] != '\n' && text[k] != NUL
    ensures Chunks(text) == [text[..511]] + Chunks(text[511..])
  {
    var newline := IndexOf(text, '\n');
    assert newline >= 511;
    if newline < |text| && newline + 1 < LINE_SIZE { assert false; }
    if |text| < LINE_SIZE { assert text[..511] == text && text[511..] == ""; }
    assert ChunkLength(text) == 511;
    assert IndexOf(text[..511], NUL) == 511;
    assert text[..511][..511] == text[..511];
  }

  lemma LastChunk(line: string)
    requires IsLastLine(line)
    ensures Chunks(line) == [line]
  {
    assert IndexOf(line, '\n') == |line| && line[..|line|] == line && line[|line|..] == "";
    assert IndexOf(line, NUL) == |line|;
  }
}
