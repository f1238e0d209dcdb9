/** The parts of C text input and output the gateway uses: `%u` and `%f` of sprintf, and
    sscanf with `%u`, `%lf`, literal and white-space directives (sections 7.21.6.1 and
    7.21.6.2 of ISO/IEC 9899:2011).  Strings are C strings without their NUL. */
module CText {

  // ---------- characters and numbers ----------

  predicate IsSpace(c: char) {
    c == ' ' || '\t' <= c <= '\r'
  }

  predicate IsDigit(c: char) {
    '0' <= c <= '9'
  }

  function DigitChar(d: nat): char
    requires d < 10
  {
    '0' + d as char
  }

  function DigitValue(c: char): nat
    requires IsDigit(c)
  {
    c as nat - '0' as nat
  }

  predicate AllDigits(s: string) {
    forall k :: 0 <= k < |s| ==> IsDigit(s[k])
  }

  /** `%u`: the shortest decimal representation. */
  function PrintNat(n: nat): (s: string)
    ensures s != "" && AllDigits(s)
  {
    if n < 10 then [DigitChar(n)] else PrintNat(n / 10) + [DigitChar(n % 10)]
  }

  /** The last `width` decimal digits, leading zeros included. */
  function PrintPadded(n: nat, width: nat): (s: string)
    ensures |s| == width && AllDigits(s)
  {
    if width == 0 then "" else PrintPadded(n / 10, width - 1) + [DigitChar(n % 10)]
  }

  /** The number a digit string denotes. */
  function NatOf(s: string): nat
    requires AllDigits(s)
  {
    if s == "" then 0 else 10 * NatOf(s[..|s| - 1]) + DigitValue(s[|s| - 1])
  }

  function Pow10(k: nat): (p: nat)
    ensures 0 < p
  {
    if k == 0 then 1 else 10 * Pow10(k - 1)
  }

  function Shifted(m: nat, e: nat): nat {
    m * Pow10(e)
  }

  /** Number of decimal digits: the least k > 0 with n < 10^k. */
  function Digits(n: nat): (k: nat)
    ensures 0 < k && n < Pow10(k) && (1 < k ==> Pow10(k - 1) <= n)
  {
    if n < 10 then assert Pow10(1) == 10; 1 else 1 + Digits(n / 10)
  }

  lemma {:induction false} PrintNatLength(n: nat)
    ensures |PrintNat(n)| == Digits(n)
  {
    if 10 <= n { PrintNatLength(n / 10); }
  }

  lemma {:induction false} Pow10Grows(j: nat, k: nat)
    requires j <= k
    ensures Pow10(j) <= Pow10(k)
  {
    if j < k { Pow10Grows(j, k - 1); }
  }

  lemma {:induction false} Pow10Adds(j: nat, k: nat)
    ensures Pow10(j + k) == Pow10(j) * Pow10(k)
  {
    if 0 < j { Pow10Adds(j - 1, k); }
  }

  /** The digits of a number bound it from both sides. */
  lemma DigitsAtMost(n: nat, k: nat)
    requires 0 < k
    ensures Digits(n) <= k <==> n < Pow10(k)
  {
    if Digits(n) <= k {
      Pow10Grows(Digits(n), k);
    } else {
      Pow10Grows(k, Digits(n) - 1);
    }
  }

  lemma {:induction false} NatOfPrintNat(n: nat)
    ensures NatOf(PrintNat(n)) == n
  {
    if 10 <= n { NatOfPrintNat(n / 10); }
  }

  lemma NatOfSnoc(s: string, d: nat)
    requires AllDigits(s) && d < 10
    ensures AllDigits(s + [DigitChar(d)]) && NatOf(s + [DigitChar(d)]) == 10 * NatOf(s) + d
  {
  }

  lemma {:induction false} NatOfPadded(a: string, n: nat, width: nat)
    requires AllDigits(a) && n < Pow10(width)
    ensures AllDigits(a + PrintPadded(n, width))
    ensures NatOf(a + PrintPadded(n, width)) == NatOf(a) * Pow10(width) + n
  {
    if width == 0 {
      assert a + PrintPadded(n, width) == a;
    } else {
      var s := a + PrintPadded(n / 10, width - 1);
      NatOfPadded(a, n / 10, width - 1);
      NatOfSnoc(s, n % 10);
      assert a + PrintPadded(n, width) == s + [DigitChar(n % 10)];
      TenfoldProduct(NatOf(a), Pow10(width - 1));
    }
  }

  lemma TenfoldProduct(x: nat, y: nat)
    ensures x * (10 * y) == 10 * (x * y)
  {
  }

  /** A floating-point value as `%f` prints it and `%lf` reads it: an exact decimal. */
  datatype Decimal = Decimal(negative: bool, mantissa: nat, exponent: int) {
    function Value(): real {
      var m := if exponent >= 0 then Shifted(mantissa, exponent) as real
               else mantissa as real / Pow10(-exponent) as real;
      if negative then -m else m
    }
  }

  /** A value with six decimals, sign and all. */
  datatype Fixed = Fixed(negative: bool, micros: nat) {
    function Value(): real {
      var m := micros as real / 1000000.0;
      if negative then -m else m
    }
  }

  /** The nearest integer, an even one in a tie. */
  function NearestEven(x: real): (n: nat)
    requires 0.0 <= x
    ensures -0.5 <= n as real - x <= 0.5
    ensures n as real - x == 0.5 || n as real - x == -0.5 ==> n % 2 == 0
  {
    var f := x.Floor;
    var d := x - f as real;
    if d < 0.5 || (d == 0.5 && f % 2 == 0) then f else f + 1
  }

  /** The six decimals `%f` prints for a value, rounded to nearest. */
  function Micros(x: real): Fixed {
    Fixed(x < 0.0, NearestEven((if x < 0.0 then -x else x) * 1000000.0))
  }

  predicate HasSixDecimals(x: real) {
    (x * 1000000.0).Floor as real == x * 1000000.0
  }

  /** Printing loses at most half a unit of the sixth decimal, and nothing exactly when the
      value has no more than six. */
  lemma MicrosDenote(x: real)
    ensures -0.0000005 <= Micros(x).Value() - x <= 0.0000005
    ensures Micros(x).Value() == x <==> HasSixDecimals(x)
    ensures Micros(x).negative <==> x < 0.0
  {
    if x < 0.0 {
      MagnitudeDenotes(-x, NearestEven(-x * 1000000.0));
      SixDecimalsOfNegative(x);
    } else {
      MagnitudeDenotes(x, NearestEven(x * 1000000.0));
    }
  }

  lemma MagnitudeDenotes(a: real, n: nat)
    requires 0.0 <= a && n == NearestEven(a * 1000000.0)
    ensures -0.0000005 <= n as real / 1000000.0 - a <= 0.0000005
    ensures n as real / 1000000.0 == a <==> HasSixDecimals(a)
  {
    if HasSixDecimals(a) {
      NearestOfInteger((a * 1000000.0).Floor, a * 1000000.0);
    } else if n as real / 1000000.0 == a {
      IntegerFloor(n, a * 1000000.0);
    }
  }

  lemma SixDecimalsOfNegative(x: real)
    ensures HasSixDecimals(-x) <==> HasSixDecimals(x)
  {
    var y := x * 1000000.0;
    assert -x * 1000000.0 == -y;
    if y.Floor as real == y { IntegerFloor(-y.Floor, -y); }
    if (-y).Floor as real == -y { IntegerFloor(-(-y).Floor, y); }
  }

  lemma NearestOfInteger(m: int, y: real)
    requires m as real == y && 0.0 <= y
    ensures NearestEven(y) == m
  {
  }

  lemma IntegerFloor(m: int, y: real)
    requires m as real == y
    ensures y.Floor == m
  {
  }

  /** `%f`. */
  function PrintFixed(v: Fixed): string {
    (if v.negative then "-" else "") + PrintMicros(v.micros)
  }

  function PrintMicros(micros: nat): string {
    PrintNat(micros / 1000000) + ("." + PrintPadded(micros % 1000000, 6))
  }

  // ---------- sscanf ----------

  datatype Option<T> = None | Some(value: T)

  function SkipSpace(t: string): string {
    if t != "" && IsSpace(t[0]) then SkipSpace(t[1..]) else t
  }

  predicate AllBlank(s: string) {
    forall k :: 0 <= k < |s| ==> IsSpace(s[k])
  }

  /** The six white-space characters of the C locale. */
  lemma SpaceCharacters(c: char)
    ensures IsSpace(c) <==> c in " \n\t\r" || c == 0x0B as char || c == 0x0C as char
  {
  }

  lemma {:induction false} SkipSpaceBlank(w: string, t: string)
    requires AllBlank(w) && (t == "" || !IsSpace(t[0]))
    ensures SkipSpace(w + t) == t
  {
    if w == "" {
      assert w + t == t;
    } else {
      assert (w + t)[1..] == w[1..] + t;
      SkipSpaceBlank(w[1..], t);
    }
  }

  lemma {:induction false} SkipSpaceTwice(t: string)
    ensures SkipSpace(SkipSpace(t)) == SkipSpace(t)
  {
    if t != "" && IsSpace(t[0]) { SkipSpaceTwice(t[1..]); }
  }

  /** Length of the longest prefix of digits. */
  function DigitRun(t: string): (n: nat)
    ensures n <= |t| && forall k :: 0 <= k < n ==> IsDigit(t[k])
    ensures n < |t| ==> !IsDigit(t[n])
  {
    if t != "" && IsDigit(t[0]) then 1 + DigitRun(t[1..]) else 0
  }

  /** The longest prefix of digits and what follows it. */
  function SplitDigits(t: string): (r: (string, string))
    ensures AllDigits(r.0)
  {
    (t[..DigitRun(t)], t[DigitRun(t)..])
  }

  predicate HasSign(t: string) {
    t != "" && (t[0] == '+' || t[0] == '-')
  }

  function SkipSign(t: string): string {
    if HasSign(t) then t[1..] else t
  }

  /** `%u` into a 32-bit unsigned: strtoul's 64-bit result, saturated, then truncated. */
  function UnsignedOf(negative: bool, magnitude: nat): nat {
    var u := if magnitude > 0xFFFF_FFFF_FFFF_FFFF then 0xFFFF_FFFF_FFFF_FFFF
             else if negative then (0x1_0000_0000_0000_0000 - magnitude) % 0x1_0000_0000_0000_0000
             else magnitude;
    u % 0x1_0000_0000
  }

  function ScanUnsigned(input: string): Option<(nat, string)> {
    var t := SkipSpace(input);
    var negative, u := t != "" && t[0] == '-', SkipSign(t);
    var (digits, rest) := SplitDigits(u);
    if digits == "" then None else Some((UnsignedOf(negative, NatOf(digits)), rest))
  }

  /** The exponent part, if there is one; a broken one makes the whole item a mismatch. */
  function ScanExponent(t: string): Option<(int, string)> {
    if t == "" || (t[0] != 'e' && t[0] != 'E') then Some((0, t))
    else
      var (digits, rest) := SplitDigits(SkipSign(t[1..]));
      if digits == "" then None
      else Some((if |t| > 1 && t[1] == '-' then 0 - NatOf(digits) else NatOf(digits), rest))
  }

  /** The digits after a point, if there is one. */
  function SplitFraction(t: string): (r: (string, string))
    ensures AllDigits(r.0)
  {
    if t != "" && t[0] == '.' then SplitDigits(t[1..]) else ("", t)
  }

  /** Digits with an optional point, then an optional exponent. */
  function ScanMagnitude(negative: bool, u: string): Option<(Decimal, string)> {
    var (whole, r1) := SplitDigits(u);
    var (frac, r2) := SplitFraction(r1);
    if whole == "" && frac == "" then None else WithExponent(negative, Joined(whole, frac), |frac|, ScanExponent(r2))
  }

  /** The digits on both sides of the point as one number. */
  function Joined(whole: string, frac: string): nat
    requires AllDigits(whole) && AllDigits(frac)
  {
    NatOf(whole + frac)
  }

  function WithExponent(negative: bool, mantissa: nat, places: nat, exponent: Option<(int, string)>)
      : Option<(Decimal, string)>
  {
    match exponent
    case None => None
    case Some((e, rest)) => Some((Decimal(negative, mantissa, e - places), rest))
  }

  /** `%lf`, for decimal input. */
  function ScanDouble(input: string): Option<(Decimal, string)> {
    var t := SkipSpace(input);
    ScanMagnitude(t != "" && t[0] == '-', SkipSign(t))
  }

  datatype Directive = Literal(c: char) | Blank | Unsigned | Double

  datatype Item = U(value: nat) | D(decimal: Decimal)

  /** What sscanf assigned, whether it reached the end of the format, and the unread input. */
  datatype ScanResult = ScanResult(items: seq<Item>, complete: bool, rest: string)

  function Scan(fmt: seq<Directive>, t: string): ScanResult
    decreases |fmt|, 1
  {
    if fmt == [] then ScanResult([], true, t) else ScanStep(fmt[0], fmt[1..], t)
  }

  /** One directive, then the rest of the format. */
  function ScanStep(d: Directive, fmt: seq<Directive>, t: string): ScanResult
    decreases |fmt| + 1, 0
  {
    match d
    case Literal(c) => if t != "" && t[0] == c then Scan(fmt, t[1..]) else ScanResult([], false, t)
    case Blank => Scan(fmt, SkipSpace(t))
    case Unsigned =>
      (match ScanUnsigned(t)
       case None => ScanResult([], false, t)
       case Some((v, rest)) => Prepend(U(v), Scan(fmt, rest)))
    case Double =>
      (match ScanDouble(t)
       case None => ScanResult([], false, t)
       case Some((d, rest)) => Prepend(D(d), Scan(fmt, rest)))
  }

  function Prepend(item: Item, r: ScanResult): ScanResult {
    r.(items := [item] + r.items)
  }

  function Literals(s: string): seq<Directive> {
    seq(|s|, k requires 0 <= k < |s| => Literal(s[k]))
  }

  // ---------- reading back what was printed ----------

  lemma {:induction false} DigitRunOf(s: string, t: string)
    requires AllDigits(s)
    requires t == "" || !IsDigit(t[0])
    ensures DigitRun(s + t) == |s|
  {
    if s == "" {
      assert s + t == t;
    } else {
      assert (s + t)[1..] == s[1..] + t;
      DigitRunOf(s[1..], t);
    }
  }

  lemma SplitDigitsOf(s: string, t: string)
    requires AllDigits(s)
    requires t == "" || !IsDigit(t[0])
    ensures SplitDigits(s + t) == (s, t)
  {
    DigitRunOf(s, t);
  }

  lemma ScanHead(d: Directive, fmt: seq<Directive>, t: string)
    ensures Scan([d] + fmt, t) == ScanStep(d, fmt, t)
  {
  }

  lemma ScanLiteral(c: char, fmt: seq<Directive>, t: string)
    ensures Scan([Literal(c)] + fmt, [c] + t) == Scan(fmt, t)
  {
  }

  lemma {:induction false} ScanLiterals(s: string, fmt: seq<Directive>, t: string)
    ensures Scan(Literals(s) + fmt, s + t) == Scan(fmt, t)
  {
    if s == "" {
      assert Literals(s) + fmt == fmt && s + t == t;
    } else {
      assert Literals(s) + fmt == [Literal(s[0])] + (Literals(s[1..]) + fmt);
      assert s + t == [s[0]] + (s[1..] + t);
      ScanLiteral(s[0], Literals(s[1..]) + fmt, s[1..] + t);
      ScanLiterals(s[1..], fmt, t);
    }
  }

  /** How many items a format can assign. */
  function Conversions(fmt: seq<Directive>): nat {
    if fmt == [] then 0 else (if fmt[0].Unsigned? || fmt[0].Double? then 1 else 0) + Conversions(fmt[1..])
  }

  /** A scan that reaches the end of its format has assigned every item. */
  lemma {:induction false} CompleteAssignsAll(fmt: seq<Directive>, t: string)
    ensures |Scan(fmt, t).items| <= Conversions(fmt)
    ensures Scan(fmt, t).complete ==> |Scan(fmt, t).items| == Conversions(fmt)
    decreases |fmt|
  {
    if fmt != [] {
      match fmt[0]
      case Literal(c) => if t != "" { CompleteAssignsAll(fmt[1..], t[1..]); }
      case Blank => CompleteAssignsAll(fmt[1..], SkipSpace(t));
      case Unsigned => if ScanUnsigned(t).Some? { CompleteAssignsAll(fmt[1..], ScanUnsigned(t).value.1); }
      case Double => if ScanDouble(t).Some? { CompleteAssignsAll(fmt[1..], ScanDouble(t).value.1); }
    }
  }

  /** A run of digits is read back by `%u` up to the first other character. */
  lemma ScanDigits(s: string, n: nat, t: string)
    requires s != "" && AllDigits(s) && NatOf(s) == n < 0x1_0000_0000
    requires t == "" || !IsDigit(t[0])
    ensures ScanUnsigned(s + t) == Some((n, t))
  {
    assert IsDigit((s + t)[0]);
    SplitDigitsOf(s, t);
  }

  lemma ScanPrintedNat(n: nat, t: string)
    requires n < 0x1_0000_0000 && (t == "" || !IsDigit(t[0]))
    ensures ScanUnsigned(PrintNat(n) + t) == Some((n, t))
  {
    NatOfPrintNat(n);
    ScanDigits(PrintNat(n), n, t);
  }

  /** Two runs of digits around a point are read back by `%lf`, unless an exponent follows. */
  lemma ScanPointNumber(negative: bool, whole: string, frac: string, m: nat, t: string)
    requires whole != "" && AllDigits(whole) && AllDigits(frac)
    requires AllDigits(whole + frac) && NatOf(whole + frac) == m
    requires t == "" || (!IsDigit(t[0]) && t[0] != 'e' && t[0] != 'E')
    ensures ScanMagnitude(negative, whole + ("." + (frac + t))) == Some((Decimal(negative, m, 0 - |frac|), t))
  {
    var tail := "." + (frac + t);
    SplitDigitsOf(whole, tail);
    DropPoint(frac + t);
    SplitDigitsOf(frac, t);
    assert ScanExponent(t) == Some((0, t));
  }

  lemma DropPoint(s: string)
    ensures ("." + s)[1..] == s
  {
  }

  lemma Regroup(a: string, b: string, c: string, d: string)
    ensures a + (b + c) + d == a + (b + (c + d))
  {
  }

  lemma ScanPrintedMicros(negative: bool, micros: nat, t: string)
    requires t == "" || (!IsDigit(t[0]) && t[0] != 'e' && t[0] != 'E')
    ensures ScanMagnitude(negative, PrintMicros(micros) + t) == Some((Decimal(negative, micros, -6), t))
  {
    var whole, frac := PrintNat(micros / 1000000), PrintPadded(micros % 1000000, 6);
    SixPlaces();
    NatOfPrintNat(micros / 1000000);
    NatOfPadded(whole, micros % 1000000, 6);
    ScanPointNumber(negative, whole, frac, micros, t);
    Regroup(whole, ".", frac, t);
  }

  lemma SignSplits(negative: bool, m: string, input: string)
    requires m != "" && IsDigit(m[0])
    requires input == if negative then "-" + m else m
    ensures SkipSpace(input) == input && SkipSign(input) == m && (input[0] == '-' <==> negative)
  {
  }

  /** The decimal read back has the same sign and the same digits. */
  lemma ScanPrintedFixed(v: Fixed, t: string)
    requires t == "" || (!IsDigit(t[0]) && t[0] != 'e' && t[0] != 'E')
    ensures ScanDouble(PrintFixed(v) + t) == Some((Decimal(v.negative, v.micros, -6), t))
  {
    var m := PrintMicros(v.micros) + t;
    SignedText(v, t);
    SignSplits(v.negative, m, PrintFixed(v) + t);
    ScanPrintedMicros(v.negative, v.micros, t);
  }

  lemma SignedText(v: Fixed, t: string)
    ensures var m := PrintMicros(v.micros) + t;
            m != "" && IsDigit(m[0]) && PrintFixed(v) + t == if v.negative then "-" + m else m
  {
  }

  lemma SixPlaces()
    ensures Pow10(6) == 1000000
  {
  }

  /** ... and so the same value. */
  lemma FixedAsDecimal(v: Fixed)
    ensures Decimal(v.negative, v.micros, -6).Value() == v.Value()
  {
    SixPlaces();
  }

  // ---------- digits ----------

  /** The ten digits denote their position. */
  lemma DigitCharacters(d: nat)
    requires d < 10
    ensures DigitChar(d) == "0123456789"[d] && IsDigit(DigitChar(d)) && DigitValue(DigitChar(d)) == d
    ensures NatOf([DigitChar(d)]) == d
  {
    assert [DigitChar(d)][..0] == "";
  }

  /** Decimal notation is positional. */
  lemma {:induction false} NatOfConcat(a: string, b: string)
    requires AllDigits(a) && AllDigits(b)
    ensures AllDigits(a + b) && NatOf(a + b) == NatOf(a) * Pow10(|b|) + NatOf(b)
  {
    if b == "" {
      assert a + b == a;
    } else {
      var init := b[..|b| - 1];
      var t := a + b;
      NatOfConcat(a, init);
      assert t[..|t| - 1] == a + init && t[|t| - 1] == b[|b| - 1];
      assert NatOf(t) == 10 * NatOf(a + init) + DigitValue(b[|b| - 1]);
      TenfoldProduct(NatOf(a), Pow10(|init|));
    }
  }
}
