/** The numbers `%lf` and `%u` accept, as texts, and what they denote. */
module NumberTexts {
  import opened CText

  // ---------- the value of a decimal ----------

  /** A decimal with exponent 0 is its mantissa, and a tenfold mantissa undoes an exponent
      smaller by one: the value is the mantissa times a power of ten, whatever the exponent. */
  lemma ValueScales(negative: bool, m: nat, e: int)
    ensures Decimal(negative, m, 0).Value() == if negative then -(m as real) else m as real
    ensures Decimal(negative, 10 * m, e - 1).Value() == Decimal(negative, m, e).Value()
  {
    if e <= 0 {
      TenfoldQuotient(m as real, Pow10(-e) as real);
    } else {
      TenfoldProduct(m, Pow10(e - 1));
    }
  }

  lemma TenfoldQuotient(m: real, p: real)
    requires p > 0.0
    ensures (10.0 * m) / (10.0 * p) == m / p
  {
    var q := m / p;
    assert q * p == m;
    assert q * (10.0 * p) == 10.0 * m;
  }

  /** x * 10^e */
  function Scaled(x: real, e: int): real
    decreases if e < 0 then -e else e
  {
    if e == 0 then x else if e > 0 then Scaled(10.0 * x, e - 1) else Scaled(x / 10.0, e + 1)
  }

  lemma ScaledStep(x: real, e: int)
    ensures Scaled(10.0 * x, e - 1) == Scaled(x, e)
  {
    if e <= 0 { assert (10.0 * x) / 10.0 == x; }
  }

  lemma {:induction false} ScaledAdds(x: real, y: real, e: int)
    ensures Scaled(x + y, e) == Scaled(x, e) + Scaled(y, e)
    decreases if e < 0 then -e else e
  {
    if e > 0 {
      ScaledAdds(10.0 * x, 10.0 * y, e - 1);
      assert 10.0 * (x + y) == 10.0 * x + 10.0 * y;
    } else if e < 0 {
      ScaledAdds(x / 10.0, y / 10.0, e + 1);
      assert (x + y) / 10.0 == x / 10.0 + y / 10.0;
    }
  }

  lemma {:induction false} ScaledTwice(x: real, k: int, e: int)
    ensures Scaled(Scaled(x, k), e) == Scaled(x, k + e)
    decreases if k < 0 then -k else k
  {
    if k > 0 {
      ScaledTwice(10.0 * x, k - 1, e);
      ScaledStep(x, k + e);
    } else if k < 0 {
      ScaledTwice(x / 10.0, k + 1, e);
      ScaledStep(x / 10.0, k + 1 + e);
      assert 10.0 * (x / 10.0) == x;
    }
  }

  lemma {:induction false} ScaledUp(m: nat, k: nat)
    ensures Scaled(m as real, k) == Shifted(m, k) as real
    decreases k
  {
    if 0 < k {
      ScaledUp(10 * m, k - 1);
      assert (10 * m) as real == 10.0 * m as real;
      TenfoldProduct(m, Pow10(k - 1));
      MovesTen(m, Pow10(k - 1));
    }
  }

  lemma MovesTen(m: nat, p: nat)
    ensures (10 * m) * p == m * (10 * p)
  {
  }

  lemma {:induction false} ScaledDown(x: real, k: nat)
    ensures Scaled(x, 0 - k) == x / Pow10(k) as real
    decreases k
  {
    if k == 0 {
      assert Pow10(k) as real == 1.0;
    } else {
      ScaledDown(x / 10.0, k - 1);
      assert Pow10(k) as real == 10.0 * Pow10(k - 1) as real;
      DividesTen(x, Pow10(k - 1) as real);
    }
  }

  lemma DividesTen(x: real, p: real)
    requires p > 0.0
    ensures x / 10.0 / p == x / (10.0 * p)
  {
    TenfoldQuotient(x / 10.0, p);
  }

  lemma ValueIsScaled(negative: bool, m: nat, e: int)
    ensures Decimal(negative, m, e).Value() == if negative then -Scaled(m as real, e) else Scaled(m as real, e)
  {
    if e < 0 { ScaledDown(m as real, -e); } else { ScaledUp(m, e); }
  }

  // ---------- every number text `%lf` accepts ----------

  datatype ExponentText = ExponentText(letter: char, sign: string, digits: string)

  predicate IsSign(s: string) { s == "" || s == "+" || s == "-" }

  /** A decimal floating constant as strtod reads it: blanks, a sign, digits with an optional
      point, and an optional exponent. */
  datatype NumberText = NumberText(blanks: string, sign: string, whole: string, point: bool, frac: string,
                                   exponent: Option<ExponentText>) {
    predicate Valid() {
      && AllBlank(blanks) && IsSign(sign) && AllDigits(whole) && AllDigits(frac)
      && (whole != "" || frac != "") && (!point ==> frac == "")
      && match exponent
         case None => true
         case Some(x) => (x.letter == 'e' || x.letter == 'E') && IsSign(x.sign) && x.digits != "" && AllDigits(x.digits)
    }

    function ExponentPart(): string {
      match exponent
      case None => ""
      case Some(x) => [x.letter] + (x.sign + x.digits)
    }

    function Magnitude(): string {
      whole + (PointPart(point, frac) + ExponentPart())
    }

    function Text(): string {
      blanks + (sign + Magnitude())
    }

    predicate Negative() { sign == "-" }

    /** The power of ten written after the letter. */
    function Exponent(): int
      requires Valid()
    {
      match exponent
      case None => 0
      case Some(x) => if x.sign == "-" then 0 - NatOf(x.digits) else NatOf(x.digits)
    }

    /** The same as an exact decimal. */
    function AsDecimal(): Decimal
      requires Valid()
    {
      Decimal(Negative(), Joined(whole, frac), Exponent() - |frac|)
    }

    /** The number it denotes: (whole + frac / 10^|frac|) * 10^exponent. */
    function Number(): real
      requires Valid()
    {
      var m := Scaled(NatOf(whole) as real + Scaled(NatOf(frac) as real, 0 - |frac|), Exponent());
      if Negative() then -m else m
    }

    /** What follows must not prolong the number. */
    predicate Ends(tail: string) {
      tail == "" || (!IsDigit(tail[0])
                     && (!point && exponent == None ==> tail[0] != '.')
                     && (exponent == None ==> tail[0] != 'e' && tail[0] != 'E'))
    }
  }

  lemma ScanExponentText(n: NumberText, tail: string)
    requires n.Valid() && n.Ends(tail)
    ensures ScanExponent(n.ExponentPart() + tail) == Some((n.Exponent(), tail))
  {
    match n.exponent
    case None => assert "" + tail == tail;
    case Some(x) =>
      var t := [x.letter] + (x.sign + x.digits) + tail;
      assert t[1..] == x.sign + (x.digits + tail);
      SplitDigitsOf(x.digits, tail);
      SkipSignOf(x.sign, x.digits + tail);
  }

  lemma SkipSignOf(sign: string, t: string)
    requires IsSign(sign) && (t == "" || !HasSign(t))
    ensures SkipSign(sign + t) == t
    ensures (sign + t != "" && (sign + t)[0] == '-') <==> sign == "-"
  {
    if sign == "" { assert sign + t == t; }
  }

  lemma ScanMagnitudeText(n: NumberText, tail: string, u: string)
    requires n.Valid() && n.Ends(tail) && u == n.Magnitude() + tail
    ensures ScanMagnitude(n.Negative(), u) == Some((n.AsDecimal(), tail))
  {
    var rest := n.ExponentPart() + tail;
    var r1 := PointPart(n.point, n.frac) + rest;
    SplitText(n, tail, u, r1, rest);
    ScanMagnitudeOf(n.Negative(), u, n.whole, r1, n.frac, rest, n.Exponent(), n.AsDecimal(), tail);
  }

  lemma SplitText(n: NumberText, tail: string, u: string, r1: string, rest: string)
    requires n.Valid() && n.Ends(tail) && u == n.Magnitude() + tail
    requires rest == n.ExponentPart() + tail && r1 == PointPart(n.point, n.frac) + rest
    ensures SplitDigits(u) == (n.whole, r1) && SplitFraction(r1) == (n.frac, rest)
    ensures ScanExponent(rest) == Some((n.Exponent(), tail))
  {
    ScanExponentText(n, tail);
    RestEnds(n, tail);
    MagnitudeSplits(n, tail, rest);
  }

  lemma ScanMagnitudeOf(negative: bool, u: string, whole: string, r1: string, frac: string, rest: string,
                        e: int, d: Decimal, tail: string)
    requires SplitDigits(u) == (whole, r1) && SplitFraction(r1) == (frac, rest)
    requires ScanExponent(rest) == Some((e, tail)) && (whole != "" || frac != "")
    requires AllDigits(whole) && AllDigits(frac) && d == Decimal(negative, Joined(whole, frac), e - |frac|)
    ensures ScanMagnitude(negative, u) == Some((d, tail))
  {
  }

  function PointPart(point: bool, frac: string): string { if point then "." + frac else "" }

  lemma RestEnds(n: NumberText, tail: string)
    requires n.Valid() && n.Ends(tail)
    ensures var rest := n.ExponentPart() + tail;
            rest == "" || (!IsDigit(rest[0]) && (!n.point ==> rest[0] != '.'))
  {
  }

  /** The two runs of digits around an optional point. */
  lemma MagnitudeSplits(n: NumberText, tail: string, rest: string)
    requires n.Valid() && rest == n.ExponentPart() + tail
    requires rest == "" || (!IsDigit(rest[0]) && (!n.point ==> rest[0] != '.'))
    ensures var r1 := PointPart(n.point, n.frac) + rest;
            SplitDigits(n.Magnitude() + tail) == (n.whole, r1) && SplitFraction(r1) == (n.frac, rest)
  {
    var r1 := PointPart(n.point, n.frac) + rest;
    MagnitudeParts(n, tail);
    PointPartHead(n.point, n.frac, rest);
    SplitDigitsOf(n.whole, r1);
    if n.point { SplitDigitsOf(n.frac, rest); }
  }

  lemma MagnitudeParts(n: NumberText, tail: string)
    requires n.Valid()
    ensures n.Magnitude() + tail == n.whole + (PointPart(n.point, n.frac) + (n.ExponentPart() + tail))
  {
  }

  lemma PointPartHead(point: bool, frac: string, rest: string)
    ensures var r1 := PointPart(point, frac) + rest;
            if point then r1 != "" && r1[0] == '.' && r1[1..] == frac + rest else r1 == rest
  {
  }

  lemma NumberIsDecimal(n: NumberText)
    requires n.Valid()
    ensures n.AsDecimal().Value() == n.Number()
  {
    NatOfConcat(n.whole, n.frac);
    WholeAndFraction(NatOf(n.whole), NatOf(n.frac), |n.frac|, n.Exponent());
    ValueIsScaled(n.Negative(), Joined(n.whole, n.frac), n.Exponent() - |n.frac|);
  }

  lemma WholeAndFraction(w: nat, f: nat, k: nat, e: int)
    ensures Scaled(w as real + Scaled(f as real, 0 - k), e) == Scaled((Shifted(w, k) + f) as real, e - k)
  {
    ScaledAdds(w as real, Scaled(f as real, 0 - k), e);
    ScaledTwice(f as real, 0 - k, e);
    ScaledTwice(w as real, k, e - k);
    ScaledUp(w, k);
    ScaledAdds(Shifted(w, k) as real, f as real, e - k);
    assert (Shifted(w, k) + f) as real == Shifted(w, k) as real + f as real;
  }

  /** `%lf` reads every such text as the number it denotes, and stops right after it. */
  lemma ScanNumberText(n: NumberText, tail: string) returns (d: Decimal)
    requires n.Valid() && n.Ends(tail)
    ensures ScanDouble(n.Text() + tail) == Some((d, tail)) && d.Value() == n.Number()
  {
    BeforeMagnitude(n, tail);
    ScanMagnitudeText(n, tail, n.Magnitude() + tail);
    NumberIsDecimal(n);
    d := n.AsDecimal();
  }

  /** What `%f` prints is one of these texts and denotes the value printed. */
  lemma PrintedIsNumberText(v: Fixed) returns (n: NumberText)
    ensures n.Valid() && n.Text() == PrintFixed(v) && n.Number() == v.Value()
    ensures n.point && n.exponent == None
  {
    var sign := if v.negative then "-" else "";
    var whole, frac := PrintNat(v.micros / 1000000), PrintPadded(v.micros % 1000000, 6);
    n := NumberText("", sign, whole, true, frac, None);
    PrintedText(sign, whole, frac, n);
    SixPlaces();
    NatOfPrintNat(v.micros / 1000000);
    NatOfPadded(whole, v.micros % 1000000, 6);
    NumberIsDecimal(n);
    FixedAsDecimal(v);
    assert Joined(whole, frac) == v.micros;
  }

  lemma PrintedText(sign: string, whole: string, frac: string, n: NumberText)
    requires n == NumberText("", sign, whole, true, frac, None)
    ensures n.Text() == sign + (whole + ("." + frac))
  {
    assert n.ExponentPart() == "" && PointPart(true, frac) + "" == "." + frac;
  }

  /** Without a digit, or a point and a digit, after blanks and sign there is no number. */
  lemma NoNumber(blanks: string, sign: string, t: string)
    requires AllBlank(blanks) && IsSign(sign)
    requires t == "" || !(IsDigit(t[0]) || IsSpace(t[0]) || HasSign(t))
    requires t != "" && t[0] == '.' ==> |t| == 1 || !IsDigit(t[1])
    ensures ScanDouble(blanks + (sign + t)) == None && ScanUnsigned(blanks + (sign + t)) == None
  {
    SkipSpaceBlank(blanks, sign + t);
    SkipSignOf(sign, t);
  }

  /** An exponent letter without digits spoils the whole number. */
  lemma BrokenExponent(n: NumberText, letter: char, sign: string, t: string)
    requires n.Valid() && n.exponent == None && (letter == 'e' || letter == 'E') && IsSign(sign)
    requires t == "" || !(IsDigit(t[0]) || HasSign(t))
    ensures ScanDouble(n.Text() + ([letter] + (sign + t))) == None
  {
    var tail := [letter] + (sign + t);
    BeforeMagnitude(n, tail);
    BrokenMagnitude(n, tail, sign, t);
  }

  /** Blanks and sign are skipped before the digits are read. */
  lemma BeforeMagnitude(n: NumberText, tail: string)
    requires n.Valid()
    ensures ScanDouble(n.Text() + tail) == ScanMagnitude(n.Negative(), n.Magnitude() + tail)
  {
    var u := n.Magnitude() + tail;
    assert n.Text() + tail == n.blanks + (n.sign + u);
    assert u[0] == n.Magnitude()[0] && (IsDigit(u[0]) || u[0] == '.');
    SkipSpaceBlank(n.blanks, n.sign + u);
    SkipSignOf(n.sign, u);
  }

  lemma BrokenMagnitude(n: NumberText, tail: string, sign: string, t: string)
    requires n.Valid() && n.exponent == None && IsSign(sign) && (t == "" || !(IsDigit(t[0]) || HasSign(t)))
    requires tail != "" && (tail[0] == 'e' || tail[0] == 'E') && tail[1..] == sign + t
    ensures ScanMagnitude(n.Negative(), n.Magnitude() + tail) == None
  {
    assert "" + tail == tail;
    MagnitudeSplits(n, tail, tail);
    SkipSignOf(sign, t);
  }

  // ---------- every unsigned text `%u` accepts ----------

  /** The 32-bit result of a magnitude: it is kept modulo 2^32, negated if there is a minus
      sign, unless it exceeds 64 bits. */
  lemma UnsignedMeans(negative: bool, m: nat)
    ensures 0 <= UnsignedOf(negative, m) < 0x1_0000_0000
    ensures m < 0x1_0000_0000_0000_0000 ==>
              (UnsignedOf(negative, m) - (if negative then 0 - m else m)) % 0x1_0000_0000 == 0
    ensures m >= 0x1_0000_0000_0000_0000 ==> UnsignedOf(negative, m) == 0xFFFF_FFFF
    ensures !negative && m < 0x1_0000_0000 ==> UnsignedOf(negative, m) == m
  {
    if negative && 0 < m < 0x1_0000_0000_0000_0000 {
      var u := 0x1_0000_0000_0000_0000 - m;
      var r := UnsignedOf(negative, m);
      assert r + m == 0x1_0000_0000 * (0x1_0000_0000 - u / 0x1_0000_0000);
    }
  }

  lemma ScanUnsignedText(blanks: string, sign: string, digits: string, tail: string)
    requires AllBlank(blanks) && IsSign(sign) && digits != "" && AllDigits(digits)
    requires tail == "" || !IsDigit(tail[0])
    ensures ScanUnsigned(blanks + (sign + (digits + tail))) == Some((UnsignedOf(sign == "-", NatOf(digits)), tail))
  {
    SkipSpaceBlank(blanks, sign + (digits + tail));
    SkipSignOf(sign, digits + tail);
    SplitDigitsOf(digits, tail);
  }
}
