/** The Base64 codec of section 4 of RFC 4648, with which the gateway encodes its API key.
    The functions take the alphabet as a parameter, as the C searches do; `ALPHABET` is the
    one the gateway uses. */
module Base64 {
  type Byte = bv8

  const UPPER: string := "ABCDEFGHIJKLMNOPQRSTUVWXYZ"
  const LOWER: string := "abcdefghijklmnopqrstuvwxyz"
  const OTHERS: string := "0123456789+/"
  const ALPHABET: string := UPPER + LOWER + OTHERS
  const PAD: char := '='
  const NUL: char := '\0'

  // ---------- the alphabet ----------

  /** What the codec needs of an alphabet. */
  ghost predicate Good(al: string) {
    && |al| == 64 && PAD !in al && NUL !in al
    && forall i, j :: 0 <= i < j < |al| ==> al[i] != al[j]
  }

  /** The rank of a letter, computed from character codes instead of by searching. */
  function Rank(c: char): int {
    if 'A' <= c <= 'Z' then c as int - 65
    else if 'a' <= c <= 'z' then c as int - 71
    else if '0' <= c <= '9' then c as int + 4
    else if c == '+' then 62
    else if c == '/' then 63
    else -1
  }

  lemma UpperAt(k: nat)
    requires k < 26
    ensures UPPER[k] == 'A' + k as char
  {
  }

  lemma LowerAt(k: nat)
    requires k < 26
    ensures LOWER[k] == 'a' + k as char
  {
  }

  lemma OtherAt(k: nat)
    requires k < 12
    ensures OTHERS[k] == if k < 10 then '0' + k as char else if k == 10 then '+' else '/'
  {
  }

  lemma RankAt(j: nat)
    requires j < 64
    ensures |ALPHABET| == 64 && Rank(ALPHABET[j]) == j
  {
    if j < 26 {
      UpperAt(j);
    } else if j < 52 {
      LowerAt(j - 26);
    } else {
      OtherAt(j - 52);
    }
  }

  /** The 64 letters are distinct, in the order of table 1 of RFC 4648, and the padding
      character is not one of them. */
  lemma AlphabetIsGood()
    ensures Good(ALPHABET) && forall j :: 0 <= j < 64 ==> Rank(ALPHABET[j]) == j
  {
    RankAt(0);
    forall j | 0 <= j < |ALPHABET|
      ensures Rank(ALPHABET[j]) == j
    {
      RankAt(j);
    }
  }

  function Letter(al: string, ind: Byte): char
    requires |al| == 64 && ind < 64
  {
    al[ind as int]
  }

  /** `strchr_of_num`: the position of `c`, 64 for the terminating NUL, -1 if absent. */
  function SearchFrom(al: string, c: char, i: nat): (r: int)
    requires i <= |al|
    ensures r == -1 || i <= r <= |al|
    ensures 0 <= r < |al| ==> al[r] == c
    ensures r == -1 || r == |al| ==> forall j :: i <= j < |al| ==> al[j] != c
    ensures r == |al| ==> c == NUL
    decreases |al| - i
  {
    if i == |al| then (if c == NUL then i else -1)
    else if al[i] == c then i
    else SearchFrom(al, c, i + 1)
  }

  /** The search result as the decoder uses it: only its low eight bits matter. */
  function Index(al: string, c: char): Byte
    requires |al| == 64
  {
    LowByte(SearchFrom(al, c, 0))
  }

  function LowByte(r: int): Byte
    requires -1 <= r < 256
  {
    if r == -1 then 0xff else r as Byte
  }

  /** Searching the alphabet inverts indexing it. */
  lemma IndexOfLetter(al: string, ind: Byte)
    requires Good(al) && ind < 64
    ensures Index(al, Letter(al, ind)) == ind && Letter(al, ind) != PAD
  {
  }

  // ---------- the code as functions ----------

  function Sextet1(a: Byte): (r: Byte)
    ensures r < 64
  { (a >> 2) & 0x3f }

  function Sextet2(a: Byte, b: Byte): (r: Byte)
    ensures r < 64
  { ((a << 4) & 0x30) | ((b >> 4) & 0x0f) }

  function Sextet3(b: Byte, c: Byte): (r: Byte)
    ensures r < 64
  { ((b << 2) & 0x3c) | ((c >> 6) & 0x03) }

  function Sextet4(c: Byte): (r: Byte)
    ensures r < 64
  { c & 0x3f }

  function Octet1(i: Byte, j: Byte): Byte { ((i << 2) & 0xfc) | ((j >> 4) & 0x03) }

  function Octet2(i: Byte, j: Byte): Byte { ((i << 4) & 0xf0) | ((j >> 2) & 0x0f) }

  function Octet3(i: Byte, j: Byte): Byte { ((i << 6) & 0xc0) | (j & 0x3f) }

  /** Code of a full group, or of the last one or two bytes. */
  function EncodeGroup(al: string, g: seq<Byte>): (t: string)
    requires |al| == 64 && 1 <= |g| <= 3
    ensures |t| == 4
  {
    var b := if 1 < |g| then g[1] else 0;
    var c := if 2 < |g| then g[2] else 0;
    [Letter(al, Sextet1(g[0])),
     Letter(al, Sextet2(g[0], b)),
     if 1 < |g| then Letter(al, Sextet3(b, c)) else PAD,
     if 2 < |g| then Letter(al, Sextet4(c)) else PAD]
  }

  function Encode(al: string, s: seq<Byte>): string
    requires |al| == 64
  {
    if s == [] then ""
    else if |s| <= 3 then EncodeGroup(al, s)
    else EncodeGroup(al, s[..3]) + Encode(al, s[3..])
  }

  function DecodeGroup(al: string, t: string): (g: seq<Byte>)
    requires |al| == 64 && |t| == 4
    ensures 1 <= |g| <= 3
  {
    var i0, i1, i2, i3 := Index(al, t[0]), Index(al, t[1]), Index(al, t[2]), Index(al, t[3]);
    if t[2] == PAD then [Octet1(i0, i1)]
    else if t[3] == PAD then [Octet1(i0, i1), Octet2(i1, i2)]
    else [Octet1(i0, i1), Octet2(i1, i2), Octet3(i2, i3)]
  }

  function Decode(al: string, t: string): seq<Byte>
    requires |al| == 64 && |t| % 4 == 0
  {
    if t == [] then [] else DecodeGroup(al, t[..4]) + Decode(al, t[4..])
  }

  // ---------- properties ----------

  /** A group of three bytes and its four sextets are the same 24 bits. */
  lemma SameTwentyFourBits(a: Byte, b: Byte, c: Byte)
    ensures (Sextet1(a) as bv24 << 18) | (Sextet2(a, b) as bv24 << 12) | (Sextet3(b, c) as bv24 << 6)
            | (Sextet4(c) as bv24)
            == (a as bv24 << 16) | (b as bv24 << 8) | (c as bv24)
  {
  }

  /** The last one or two bytes and their sextets: the same bits, followed by zeros. */
  lemma SamePaddedBits(a: Byte, b: Byte)
    ensures (Sextet1(a) as bv24 << 6) | (Sextet2(a, 0) as bv24) == a as bv24 << 4
    ensures (Sextet1(a) as bv24 << 12) | (Sextet2(a, b) as bv24 << 6) | (Sextet3(b, 0) as bv24)
            == (a as bv24 << 10) | (b as bv24 << 2)
  {
  }

  /** The octets are the low six bits of any four values, no letter need stand for them. */
  lemma OctetBits(w: Byte, x: Byte, y: Byte, z: Byte)
    ensures (Octet1(w, x) as bv24 << 16) | (Octet2(x, y) as bv24 << 8) | (Octet3(y, z) as bv24)
            == ((w & 0x3f) as bv24 << 18) | ((x & 0x3f) as bv24 << 12) | ((y & 0x3f) as bv24 << 6)
               | ((z & 0x3f) as bv24)
  {
  }

  /** The letters of a group stand for the bytes' bits, six at a time, followed by as many zero
      bits as section 4 of RFC 4648 demands, and the rest is padding. */
  lemma GroupBits(al: string, g: seq<Byte>) returns (w: Byte, x: Byte, y: Byte, z: Byte)
    requires |al| == 64 && 1 <= |g| <= 3
    ensures w < 64 && x < 64 && y < 64 && z < 64
    ensures EncodeGroup(al, g)[0] == al[w as int] && EncodeGroup(al, g)[1] == al[x as int]
    ensures EncodeGroup(al, g)[2] == if 2 <= |g| then al[y as int] else PAD
    ensures EncodeGroup(al, g)[3] == if |g| == 3 then al[z as int] else PAD
    ensures |g| == 1 ==> (w as bv24 << 6) | (x as bv24) == g[0] as bv24 << 4
    ensures |g| == 2 ==> (w as bv24 << 12) | (x as bv24 << 6) | (y as bv24)
                         == (g[0] as bv24 << 10) | (g[1] as bv24 << 2)
    ensures |g| == 3 ==> (w as bv24 << 18) | (x as bv24 << 12) | (y as bv24 << 6) | (z as bv24)
                         == (g[0] as bv24 << 16) | (g[1] as bv24 << 8) | (g[2] as bv24)
  {
    var b, c := if 1 < |g| then g[1] else 0, if 2 < |g| then g[2] else 0;
    w, x, y, z := Sextet1(g[0]), Sextet2(g[0], b), Sextet3(b, c), Sextet4(c);
    SamePaddedBits(g[0], b);
    SameTwentyFourBits(g[0], b, c);
  }

  /** A character outside the alphabet decodes as the bits of -1. */
  lemma IndexOfForeign(al: string, c: char)
    requires Good(al) && c !in al && c != NUL
    ensures Index(al, c) == 0xff
  {
  }

  lemma OctetsOfSextets(a: Byte, b: Byte, c: Byte)
    ensures Octet1(Sextet1(a), Sextet2(a, b)) == a
    ensures Octet2(Sextet2(a, b), Sextet3(b, c)) == b
    ensures Octet3(Sextet3(b, c), Sextet4(c)) == c
  {
  }

  lemma DecodeLetters(al: string, x0: Byte, x1: Byte, x2: Byte, x3: Byte)
    requires Good(al) && x0 < 64 && x1 < 64 && x2 < 64 && x3 < 64
    ensures forall c :: DecodeGroup(al, [Letter(al, x0), Letter(al, x1), PAD, c]) == [Octet1(x0, x1)]
    ensures DecodeGroup(al, [Letter(al, x0), Letter(al, x1), Letter(al, x2), PAD]) == [Octet1(x0, x1), Octet2(x1, x2)]
    ensures DecodeGroup(al, [Letter(al, x0), Letter(al, x1), Letter(al, x2), Letter(al, x3)])
            == [Octet1(x0, x1), Octet2(x1, x2), Octet3(x2, x3)]
  {
    IndexOfLetter(al, x0);
    IndexOfLetter(al, x1);
    IndexOfLetter(al, x2);
    IndexOfLetter(al, x3);
  }

  lemma OneByteRoundTrip(al: string, a: Byte)
    requires Good(al)
    ensures DecodeGroup(al, EncodeGroup(al, [a])) == [a]
  {
    DecodeLetters(al, Sextet1(a), Sextet2(a, 0), 0, 0);
    OctetsOfSextets(a, 0, 0);
    assert EncodeGroup(al, [a]) == [Letter(al, Sextet1(a)), Letter(al, Sextet2(a, 0)), PAD, PAD];
  }

  lemma TwoByteRoundTrip(al: string, a: Byte, b: Byte)
    requires Good(al)
    ensures DecodeGroup(al, EncodeGroup(al, [a, b])) == [a, b]
  {
    DecodeLetters(al, Sextet1(a), Sextet2(a, b), Sextet3(b, 0), 0);
    OctetsOfSextets(a, b, 0);
    assert EncodeGroup(al, [a, b])
           == [Letter(al, Sextet1(a)), Letter(al, Sextet2(a, b)), Letter(al, Sextet3(b, 0)), PAD];
  }

  lemma ThreeByteRoundTrip(al: string, a: Byte, b: Byte, c: Byte)
    requires Good(al)
    ensures DecodeGroup(al, EncodeGroup(al, [a, b, c])) == [a, b, c]
  {
    DecodeLetters(al, Sextet1(a), Sextet2(a, b), Sextet3(b, c), Sextet4(c));
    OctetsOfSextets(a, b, c);
    assert EncodeGroup(al, [a, b, c])
           == [Letter(al, Sextet1(a)), Letter(al, Sextet2(a, b)), Letter(al, Sextet3(b, c)), Letter(al, Sextet4(c))];
  }

  lemma GroupRoundTrip(al: string, g: seq<Byte>)
    requires Good(al) && 1 <= |g| <= 3
    ensures DecodeGroup(al, EncodeGroup(al, g)) == g
  {
    var a := g[0];
    if |g| == 1 {
      OneByteRoundTrip(al, a);
      assert g == [a];
    } else if |g| == 2 {
      TwoByteRoundTrip(al, a, g[1]);
      assert g == [a, g[1]];
    } else {
      ThreeByteRoundTrip(al, a, g[1], g[2]);
      assert g == [a, g[1], g[2]];
    }
  }

  lemma GroupShape(al: string, g: seq<Byte>)
    requires Good(al) && 1 <= |g| <= 3
    ensures forall k :: 0 <= k < 4 ==>
              if k <= |g| then EncodeGroup(al, g)[k] in al else EncodeGroup(al, g)[k] == PAD
  {
  }

  /** Length 4 * ceil(n / 3), letters of the alphabet, then as many pads as bytes are missing
      from the last group. */
  lemma {:induction false} EncodedShape(al: string, s: seq<Byte>)
    requires Good(al)
    ensures |Encode(al, s)| == 4 * ((|s| + 2) / 3)
    ensures forall k :: 0 <= k < |Encode(al, s)| ==>
              if k < |Encode(al, s)| - (3 * |Encode(al, s)| / 4 - |s|) then Encode(al, s)[k] in al
              else Encode(al, s)[k] == PAD
  {
    if |s| > 3 {
      EncodedShape(al, s[3..]);
      GroupShape(al, s[..3]);
    } else if s != [] {
      GroupShape(al, s);
    }
  }

  lemma EncodedLength(al: string, s: seq<Byte>)
    requires Good(al)
    ensures |Encode(al, s)| == 4 * ((|s| + 2) / 3)
  {
    EncodedShape(al, s);
  }

  /** Decoding inverts encoding. */
  lemma {:induction false} RoundTrip(al: string, s: seq<Byte>)
    requires Good(al)
    ensures |Encode(al, s)| % 4 == 0 && Decode(al, Encode(al, s)) == s
  {
    if |s| > 3 {
      var group, rest := s[..3], s[3..];
      RoundTrip(al, rest);
      GroupRoundTrip(al, group);
      EncodeStep(al, s);
      Assemble(al, s, EncodeGroup(al, group), Encode(al, rest));
    } else if s != [] {
      GroupRoundTrip(al, s);
      DecodeOneGroup(al, EncodeGroup(al, s));
    }
  }

  lemma Assemble(al: string, s: seq<Byte>, g: string, t: string)
    requires |al| == 64 && 3 <= |s| && |g| == 4 && |t| % 4 == 0
    requires DecodeGroup(al, g) == s[..3] && Decode(al, t) == s[3..]
    ensures |g + t| % 4 == 0 && Decode(al, g + t) == s
  {
    DecodeSplits(al, g, t);
    assert s == s[..3] + s[3..];
  }

  lemma DecodeOneGroup(al: string, g: string)
    requires |al| == 64 && |g| == 4
    ensures Decode(al, g) == DecodeGroup(al, g)
  {
    assert g[..4] == g && g[4..] == [];
  }

  lemma DecodeSplits(al: string, g: string, t: string)
    requires |al| == 64 && |g| == 4 && |t| % 4 == 0
    ensures Decode(al, g + t) == DecodeGroup(al, g) + Decode(al, t)
  {
  }

  lemma EncodeStep(al: string, s: seq<Byte>)
    requires |al| == 64 && 3 <= |s|
    ensures Encode(al, s) == EncodeGroup(al, s[..3]) + Encode(al, s[3..])
  {
  }

  /** Encoding distributes over concatenation at multiples of three bytes. */
  lemma {:induction false} EncodeDistributes(al: string, s: seq<Byte>, t: seq<Byte>)
    requires |al| == 64 && |s| % 3 == 0
    ensures Encode(al, s + t) == Encode(al, s) + Encode(al, t)
  {
    if s == [] {
      assert s + t == t;
    } else {
      var group, rest := s[..3], s[3..];
      EncodeDistributes(al, rest, t);
      assert (s + t)[..3] == group && (s + t)[3..] == rest + t;
      EncodeStep(al, s);
      EncodeStep(al, s + t);
      Regroup(EncodeGroup(al, group), Encode(al, rest), Encode(al, t));
    }
  }

  lemma Regroup(a: string, b: string, c: string)
    ensures a + b + c == a + (b + c)
  {
  }

  // ---------- C strings ----------

  /** Length of the C string that starts at index `i`. */
  ghost function StringLength(mem: seq<Byte>, i: nat): (n: nat)
    requires i <= |mem| && exists k :: i <= k < |mem| && mem[k] == 0
    ensures i <= n < |mem| && mem[n] == 0 && forall k :: i <= k < n ==> mem[k] != 0
    decreases |mem| - i
  {
    if mem[i] == 0 then i else StringLength(mem, i + 1)
  }

  /** A NUL at index 1 or later: without one `mystrlen` runs off the buffer. */
  ghost predicate Scannable(mem: seq<Byte>) {
    exists k :: 1 <= k < |mem| && mem[k] == 0
  }

  /** The bytes `base64_encode` takes to be its argument: the scan skips the first byte. */
  ghost function Scanned(mem: seq<Byte>): seq<Byte>
    requires Scannable(mem)
  {
    mem[..StringLength(mem, 1)]
  }

  /** What the decoder writes for what the encoder wrote. */
  ghost function Recoded(mem: seq<Byte>): seq<Byte>
    requires Scannable(mem)
  {
    AlphabetIsGood();
    RoundTrip(ALPHABET, Scanned(mem));
    Decode(ALPHABET, Encode(ALPHABET, Scanned(mem)))
  }

  /** Encoding and decoding gives every C string back, the empty one included: that is what
      the decoder's buffer `out` holds as a C string, whatever follows in it. */
  lemma StringRoundTrip(mem: seq<Byte>, out: seq<Byte>)
    requires Scannable(mem)
    requires |Recoded(mem)| < |out| && out[..|Recoded(mem)|] == Recoded(mem) && out[|Recoded(mem)|] == 0
    ensures NUL !in Encode(ALPHABET, Scanned(mem))
    ensures out[..StringLength(out, 0)] == mem[..StringLength(mem, 0)]
  {
    AlphabetIsGood();
    RoundTrip(ALPHABET, Scanned(mem));
    EncodedShape(ALPHABET, Scanned(mem));
    SameCString(mem, out, |Scanned(mem)|);
  }

  /** Two memories that agree up to a NUL in both hold the same C string. */
  lemma SameCString(mem: seq<Byte>, out: seq<Byte>, n: nat)
    requires n < |mem| && n < |out| && mem[..n] == out[..n] && mem[n] == out[n] == 0
    ensures mem[..StringLength(mem, 0)] == out[..StringLength(out, 0)]
  {
    assert forall k :: 0 <= k < n ==> mem[k] == mem[..n][k] == out[k];
    assert StringLength(mem, 0) == StringLength(out, 0) <= n;
  }

  /** What does fail is the encoding itself: it is that of the string, and the decoder writes
      exactly the string's bytes before its NUL, if and only if the string is not empty. */
  lemma EncodesStringIffNonEmpty(mem: seq<Byte>)
    requires Scannable(mem)
    ensures Encode(ALPHABET, Scanned(mem)) == Encode(ALPHABET, mem[..StringLength(mem, 0)]) <==> mem[0] != 0
    ensures Recoded(mem) == mem[..StringLength(mem, 0)] <==> mem[0] != 0
  {
    AlphabetIsGood();
    RoundTrip(ALPHABET, Scanned(mem));
    EncodedLength(ALPHABET, Scanned(mem));
    EncodedLength(ALPHABET, mem[..StringLength(mem, 0)]);
    if mem[0] != 0 { assert StringLength(mem, 0) == StringLength(mem, 1); }
  }

  /** `mystrlen`. */
  method StrLen(s: array<Byte>) returns (n: nat)
    requires Scannable(s[..])
    ensures n == StringLength(s[..], 1)
  {
    n := 1;
    while s[n] != 0
      invariant 1 <= n < s.Length && forall k :: 1 <= k < n ==> s[k] != 0
      invariant exists k :: n <= k < s.Length && s[k] == 0
      decreases s.Length - n
    {
      n := n + 1;
    }
  }

  /** What is left of `s` from index `i` on, and the next group of at most three bytes. */
  ghost function Tail(s: seq<Byte>, i: nat): seq<Byte> { if i < |s| then s[i..] else [] }

  ghost function Group(s: seq<Byte>, i: nat): (g: seq<Byte>)
    requires i < |s|
    ensures 1 <= |g| <= 3
  {
    s[i..if i + 3 < |s| then i + 3 else |s|]
  }

  lemma EncodeTail(al: string, s: seq<Byte>, i: nat)
    requires |al| == 64 && i < |s|
    ensures Encode(al, Tail(s, i)) == EncodeGroup(al, Group(s, i)) + Encode(al, Tail(s, i + 3))
  {
  }

  lemma DecodeTail(al: string, t: string, i: nat)
    requires |al| == 64 && i < |t| && (|t| - i) % 4 == 0
    ensures i + 4 <= |t| && (|t| - (i + 4)) % 4 == 0
    ensures Decode(al, t[i..]) == DecodeGroup(al, t[i..i + 4]) + Decode(al, t[i + 4..])
  {
  }

  lemma Extend<T>(done: seq<T>, group: seq<T>, rest: seq<T>, whole: seq<T>)
    requires done + (group + rest) == whole
    ensures (done + group) + rest == whole && |done| + |group| <= |whole|
  {
  }

  /** The body of the encoder's loop: the code of the group at `i` goes to `dest[j0..]`. */
  method EncodeNext(al: string, dest: array<char>, j0: nat, src: array<Byte>, i: nat, n: nat) returns (j: nat)
    requires |al| == 64 && dest as object != src
    requires i < n <= src.Length && j0 + 4 <= dest.Length
    modifies dest
    ensures j == j0 + 4 && dest[..j] == old(dest[..j0]) + EncodeGroup(al, Group(src[..n], i))
  {
    GroupAt(src[..n], i);
    ghost var t := EncodeGroup(al, Group(src[..n], i));
    FourAppended(dest[..j0], t);
    j := Put(dest, j0, Letter(al, Sextet1(src[i])));
    if i + 1 < n {
      j := Put(dest, j, Letter(al, Sextet2(src[i], src[i + 1])));
    } else {
      j := Put(dest, j, Letter(al, Sextet2(src[i], 0)));
      j := Put(dest, j, PAD);
      j := Put(dest, j, PAD);
      return;
    }
    if i + 2 < n {
      j := Put(dest, j, Letter(al, Sextet3(src[i + 1], src[i + 2])));
      j := Put(dest, j, Letter(al, Sextet4(src[i + 2])));
    } else {
      j := Put(dest, j, Letter(al, Sextet3(src[i + 1], 0)));
      j := Put(dest, j, PAD);
    }
  }

  /** `dest[j++] = x` */
  method Put<T>(dest: array<T>, j0: nat, x: T) returns (j: nat)
    requires j0 < dest.Length
    modifies dest
    ensures j == j0 + 1 && dest[..j] == old(dest[..j0]) + [x]
  {
    dest[j0] := x;
    j := j0 + 1;
  }

  lemma FourAppended(done: string, t: string)
    requires |t| == 4
    ensures done + [t[0]] + [t[1]] + [t[2]] + [t[3]] == done + t
  {
  }

  lemma GroupAt(s: seq<Byte>, i: nat)
    requires i < |s|
    ensures var g := Group(s, i);
            |g| == (if i + 3 <= |s| then 3 else |s| - i) && forall k :: 0 <= k < |g| ==> g[k] == s[i + k]
  {
  }

  method Base64Encode(al: string, dest: array<char>, src: array<Byte>)
    requires |al| == 64 && dest as object != src && Scannable(src[..])
    requires |Encode(al, Scanned(src[..]))| < dest.Length
    modifies dest
    ensures var text := Encode(al, old(Scanned(src[..])));
            |text| < dest.Length && dest[..|text|] == text && dest[|text|] == NUL
  {
    var n := StrLen(src);
    ghost var s := src[..n];
    var i, j: nat := 0, 0;
    while i < n
      invariant src[..n] == s && j <= dest.Length
      invariant dest[..j] + Encode(al, Tail(s, i)) == Encode(al, s)
    {
      EncodeTail(al, s, i);
      Extend(dest[..j], EncodeGroup(al, Group(s, i)), Encode(al, Tail(s, i + 3)), Encode(al, s));
      j := EncodeNext(al, dest, j, src, i, n);
      i := i + 3;
    }
    dest[j] := NUL;
  }

  /** `strchr_of_num`: a walk along the alphabet. */
  method StrchrOfNum(al: string, c: char) returns (r: int)
    ensures r == SearchFrom(al, c, 0)
  {
    var i := 0;
    while i < |al| && al[i] != c
      invariant 0 <= i <= |al| && SearchFrom(al, c, i) == SearchFrom(al, c, 0)
    {
      i := i + 1;
    }
    if i == |al| && c != NUL { return -1; }
    r := i;
  }

  /** The body of the decoder's loop, for the group at `i`. */
  method DecodeNext(al: string, dest: array<Byte>, j0: nat, src: array<char>, i: nat) returns (j: nat)
    requires |al| == 64 && dest as object != src
    requires i + 4 <= src.Length && j0 + |DecodeGroup(al, src[i..i + 4])| <= dest.Length
    modifies dest
    ensures j <= dest.Length && dest[..j] == old(dest[..j0]) + old(DecodeGroup(al, src[i..i + 4]))
  {
    ghost var t, done := src[i..i + 4], dest[..j0];
    assert t[0] == src[i] && t[1] == src[i + 1] && t[2] == src[i + 2] && t[3] == src[i + 3];
    var r := StrchrOfNum(al, src[i]);
    var t0 := LowByte(r);
    r := StrchrOfNum(al, src[i + 1]);
    var t1 := LowByte(r);
    j := Put(dest, j0, Octet1(t0, t1));
    if src[i + 2] == PAD { return; }
    r := StrchrOfNum(al, src[i + 2]);
    var t2 := LowByte(r);
    j := Put(dest, j, Octet2(t1, t2));
    assert done + [Octet1(t0, t1)] + [Octet2(t1, t2)] == done + [Octet1(t0, t1), Octet2(t1, t2)];
    if src[i + 3] == PAD { return; }
    r := StrchrOfNum(al, src[i + 3]);
    var t3 := LowByte(r);
    j := Put(dest, j, Octet3(t2, t3));
    assert done + [Octet1(t0, t1), Octet2(t1, t2)] + [Octet3(t2, t3)]
           == done + [Octet1(t0, t1), Octet2(t1, t2), Octet3(t2, t3)];
  }

  /** The text must be NUL-terminated after whole groups; the C code reads past it otherwise. */
  method Base64Decode(al: string, dest: array<Byte>, src: array<char>, ghost len: nat)
    requires |al| == 64 && dest as object != src
    requires len < src.Length && len % 4 == 0 && src[len] == NUL && NUL !in src[..len]
    requires |Decode(al, src[..len])| < dest.Length
    modifies dest
    ensures var bytes := Decode(al, old(src[..len]));
            |bytes| < dest.Length && dest[..|bytes|] == bytes && dest[|bytes|] == 0
  {
    ghost var text := src[..len];
    var i, j: nat := 0, 0;
    while src[i] != NUL
      invariant i <= len && j <= dest.Length && src[..len] == text && src[len] == NUL
      invariant DecodedTo(al, text, i, dest[..j])
      decreases len - i
    {
      DecodeStep(al, text, src[..], i, dest[..j]);
      j := DecodeNext(al, dest, j, src, i);
      i := i + 4;
    }
    dest[j] := 0;
  }

  /** `done` is the decoding of whole groups of `text` up to `i`. */
  ghost predicate DecodedTo(al: string, text: string, i: nat, done: seq<Byte>)
    requires |al| == 64 && |text| % 4 == 0
  {
    i <= |text| && (|text| - i) % 4 == 0 && done + Decode(al, text[i..]) == Decode(al, text)
  }

  lemma DecodeStep(al: string, text: string, mem: string, i: nat, done: seq<Byte>)
    requires |al| == 64 && |text| % 4 == 0 && i < |text| <= |mem|
    requires mem[..|text|] == text && DecodedTo(al, text, i, done)
    ensures i + 4 <= |text|
    ensures var g := DecodeGroup(al, mem[i..i + 4]);
            DecodedTo(al, text, i + 4, done + g) && |done| + |g| <= |Decode(al, text)|
  {
    DecodeTail(al, text, i);
    SameGroup(mem, text, i);
    Extend(done, DecodeGroup(al, text[i..i + 4]), Decode(al, text[i + 4..]), Decode(al, text));
  }

  lemma SameGroup(mem: seq<char>, text: string, i: nat)
    requires i + 4 <= |text| <= |mem| && mem[..|text|] == text
    ensures mem[i..i + 4] == text[i..i + 4]
  {
  }
}
