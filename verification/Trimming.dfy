/** In-place trimming of C strings (`trim` of the configuration reader). */
module Trimming {
  import opened CText

  const NUL: char := '\0'

  // ---------- strings ----------

  function StripRight(s: string): string {
    if s != "" && IsSpace(s[|s| - 1]) then StripRight(s[..|s| - 1]) else s
  }

  /** The string without its leading and trailing white space. */
  function Strip(s: string): string {
    StripRight(SkipSpace(s))
  }

  /** No white space at either end. */
  predicate Stripped(s: string) {
    s == "" || (!IsSpace(s[0]) && !IsSpace(s[|s| - 1]))
  }

  lemma {:induction false} StripRightBlank(s: string, w: string)
    requires AllBlank(w) && (s == "" || !IsSpace(s[|s| - 1]))
    ensures StripRight(s + w) == s
  {
    if w == "" {
      assert s + w == s;
    } else {
      var v := w[..|w| - 1];
      assert (s + w)[..|s + w| - 1] == s + v;
      StripRightBlank(s, v);
    }
  }

  /** Strip is determined by its meaning: blank text around a stripped core. */
  lemma StripOfPadded(a: string, core: string, b: string)
    requires AllBlank(a) && AllBlank(b) && Stripped(core)
    ensures Strip(a + core + b) == core
  {
    if core == "" {
      assert AllBlank(a + core + b);
      SkipSpaceBlank(a + core + b, "");
      assert a + core + b + "" == a + core + b;
    } else {
      assert a + core + b == a + (core + b);
      SkipSpaceBlank(a, core + b);
      StripRightBlank(core, b);
    }
  }

  /** ... and every string has that form. */
  lemma StripSplits(s: string) returns (a: string, b: string)
    ensures AllBlank(a) && AllBlank(b) && Stripped(Strip(s)) && s == a + Strip(s) + b
  {
    var left := SkipSpace(s);
    a := StripLeftSplits(s);
    b := StripRightSplits(left);
    Reassociate(a, Strip(s), b);
  }

  lemma Reassociate(a: string, b: string, c: string)
    ensures a + (b + c) == a + b + c
  {
  }

  lemma {:induction false} StripLeftSplits(s: string) returns (a: string)
    ensures AllBlank(a) && s == a + SkipSpace(s)
    ensures SkipSpace(s) == "" || !IsSpace(SkipSpace(s)[0])
  {
    if s != "" && IsSpace(s[0]) {
      var v := StripLeftSplits(s[1..]);
      a := [s[0]] + v;
    } else {
      a := "";
    }
  }

  lemma {:induction false} StripRightSplits(s: string) returns (b: string)
    ensures AllBlank(b) && s == StripRight(s) + b
    ensures StripRight(s) == "" || !IsSpace(StripRight(s)[|StripRight(s)| - 1])
    ensures s != "" && !IsSpace(s[0]) ==> StripRight(s) != "" && StripRight(s)[0] == s[0]
  {
    if s != "" && IsSpace(s[|s| - 1]) {
      var v := StripRightSplits(s[..|s| - 1]);
      b := v + [s[|s| - 1]];
      assert s == s[..|s| - 1] + [s[|s| - 1]];
    } else {
      b := "";
    }
  }

  lemma StripIsIdempotent(s: string)
    ensures Strip(Strip(s)) == Strip(s)
  {
    var a, b := StripSplits(s);
    StripOfPadded("", Strip(s), "");
    assert "" + Strip(s) + "" == Strip(s);
  }

  // ---------- buffers ----------

  /** A NUL at or after `at`. */
  predicate Terminated(mem: seq<char>, at: nat) {
    exists k :: at <= k < |mem| && mem[k] == NUL
  }

  /** Index of the NUL ending the C string that starts at `at`. */
  function EndOf(mem: seq<char>, at: nat): (n: nat)
    requires Terminated(mem, at)
    ensures at <= n < |mem| && mem[n] == NUL && forall k :: at <= k < n ==> mem[k] != NUL
    decreases |mem| - at
  {
    if mem[at] == NUL then at else EndOf(mem, at + 1)
  }

  function CString(mem: seq<char>, at: nat): string
    requires Terminated(mem, at)
  {
    mem[at..EndOf(mem, at)]
  }

  lemma CStringIs(mem: seq<char>, at: nat, s: string)
    requires at + |s| < |mem| && mem[at..at + |s|] == s && NUL !in s && mem[at + |s|] == NUL
    ensures Terminated(mem, at) && EndOf(mem, at) == at + |s| && CString(mem, at) == s
  {
  }

  /** Only the memory up to its NUL determines a C string. */
  lemma SameString(mem: seq<char>, mem': seq<char>, at: nat)
    requires |mem| == |mem'| && Terminated(mem, at)
    requires forall k :: at <= k <= EndOf(mem, at) ==> mem'[k] == mem[k]
    ensures Terminated(mem', at) && EndOf(mem', at) == EndOf(mem, at) && CString(mem', at) == CString(mem, at)
  {
  }

  /** `strlen(buf + str)`, as an end index. */
  method FindEnd(buf: array<char>, str: nat) returns (n: nat)
    requires Terminated(buf[..], str)
    ensures n == EndOf(buf[..], str)
  {
    n := str;
    while buf[n] != NUL
      invariant str <= n < buf.Length && (forall k :: str <= k < n ==> buf[k] != NUL)
      invariant Terminated(buf[..], n)
      decreases buf.Length - n
    {
      n := n + 1;
    }
  }

  /** Walks over leading white space; `n` is the end of the string. */
  method SkipBlank(buf: array<char>, str: nat, ghost n: nat) returns (p1: nat)
    requires str <= n < buf.Length && buf[n] == NUL
    ensures str <= p1 <= n && buf[p1..n] == SkipSpace(buf[str..n])
    ensures p1 < n ==> !IsSpace(buf[p1])
  {
    p1 := str;
    while buf[p1] != NUL && IsSpace(buf[p1])
      invariant str <= p1 <= n
      invariant SkipSpace(buf[p1..n]) == SkipSpace(buf[str..n])
      decreases n - p1
    {
      assert buf[p1..n][1..] == buf[p1 + 1..n];
      p1 := p1 + 1;
    }
  }

  /** Overwrites trailing white space with NULs; `p2` may start one before `p1`. */
  method CutBlank(buf: array<char>, p1: nat, n: nat) returns (p2: int)
    requires p1 <= n < buf.Length && buf[n] == NUL && (p1 < n ==> !IsSpace(buf[p1]))
    modifies buf
    ensures p1 - 1 <= p2 < n && buf[p2 + 1] == NUL
    ensures buf[p1..p2 + 1] == StripRight(old(buf[p1..n]))
    ensures forall k :: 0 <= k < buf.Length && !(p1 <= k <= n) ==> buf[k] == old(buf[k])
  {
    ghost var s := buf[p1..n];
    p2 := n - 1;
    while p2 > p1 && IsSpace(buf[p2])
      invariant p1 - 1 <= p2 < n && (p1 < n ==> p1 <= p2) && buf[p2 + 1] == NUL
      invariant buf[p1..p2 + 1] == s[..p2 + 1 - p1] && StripRight(s[..p2 + 1 - p1]) == StripRight(s)
      invariant forall k :: 0 <= k < buf.Length && !(p1 <= k <= n) ==> buf[k] == old(buf[k])
      decreases p2
    {
      assert s[..p2 + 1 - p1][..p2 - p1] == s[..p2 - p1];
      buf[p2] := NUL;
      p2 := p2 - 1;
    }
  }

  /** memmove(buf + to, buf + from, count) */
  method MemMove(buf: array<char>, to: nat, from: nat, count: nat)
    requires to + count <= buf.Length && from + count <= buf.Length
    modifies buf
    ensures buf[to..to + count] == old(buf[from..from + count])
    ensures forall k :: 0 <= k < buf.Length && !(to <= k < to + count) ==> buf[k] == old(buf[k])
  {
    forall k | to <= k < to + count {
      buf[k] := buf[from + (k - to)];
    }
  }

  /** `trim`: the C string at `str` becomes its stripped form, and nothing outside the memory
      it occupied changes.  The empty and the all-blank string are covered. */
  method Trim(buf: array<char>, str: nat)
    requires Terminated(buf[..], str)
    modifies buf
    ensures Terminated(buf[..], str) && CString(buf[..], str) == Strip(old(CString(buf[..], str)))
    ensures EndOf(buf[..], str) <= old(EndOf(buf[..], str))
    ensures forall k :: 0 <= k < buf.Length && !(str <= k <= old(EndOf(buf[..], str))) ==> buf[k] == old(buf[k])
  {
    var n := FindEnd(buf, str);
    ghost var s := CString(buf[..], str);
    var p1 := SkipBlank(buf, str, n);
    StripKeepsText(s);
    var p2 := CutBlank(buf, p1, n);
    ghost var core, cut := buf[p1..p2 + 1], buf[p1..p1 + (p2 - p1 + 2)];
    assert cut == core + [NUL];
    MemMove(buf, str, p1, p2 - p1 + 2);
    assert buf[..][str..str + (|core| + 1)] == cut;
    MovedString(buf[..], str, core);
  }

  lemma MovedString(mem: seq<char>, at: nat, s: string)
    requires at + |s| < |mem| && mem[at..at + (|s| + 1)] == s + [NUL] && NUL !in s
    ensures Terminated(mem, at) && EndOf(mem, at) == at + |s| && CString(mem, at) == s
  {
    var moved := mem[at..at + (|s| + 1)];
    assert moved[|s|] == NUL && moved[..|s|] == s;
    CStringIs(mem, at, s);
  }

  lemma StripKeepsText(s: string)
    requires NUL !in s
    ensures NUL !in Strip(s) && |Strip(s)| <= |s|
  {
    var a, b := StripSplits(s);
  }
}
