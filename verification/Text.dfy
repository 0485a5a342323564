/**
 Byte-string helpers of the Go standard library, as pure functions.

 A Go string is a sequence of bytes; here each byte is one character, U+0000 to
 U+00FF. Letter case and white space are those of ASCII.
 */
module Text {

  datatype Option<+T> = None | Some(value: T)

  datatype Result<+T, +E> = Ok(value: T) | Err(error: E)

  predicate IsDigit(c: char) { '0' <= c <= '9' }

  predicate IsLetter(c: char) { 'a' <= c <= 'z' || 'A' <= c <= 'Z' }

  predicate IsSpace(c: char) { c == ' ' || '\t' <= c <= '\r' }

  predicate AllLetters(s: string) { forall i | 0 <= i < |s| :: IsLetter(s[i]) }

  function LetterRun(s: string): (n: nat)
    ensures n <= |s| && AllLetters(s[..n])
    ensures n < |s| ==> !IsLetter(s[n])
  {
    if s == [] || !IsLetter(s[0]) then 0
    else
      var n := LetterRun(s[1..]) + 1;
      assert s[..n] == [s[0]] + s[1..][..n - 1];
      n
  }

  lemma {:induction false} LetterRunIs(s: string, n: nat)
    requires n <= |s| && AllLetters(s[..n]) && (n < |s| ==> !IsLetter(s[n]))
    ensures LetterRun(s) == n
  {}

  /** A run of digits or letters could be continued by this text. */
  predicate StartsRun(v: string) { v != "" && (IsDigit(v[0]) || IsLetter(v[0])) }

  /** No run of digits or letters goes across the place where `u` ends and `v` begins. */
  predicate BreaksRuns(u: string, v: string) {
    u == "" || v == "" ||
    (!(IsDigit(u[|u| - 1]) && IsDigit(v[0])) && !(IsLetter(u[|u| - 1]) && IsLetter(v[0])))
  }

  lemma JoinSlices(u: string, v: string, n: nat)
    requires 0 < n <= |u|
    ensures (u + v)[0] == u[0] && (u + v)[..n] == u[..n] && (u + v)[n..] == u[n..] + v
  {}

  function ToLowerChar(c: char): char {
    if 'A' <= c <= 'Z' then (c as int + 32) as char else c
  }

  function ToLower(s: string): (r: string)
    ensures |r| == |s|
  {
    seq(|s|, i requires 0 <= i < |s| => ToLowerChar(s[i]))
  }

  predicate EqualFold(a: string, b: string) { ToLower(a) == ToLower(b) }

  function TrimLeft(s: string): (r: string)
    ensures r == [] || !IsSpace(r[0])
  {
    if s == [] || !IsSpace(s[0]) then s else TrimLeft(s[1..])
  }

  function TrimRight(s: string): (r: string)
    ensures r == [] || !IsSpace(r[|r| - 1])
    ensures r <= s
  {
    if s == [] || !IsSpace(s[|s| - 1]) then s else TrimRight(s[..|s| - 1])
  }

  function TrimSpace(s: string): (r: string)
    ensures r == [] || (!IsSpace(r[0]) && !IsSpace(r[|r| - 1]))
  {
    TrimRight(TrimLeft(s))
  }

  predicate Trimmed(s: string) { s == [] || (!IsSpace(s[0]) && !IsSpace(s[|s| - 1])) }

  predicate IsBracket(c: char) { c == '[' || c == ']' }

  /** `strings.Trim(s, "[]")`. */
  function TrimBrackets(s: string): string {
    if s == "" then ""
    else if IsBracket(s[0]) then TrimBrackets(s[1..])
    else if IsBracket(s[|s| - 1]) then TrimBrackets(s[..|s| - 1])
    else s
  }

  lemma TrimmedIsKept(s: string)
    requires Trimmed(s)
    ensures TrimSpace(s) == s
  {}

  predicate HasPrefix(s: string, p: string) { p <= s }

  predicate HasSuffix(s: string, p: string) { |p| <= |s| && s[|s| - |p|..] == p }

  /** The first position of `c` in `s`, or -1. */
  function Index(s: string, c: char): (r: int)
    ensures -1 <= r < |s|
    ensures r >= 0 ==> s[r] == c && c !in s[..r]
    ensures r < 0 ==> c !in s
  {
    if s == [] then -1
    else if s[0] == c then 0
    else var r := Index(s[1..], c); if r < 0 then -1 else r + 1
  }

  /** The last position of `c` in `s`, or -1. */
  function LastIndex(s: string, c: char): (r: int)
    ensures -1 <= r < |s|
    ensures r >= 0 ==> s[r] == c && c !in s[r + 1..]
    ensures r < 0 ==> c !in s
  {
    if s == [] then -1
    else if s[|s| - 1] == c then |s| - 1
    else LastIndex(s[..|s| - 1], c)
  }

  lemma {:induction false} IndexOfFirst(a: string, c: char, b: string)
    requires c !in a
    ensures Index(a + [c] + b, c) == |a|
  {
    var s := a + [c] + b;
    if a == [] {
      assert s[0] == c;
    } else {
      assert s[0] == a[0] && s[1..] == a[1..] + [c] + b;
      IndexOfFirst(a[1..], c, b);
    }
  }

  lemma {:induction false} LastIndexOfLast(a: string, c: char, b: string)
    requires c !in b
    ensures LastIndex(a + [c] + b, c) == |a|
  {
    var s := a + [c] + b;
    if b == [] {
      assert s[|s| - 1] == c;
    } else {
      assert s[|s| - 1] == b[|b| - 1] && s[..|s| - 1] == a + [c] + b[..|b| - 1];
      LastIndexOfLast(a, c, b[..|b| - 1]);
    }
  }

  lemma CutAtFirst(s: string, a: string, c: char, b: string)
    requires s == a + [c] + b && c !in a
    ensures Index(s, c) == |a| && s[..|a|] == a && s[|a| + 1..] == b
  {
    hide Index;
    IndexOfFirst(a, c, b);
  }

  lemma CutAtLast(s: string, a: string, c: char, b: string)
    requires s == a + [c] + b && c !in b
    ensures LastIndex(s, c) == |a| && s[..|a|] == a && s[|a| + 1..] == b
  {
    hide LastIndex;
    LastIndexOfLast(a, c, b);
  }

  /** `strings.Compare`: byte-wise lexicographic order, as -1, 0 or 1. */
  function CompareStrings(a: string, b: string): (r: int)
    ensures r == -1 || r == 0 || r == 1
    ensures r == 0 <==> a == b
  {
    if a == [] then (if b == [] then 0 else -1)
    else if b == [] then 1
    else if a[0] < b[0] then -1
    else if a[0] > b[0] then 1
    else assert a == [a[0]] + a[1..] && b == [b[0]] + b[1..]; CompareStrings(a[1..], b[1..])
  }

  lemma CompareStringsFlips(a: string, b: string)
    ensures CompareStrings(a, b) == -CompareStrings(b, a)
  {}

  lemma CompareStringsTransitive(a: string, b: string, c: string)
    requires CompareStrings(a, b) <= 0 && CompareStrings(b, c) <= 0
    ensures CompareStrings(a, c) <= 0
  {}

  // ----------------------------------------------------- the same, by character codes

  predicate IsSpaceCode(n: int) { n == 32 || 9 <= n <= 13 }

  predicate IsLowerCode(n: int) { 97 <= n <= 122 }

  predicate IsUpperCode(n: int) { 65 <= n <= 90 }

  predicate IsDigitCode(n: int) { 48 <= n <= 57 }

  /** Which characters are letters, digits and white space, by their ASCII codes,
      and what lowering makes of each. */
  lemma ClassesAre(c: char)
    ensures IsLetter(c) <==> IsLowerCode(c as int) || IsUpperCode(c as int)
    ensures IsDigit(c) <==> IsDigitCode(c as int)
    ensures IsSpace(c) <==> IsSpaceCode(c as int)
    ensures ToLowerChar(c) as int == if IsUpperCode(c as int) then c as int + 32 else c as int
  {}

  /** Texts are equal up to case when their characters are, capitals (65 to 90) taken for the
      letters 32 above them. */
  lemma FoldIs(a: string, b: string)
    ensures EqualFold(a, b) <==>
            |a| == |b| && forall i :: 0 <= i < |a| ==> SameLetter(a[i] as int, b[i] as int)
  {
    forall i | 0 <= i < |a| ensures ToLower(a)[i] == ToLowerChar(a[i]) { ClassesAre(a[i]); }
    forall i | 0 <= i < |b| ensures ToLower(b)[i] == ToLowerChar(b[i]) { ClassesAre(b[i]); }
    if EqualFold(a, b) {
      assert |a| == |ToLower(a)| == |ToLower(b)| == |b|;
    } else if |a| == |b| {
      var i :| 0 <= i < |a| && ToLower(a)[i] != ToLower(b)[i];
      assert !SameLetter(a[i] as int, b[i] as int);
    }
  }

  predicate SameLetter(m: int, n: int) {
    m == n || (IsUpperCode(m) && n == m + 32) || (IsUpperCode(n) && m == n + 32)
  }

  predicate AllSpaces(s: string) { forall i :: 0 <= i < |s| ==> IsSpaceCode(s[i] as int) }

  lemma {:induction false} TrimLeftIs(before: string, s: string)
    requires AllSpaces(before) && (s != "" ==> !IsSpace(s[0]))
    ensures TrimLeft(before + s) == s
  {
    if before == "" {
      assert before + s == s;
    } else {
      ClassesAre(before[0]);
      assert (before + s)[1..] == before[1..] + s;
      TrimLeftIs(before[1..], s);
    }
  }

  lemma {:induction false} TrimRightIs(s: string, after: string)
    requires AllSpaces(after) && (s != "" ==> !IsSpace(s[|s| - 1]))
    ensures TrimRight(s + after) == s
  {
    if after == "" {
      assert s + after == s;
    } else {
      var n := |after| - 1;
      ClassesAre(after[n]);
      assert (s + after)[..|s + after| - 1] == s + after[..n];
      TrimRightIs(s, after[..n]);
    }
  }

  /** Trimming takes the white space off both ends and nothing else. */
  lemma TrimmingIs(before: string, s: string, after: string)
    requires AllSpaces(before) && AllSpaces(after) && Trimmed(s)
    ensures TrimSpace(before + s + after) == s
  {
    if s == "" {
      assert before + s + after == (before + after) + "";
      TrimLeftIs(before + after, "");
    } else {
      assert before + s + after == before + (s + after);
      TrimLeftIs(before, s + after);
      TrimRightIs(s, after);
    }
  }

  /** The first byte that differs decides, and a text comes before what continues it. */
  lemma {:induction false} FirstDifferenceDecides(p: string, c: char, s: string, d: char, t: string)
    requires c < d
    ensures CompareStrings(p + [c] + s, p + [d] + t) == -1 && CompareStrings(p, p + [c] + s) == -1
  {
    var a, b := p + [c] + s, p + [d] + t;
    if p == "" {
      assert a[0] == c && b[0] == d;
    } else {
      assert a[0] == b[0] == p[0] && a[1..] == p[1..] + [c] + s && b[1..] == p[1..] + [d] + t;
      FirstDifferenceDecides(p[1..], c, s, d, t);
    }
  }
}
