/**
 The dpkg version ordering (Debian Policy Manual, section 5.6.12), as
 app/pkgmgr/version.go implements it.

 A version part is read as a sequence of numbers: the weight of every character
 outside a number, then a 0 where a number starts, then the number itself. Two
 parts compare as those sequences do, the shorter one continued with zeros.
 */
module DebianVersion {
  import opened Text
  import opened Ordering
  import opened Decimal

  const NUL: char := '\0'

  function DpkgOrder(c: char): int {
    if IsDigit(c) then 0
    else if IsLetter(c) then c as int
    else if c == '~' then -1
    else if c == NUL then 0
    else c as int + 256
  }

  /** '~' before the end of a part, the end before every letter, the letters before all
      other characters. */
  lemma WeightsAreOrdered(letter: char, other: char)
    requires IsLetter(letter) && !IsLetter(other) && !IsDigit(other) && other != '~' && other != NUL
    ensures DpkgOrder('~') < DpkgOrder(NUL) < DpkgOrder(letter) < DpkgOrder(other)
  {}

  /** No two characters outside numbers share a weight. */
  lemma WeightsAreDistinct(c: char, d: char)
    requires !IsDigit(c) && !IsDigit(d) && DpkgOrder(c) == DpkgOrder(d)
    ensures c == d
  {}

  predicate NulFree(s: string) { NUL !in s }

  /** What a C string function sees: everything before the first NUL. */
  function Cut(s: string): (r: string)
    ensures r <= s && NulFree(r)
    ensures |r| < |s| ==> s[|r|] == NUL
    ensures |r| == |s| <==> NulFree(s)
  {
    if s == [] || s[0] == NUL then []
    else
      var r := [s[0]] + Cut(s[1..]);
      assert s == [s[0]] + s[1..];
      r
  }

  ghost function Key(s: string): seq<int>
    decreases |s|
  {
    if s == [] then []
    else if IsDigit(s[0]) then
      var n := DigitRun(s);
      [0, Value(s[..n])] + Key(s[n..])
    else [DpkgOrder(s[0])] + Key(s[1..])
  }

  ghost function CompareKeys(a: string, b: string): int {
    LexCmp(CompareInts, 0, Key(a), Key(b))
  }

  /** Whether the comparison of `a` and `b` ever returns. */
  ghost predicate Halts(a: string, b: string) {
    (NulFree(a) && NulFree(b)) || CompareKeys(Cut(a), Cut(b)) != 0
  }

  // ------------------------------------------------------- one step of the keys

  lemma LexStep(x: int, xs: seq<int>, y: int, ys: seq<int>)
    ensures LexCmp(CompareInts, 0, [x] + xs, [y] + ys) ==
            if x != y then Sign(x - y) else LexCmp(CompareInts, 0, xs, ys)
  {}

  function CharAt(s: string, i: nat): char { if i < |s| then s[i] else NUL }

  /** The first character decides when its weight differs, whatever follows. */
  lemma WeightDecides(a: string, b: string)
    requires NulFree(a) && NulFree(b)
    requires DpkgOrder(CharAt(a, 0)) != DpkgOrder(CharAt(b, 0))
    ensures CompareKeys(a, b) == Sign(DpkgOrder(CharAt(a, 0)) - DpkgOrder(CharAt(b, 0)))
  {}

  lemma WeightPasses(a: string, b: string)
    requires a != [] && b != [] && !IsDigit(a[0]) && !IsDigit(b[0])
    requires DpkgOrder(a[0]) == DpkgOrder(b[0])
    ensures CompareKeys(a, b) == CompareKeys(a[1..], b[1..])
  {}

  /** Where both sides stand at a number or at their end, the numbers decide first. */
  lemma NumbersDecide(a: string, b: string)
    requires a == [] || IsDigit(a[0])
    requires b == [] || IsDigit(b[0])
    ensures var m, n := DigitRun(a), DigitRun(b);
            CompareKeys(a, b) == if Value(a[..m]) != Value(b[..n])
                                 then CompareInts(Value(a[..m]), Value(b[..n]))
                                 else CompareKeys(a[m..], b[n..])
  {
    hide LexCmp;
    hide Key;
    hide Value;
    hide DigitRun;
    var m, n := DigitRun(a), DigitRun(b);
    var x, y := Value(a[..m]), Value(b[..n]);
    var xs, ys := [0, x] + Key(a[m..]), [0, y] + Key(b[n..]);
    NumberKey(a, Key(b));
    FlipKeys(xs, Key(b));
    NumberKey(b, xs);
    FlipKeys(ys, xs);
    NumberStep(x, Key(a[m..]), y, Key(b[n..]));
  }

  lemma NumberStep(x: int, xs: seq<int>, y: int, ys: seq<int>)
    ensures LexCmp(CompareInts, 0, [0, x] + xs, [0, y] + ys) ==
            if x != y then CompareInts(x, y) else LexCmp(CompareInts, 0, xs, ys)
  {
    hide LexCmp;
    LexStep(0, [x] + xs, 0, [y] + ys);
    LexStep(x, xs, y, ys);
    assert [0, x] + xs == [0] + ([x] + xs) && [0, y] + ys == [0] + ([y] + ys);
  }

  lemma FlipKeys(xs: seq<int>, ys: seq<int>)
    ensures LexCmp(CompareInts, 0, xs, ys) == -LexCmp(CompareInts, 0, ys, xs)
  {}

  /** The end of a version counts as the number 0. */
  lemma NumberKey(a: string, ys: seq<int>)
    requires a == [] || IsDigit(a[0])
    ensures LexCmp(CompareInts, 0, Key(a), ys) ==
            LexCmp(CompareInts, 0, [0, Value(a[..DigitRun(a)])] + Key(a[DigitRun(a)..]), ys)
  {}

  lemma CutCharAt(s: string, i: nat)
    requires i <= |Cut(s)|
    ensures CharAt(s, i) == CharAt(Cut(s)[i..], 0)
    ensures CharAt(s, i) == NUL <==> i == |Cut(s)|
  {}

  // ---------------------------------------------------------------- verrevcmp

  /** Where the number that starts at position `i` ends. */
  ghost function NumberEnd(s: string, i: nat): (e: nat)
    requires i <= |s|
    ensures i <= e <= |s| && !IsDigit(CharAt(s, e))
    ensures forall k :: i <= k < e ==> IsDigit(s[k])
    decreases |s| - i
  {
    if IsDigit(CharAt(s, i)) then NumberEnd(s, i + 1) else i
  }

  ghost function NumberAt(s: string, i: nat): nat
    requires i <= |s|
  {
    Value(s[i..NumberEnd(s, i)])
  }

  method SkipZeros(s: string, i0: nat) returns (i: nat)
    requires i0 <= |s|
    ensures i0 <= i <= NumberEnd(s, i0) == NumberEnd(s, i)
    ensures NumberAt(s, i) == NumberAt(s, i0)
    ensures CharAt(s, i) != '0'
  {
    i := i0;
    while CharAt(s, i) == '0'
      invariant i0 <= i <= NumberEnd(s, i0) == NumberEnd(s, i)
      invariant NumberAt(s, i) == NumberAt(s, i0)
      decreases |s| - i
    {
      ghost var e := NumberEnd(s, i);
      assert s[i..e] == ['0'] + s[i + 1..e];
      LeadingZero(s[i + 1..e]);
      i := i + 1;
    }
  }

  lemma NextDigit(x: string, c: char, y: string, d: char)
    requires AllDigits(x) && AllDigits(y) && IsDigit(c) && IsDigit(d)
    ensures AllDigits(x + [c]) && AllDigits(y + [d])
    ensures CompareInts(Value(x + [c]), Value(y + [d])) ==
            if Value(x) == Value(y) then Sign(c as int - d as int) else CompareInts(Value(x), Value(y))
  {}

  /** The digits both numbers still have, read in lockstep: the first difference is
      the difference of the numbers read. */
  method ReadDigits(a: string, b: string, i0: nat, j0: nat) returns (firstDiff: int, i: nat, j: nat)
    requires i0 <= |a| && j0 <= |b|
    ensures i0 <= i <= NumberEnd(a, i0) && j0 <= j <= NumberEnd(b, j0) && i - i0 == j - j0
    ensures i == NumberEnd(a, i0) || j == NumberEnd(b, j0)
    ensures AllDigits(a[i0..i]) && AllDigits(b[j0..j])
    ensures Sign(firstDiff) == CompareInts(Value(a[i0..i]), Value(b[j0..j]))
  {
    hide Value;
    hide NumberEnd;
    i, j, firstDiff := i0, j0, 0;
    ghost var ie, je := NumberEnd(a, i0), NumberEnd(b, j0);
    ghost var x, y := "", "";
    while IsDigit(CharAt(a, i)) && IsDigit(CharAt(b, j))
      invariant i0 <= i <= ie && j0 <= j <= je
      invariant x == a[i0..i] && y == b[j0..j] && |x| == |y|
      invariant AllDigits(x) && AllDigits(y)
      invariant Sign(firstDiff) == CompareInts(Value(x), Value(y))
      decreases ie - i
    {
      if firstDiff == 0 {
        firstDiff := CharAt(a, i) as int - CharAt(b, j) as int;
      }
      NextDigit(x, a[i], y, b[j]);
      x, y := x + [a[i]], y + [b[j]];
      i := i + 1;
      j := j + 1;
    }
  }

  /** The tail of one pass of the loop: skip the zeros, read the digits; the side with
      digits left is larger, else the first difference decides. */
  method CompareNumbers(a: string, b: string, i0: nat, j0: nat) returns (diff: int, i: nat, j: nat)
    requires i0 <= |a| && j0 <= |b|
    ensures Sign(diff) == CompareInts(NumberAt(a, i0), NumberAt(b, j0))
    ensures diff == 0 ==> i == NumberEnd(a, i0) && j == NumberEnd(b, j0)
  {
    var i1 := SkipZeros(a, i0);
    var j1 := SkipZeros(b, j0);
    diff, i, j := ReadDigits(a, b, i1, j1);
    ghost var x, y := a[i1..NumberEnd(a, i1)], b[j1..NumberEnd(b, j1)];
    if IsDigit(CharAt(a, i)) {
      LongerIsLarger(x, y);
      diff := 1;
    } else if IsDigit(CharAt(b, j)) {
      LongerIsLarger(y, x);
      diff := -1;
    }
  }

  lemma NumberEndsBeforeNul(s: string, i: nat)
    requires i <= |Cut(s)|
    ensures NumberEnd(s, i) <= |Cut(s)|
    ensures Cut(s)[i..][..NumberEnd(s, i) - i] == s[i..NumberEnd(s, i)]
  {
    hide NumberEnd;
    assert |Cut(s)| < |s| ==> s[|Cut(s)|] == NUL;
  }

  lemma NumberEndIsRun(s: string, i: nat)
    requires i <= |Cut(s)|
    ensures NumberEnd(s, i) == i + DigitRun(Cut(s)[i..]) <= |Cut(s)|
    ensures NumberAt(s, i) == Value(Cut(s)[i..][..DigitRun(Cut(s)[i..])])
  {
    hide Cut;
    hide Value;
    hide DigitRun;
    hide NumberEnd;
    var e := NumberEnd(s, i);
    NumberEndsBeforeNul(s, i);
    CutCharAt(s, e);
    DigitRunIs(Cut(s)[i..], e - i);
  }

  /** Both sides stand at a number, at a NUL or at their end. */
  ghost predicate AtNumbers(a: string, b: string) {
    (a == [] || IsDigit(a[0])) && (b == [] || IsDigit(b[0]))
  }

  /** The head of one pass of the loop: the characters outside numbers, by weight. */
  method CompareText(a: string, b: string, i0: nat, j0: nat) returns (diff: int, i: nat, j: nat)
    requires i0 <= |Cut(a)| && j0 <= |Cut(b)|
    ensures i0 <= i <= |Cut(a)| && j0 <= j <= |Cut(b)|
    ensures diff != 0 ==> Sign(diff) == CompareKeys(Cut(a)[i0..], Cut(b)[j0..])
    ensures diff == 0 ==> CompareKeys(Cut(a)[i..], Cut(b)[j..]) == CompareKeys(Cut(a)[i0..], Cut(b)[j0..])
    ensures diff == 0 ==> AtNumbers(Cut(a)[i..], Cut(b)[j..])
  {
    hide CompareKeys;
    hide Cut;
    ghost var ca, cb := Cut(a), Cut(b);
    i, j := i0, j0;
    CutCharAt(a, i);
    CutCharAt(b, j);
    while (CharAt(a, i) != NUL && !IsDigit(CharAt(a, i))) || (CharAt(b, j) != NUL && !IsDigit(CharAt(b, j)))
      invariant i0 <= i <= |ca| && j0 <= j <= |cb|
      invariant CharAt(a, i) == CharAt(ca[i..], 0) && CharAt(b, j) == CharAt(cb[j..], 0)
      invariant CharAt(a, i) == NUL <==> i == |ca|
      invariant CharAt(b, j) == NUL <==> j == |cb|
      invariant CompareKeys(ca[i..], cb[j..]) == CompareKeys(ca[i0..], cb[j0..])
      decreases |ca| - i
    {
      var ac, bc := DpkgOrder(CharAt(a, i)), DpkgOrder(CharAt(b, j));
      if ac != bc {
        WeightDecides(ca[i..], cb[j..]);
        return ac - bc, i, j;
      }
      WeightPasses(ca[i..], cb[j..]);
      i := i + 1;
      j := j + 1;
      CutCharAt(a, i);
      CutCharAt(b, j);
    }
    diff := 0;
  }

  /** One pass of the loop. It decides, or moves on without changing the question;
      it stands still only where both sides are at a NUL or at their end. */
  method ComparePass(a: string, b: string, i0: nat, j0: nat) returns (diff: int, i: nat, j: nat)
    requires i0 <= |Cut(a)| && j0 <= |Cut(b)|
    ensures diff != 0 ==> Sign(diff) == CompareKeys(Cut(a)[i0..], Cut(b)[j0..])
    ensures diff == 0 ==> i0 <= i <= |Cut(a)| && j0 <= j <= |Cut(b)|
    ensures diff == 0 ==> CompareKeys(Cut(a)[i..], Cut(b)[j..]) == CompareKeys(Cut(a)[i0..], Cut(b)[j0..])
    ensures diff == 0 && i + j == i0 + j0 ==> i == |Cut(a)| && j == |Cut(b)|
  {
    hide CompareKeys;
    hide Cut;
    hide NumberAt;
    hide NumberEnd;
    diff, i, j := CompareText(a, b, i0, j0);
    if diff == 0 {
      NumbersPass(a, b, i, j);
      diff, i, j := CompareNumbers(a, b, i, j);
    }
  }

  /** Where both sides stand at numbers: these decide, or are stepped over whole; nothing is
      stepped over only at a NUL or an end. */
  lemma NumbersPass(a: string, b: string, i: nat, j: nat)
    requires i <= |Cut(a)| && j <= |Cut(b)| && AtNumbers(Cut(a)[i..], Cut(b)[j..])
    ensures NumberEnd(a, i) <= |Cut(a)| && NumberEnd(b, j) <= |Cut(b)|
    ensures CompareKeys(Cut(a)[i..], Cut(b)[j..]) ==
            if NumberAt(a, i) != NumberAt(b, j) then CompareInts(NumberAt(a, i), NumberAt(b, j))
            else CompareKeys(Cut(a)[NumberEnd(a, i)..], Cut(b)[NumberEnd(b, j)..])
    ensures NumberEnd(a, i) == i ==> i == |Cut(a)|
    ensures NumberEnd(b, j) == j ==> j == |Cut(b)|
  {
    hide CompareKeys;
    hide Cut;
    hide NumberAt;
    hide NumberEnd;
    hide Value;
    NumberPassed(a, i);
    NumberPassed(b, j);
    NumbersDecide(Cut(a)[i..], Cut(b)[j..]);
  }

  lemma NumberPassed(s: string, i: nat)
    requires i <= |Cut(s)|
    ensures var e, n := NumberEnd(s, i), DigitRun(Cut(s)[i..]);
            && i <= e <= |Cut(s)|
            && NumberAt(s, i) == Value(Cut(s)[i..][..n]) && Cut(s)[i..][n..] == Cut(s)[e..]
            && (e == i && (Cut(s)[i..] == [] || IsDigit(Cut(s)[i..][0])) ==> i == |Cut(s)|)
  {
    hide Cut;
    hide Value;
    hide NumberAt;
    NumberEndIsRun(s, i);
  }

  /** verrevcmp, stopped after `rounds` passes of its outer loop. With NULs in a part
      the loop can stand still for ever; it does so exactly when what precedes the
      NULs compares equal. */
  method VerRevCmpWithin(a: string, b: string, rounds: nat) returns (r: Option<int>)
    ensures r.Some? ==> Halts(a, b) && Sign(r.value) == CompareKeys(Cut(a), Cut(b))
    ensures Halts(a, b) && rounds > |a| + |b| ==> r.Some?
  {
    ghost var ca, cb := Cut(a), Cut(b);
    var i: nat, j: nat, round: nat := 0, 0, 0;
    ghost var goal := CompareKeys(ca, cb);
    assert ca[0..] == ca && cb[0..] == cb;
    while i < |a| || j < |b|
      invariant i <= |ca| && j <= |cb|
      invariant CompareKeys(ca[i..], cb[j..]) == goal
      invariant round <= i + j || (i == |ca| && j == |cb|)
      decreases rounds - round
    {
      if round >= rounds {
        return None;
      }
      var diff, i1, j1 := ComparePass(a, b, i, j);
      if diff != 0 {
        return Some(diff);
      }
      i, j := i1, j1;
      round := round + 1;
    }
    return Some(0);
  }

  /** verrevcmp itself: it may be called only where it returns. */
  method VerRevCmp(a: string, b: string) returns (r: int)
    requires Halts(a, b)
    ensures Sign(r) == CompareKeys(Cut(a), Cut(b))
  {
    var within := VerRevCmpWithin(a, b, |a| + |b| + 1);
    r := within.value;
  }

  /** No number runs across the place where `u` ends and `v` begins. */
  predicate Joins(u: string, v: string) { u == "" || v == "" || !IsDigit(u[|u| - 1]) || !IsDigit(v[0]) }

  /** What is appended adds its own weights and numbers. */
  lemma {:induction false} KeyOfJoin(u: string, v: string)
    requires Joins(u, v)
    ensures Key(u + v) == Key(u) + Key(v)
    decreases |u|
  {
    var w := u + v;
    if u == "" {
      assert w == v;
    } else if IsDigit(u[0]) {
      var n := DigitRun(u);
      assert u[..n][n - 1] == u[n - 1];
      JoinSlices(u, v, n);
      DigitRunIs(w, n);
      KeyOfJoin(u[n..], v);
    } else {
      JoinSlices(u, v, 1);
      KeyOfJoin(u[1..], v);
    }
  }

  /** A common beginning does not matter. */
  lemma CommonBeginning(u: string, v: string, w: string)
    requires Joins(u, v) && Joins(u, w)
    ensures CompareKeys(u + v, u + w) == CompareKeys(v, w)
  {
    hide Key;
    KeyOfJoin(u, v);
    KeyOfJoin(u, w);
    IntsArePreordered();
    LexCommonPrefix(CompareInts, 0, Key(u), Key(v), Key(w));
  }

  /** What follows a version puts it above when it starts with any character but '~',
      which puts it below. */
  lemma WhatFollowsDecides(u: string, c: char, s: string)
    requires !IsDigit(c) && c != NUL
    ensures CompareKeys(u + [c] + s, u) == if c == '~' then -1 else 1
  {
    var v := [c] + s;
    assert u + v == u + [c] + s && u + "" == u && v[1..] == s;
    CommonBeginning(u, v, "");
    assert Key(v) == [DpkgOrder(c)] + Key(s) && Key("") == [];
  }

  // ---------------------------------------------- the same ordering, by character codes

  predicate IsLetterCode(n: int) { IsLowerCode(n) || IsUpperCode(n) }

  /** Neither letter, digit, tilde (126) nor NUL (0). */
  predicate IsOtherCode(n: int) { !IsLetterCode(n) && !IsDigitCode(n) && n != 126 && n != 0 }

  /** The tilde, then the letters by their codes, then all other characters by theirs. */
  predicate ComesBefore(c: int, d: int) {
    || (c == 126 && (IsLetterCode(d) || IsOtherCode(d)))
    || (IsLetterCode(c) && IsOtherCode(d))
    || (IsLetterCode(c) && IsLetterCode(d) && c < d)
    || (IsOtherCode(c) && IsOtherCode(d) && c < d)
  }

  /** Two versions that first differ in two characters outside numbers are ordered as
      these are, whatever follows: 1.1.1k is below 1.1.1n. */
  lemma CharactersDecide(u: string, c: char, s: string, d: char, t: string)
    requires ComesBefore(c as int, d as int)
    ensures CompareKeys(u + [c] + s, u + [d] + t) == -1
  {
    hide Key;
    hide LexCmp;
    ClassesAre(c);
    ClassesAre(d);
    var v, w := [c] + s, [d] + t;
    assert u + v == u + [c] + s && u + w == u + [d] + t;
    CommonBeginning(u, v, w);
    CharacterKey(c, s);
    CharacterKey(d, t);
    LexStep(DpkgOrder(c), Key(s), DpkgOrder(d), Key(t));
  }

  lemma CharacterKey(c: char, s: string)
    requires !IsDigit(c)
    ensures Key([c] + s) == [DpkgOrder(c)] + Key(s)
  {
    assert ([c] + s)[1..] == s;
  }

  lemma NumberKeyIs(x: string, s: string)
    requires IsNumeric(x) && (s != "" ==> !IsDigit(s[0]))
    ensures Key(x + s) == [0, Value(x)] + Key(s)
  {
    var w := x + s;
    JoinSlices(x, s, |x|);
    DigitRunIs(w, |x|);
    assert x[|x|..] + s == s && x[..|x|] == x;
  }

  /** Two versions that first differ in a number are ordered by its value; where the
      values agree, leading zeros do not count and what follows decides. */
  lemma ValuesDecide(u: string, x: string, s: string, y: string, t: string)
    requires IsNumeric(x) && IsNumeric(y) && (u != "" ==> !IsDigit(u[|u| - 1]))
    requires (s != "" ==> !IsDigit(s[0])) && (t != "" ==> !IsDigit(t[0]))
    ensures CompareKeys(u + x + s, u + y + t) ==
            if Value(x) < Value(y) then -1 else if Value(x) > Value(y) then 1 else CompareKeys(s, t)
  {
    hide Key;
    hide LexCmp;
    hide Value;
    assert u + (x + s) == u + x + s && u + (y + t) == u + y + t;
    CommonBeginning(u, x + s, y + t);
    NumberKeyIs(x, s);
    NumberKeyIs(y, t);
    NumberStep(Value(x), Key(s), Value(y), Key(t));
  }

  /** Where one version has a number and the other a character, the character is above
      unless it is the tilde. */
  lemma NumberAgainstCharacter(u: string, c: char, s: string, x: string, t: string)
    requires IsNumeric(x) && (u != "" ==> !IsDigit(u[|u| - 1])) && (t != "" ==> !IsDigit(t[0]))
    requires c as int == 126 || IsLetterCode(c as int) || IsOtherCode(c as int)
    ensures CompareKeys(u + [c] + s, u + x + t) == if c as int == 126 then -1 else 1
  {
    hide Key;
    hide LexCmp;
    hide Value;
    ClassesAre(c);
    var v, w := [c] + s, x + t;
    assert u + v == u + [c] + s && u + w == u + x + t;
    CommonBeginning(u, v, w);
    CharacterKey(c, s);
    NumberKeyIs(x, t);
    assert [0, Value(x)] + Key(t) == [0] + ([Value(x)] + Key(t));
    LexStep(DpkgOrder(c), Key(s), 0, [Value(x)] + Key(t));
  }

  lemma {:induction false} CutAtNul(u: string, s: string)
    requires NulFree(u)
    ensures Cut(u + [NUL] + s) == u
  {
    var w := u + [NUL] + s;
    if u == "" {
      assert w[0] == NUL;
    } else {
      assert w[0] == u[0] && w[1..] == u[1..] + [NUL] + s;
      CutAtNul(u[1..], s);
      assert u == [u[0]] + u[1..];
    }
  }

  /** A version against itself with a NUL behind it: the comparison never returns. */
  lemma NulNeverReturns(u: string, s: string)
    requires NulFree(u)
    ensures !Halts(u + [NUL] + s, u)
  {
    CutAtNul(u, s);
    assert Cut(u) == u;
    FlipKeys(Key(u), Key(u));
    assert NUL in u + [NUL] + s;
  }

  // ------------------------------------------------------------- CompareDebian

  datatype Parts = Parts(epoch: string, upstream: string, revision: string)

  function SplitDebian(version: string): Parts {
    var v := TrimSpace(version);
    var i := Index(v, ':');
    var (epoch, rest) := if i >= 0 then (v[..i], v[i + 1..]) else ("0", v);
    var j := LastIndex(rest, '-');
    if j >= 0 then Parts(epoch, rest[..j], rest[j + 1..]) else Parts(epoch, rest, "")
  }

  /** The parts of a version are found where its author put them: an epoch has no colon,
      a revision no hyphen, and the upstream version may have both. */
  lemma PartsAreFound(epoch: string, upstream: string, revision: string)
    requires ':' !in epoch && '-' !in revision && Trimmed(epoch + ":" + upstream + "-" + revision)
    ensures SplitDebian(epoch + ":" + upstream + "-" + revision) == Parts(epoch, upstream, revision)
  {
    var rest := upstream + "-" + revision;
    var v := epoch + ":" + upstream + "-" + revision;
    assert v == epoch + [':'] + rest;
    SplitWhereJoined(v, epoch, rest, upstream, revision);
  }

  lemma SplitWhereJoined(v: string, epoch: string, rest: string, upstream: string, revision: string)
    requires Trimmed(v) && v == epoch + [':'] + rest && rest == upstream + ['-'] + revision
    requires ':' !in epoch && '-' !in revision
    ensures SplitDebian(v) == Parts(epoch, upstream, revision)
  {
    hide Index;
    hide LastIndex;
    hide TrimSpace;
    TrimmedIsKept(v);
    CutAtFirst(v, epoch, ':', rest);
    CutAtLast(rest, upstream, '-', revision);
  }

  /** Without colon and hyphen the epoch is 0, all of the text is the upstream version and
      the revision is empty. White space around the text is no part of it. */
  lemma UpstreamAlone(upstream: string, before: string, after: string)
    requires AllSpaces(before) && AllSpaces(after) && Trimmed(upstream)
    requires ':' !in upstream && '-' !in upstream
    ensures SplitDebian(before + upstream + after) == Parts("0", upstream, "")
  {
    hide Index;
    hide LastIndex;
    hide TrimSpace;
    TrimmingIs(before, upstream, after);
  }

  lemma WithoutEpoch(upstream: string, revision: string, before: string, after: string)
    requires AllSpaces(before) && AllSpaces(after) && Trimmed(upstream + ['-'] + revision)
    requires ':' !in upstream && ':' !in revision && '-' !in revision
    ensures SplitDebian(before + (upstream + ['-'] + revision) + after) == Parts("0", upstream, revision)
  {
    hide Index;
    hide LastIndex;
    hide TrimSpace;
    var v := upstream + ['-'] + revision;
    TrimmingIs(before, v, after);
    CutAtLast(v, upstream, '-', revision);
  }

  lemma WithoutRevision(epoch: string, upstream: string, before: string, after: string)
    requires AllSpaces(before) && AllSpaces(after) && Trimmed(epoch + [':'] + upstream)
    requires ':' !in epoch && '-' !in upstream
    ensures SplitDebian(before + (epoch + [':'] + upstream) + after) == Parts(epoch, upstream, "")
  {
    hide Index;
    hide LastIndex;
    hide TrimSpace;
    var v := epoch + [':'] + upstream;
    TrimmingIs(before, v, after);
    CutAtFirst(v, epoch, ':', upstream);
  }

  /** Epoch first, then upstream version, then revision. */
  ghost function DebianOrder(a: string, b: string): int {
    var p, q := SplitDebian(a), SplitDebian(b);
    var e, u := CompareInt(p.epoch, q.epoch), CompareKeys(Cut(p.upstream), Cut(q.upstream));
    if e != 0 then e
    else if u != 0 then u
    else CompareKeys(Cut(p.revision), Cut(q.revision))
  }

  ghost predicate DebianHalts(a: string, b: string) {
    var p, q := SplitDebian(a), SplitDebian(b);
    CompareInt(p.epoch, q.epoch) == 0 ==>
      && Halts(p.upstream, q.upstream)
      && (CompareKeys(Cut(p.upstream), Cut(q.upstream)) == 0 ==> Halts(p.revision, q.revision))
  }

  /** Of two versions written out in full, the larger epoch wins, then the upstream version
      that is above, then the revision. */
  lemma PartsDecide(e: string, u: string, r: string, f: string, w: string, q: string)
    requires AllDigits(e) && AllDigits(f) && '-' !in r && '-' !in q
    requires Trimmed(e + ":" + u + "-" + r) && Trimmed(f + ":" + w + "-" + q)
    ensures DebianOrder(e + ":" + u + "-" + r, f + ":" + w + "-" + q) ==
            if Value(e) < Value(f) then -1 else if Value(e) > Value(f) then 1
            else if CompareKeys(Cut(u), Cut(w)) != 0 then CompareKeys(Cut(u), Cut(w))
            else CompareKeys(Cut(r), Cut(q))
  {
    hide SplitDebian;
    hide CompareInt;
    hide CompareKeys;
    hide Cut;
    hide Value;
    hide TrimSpace;
    PartsAreFound(e, u, r);
    PartsAreFound(f, w, q);
    DigitsAreTrimmed(e);
    DigitsAreTrimmed(f);
    CompareIntIsByValue(e, f);
  }

  lemma DigitsAreTrimmed(e: string)
    requires AllDigits(e)
    ensures TrimSpace(e) == e
  {
    TrimmedIsKept(e);
  }

  method CompareDebian(a: string, b: string) returns (r: int)
    requires DebianHalts(a, b)
    ensures r == DebianOrder(a, b)
  {
    var p, q := SplitDebian(a), SplitDebian(b);
    var c := CompareInt(p.epoch, q.epoch);
    if c != 0 {
      return c;
    }
    c := VerRevCmp(p.upstream, q.upstream);
    if c != 0 {
      return Sign(c);
    }
    c := VerRevCmp(p.revision, q.revision);
    return Sign(c);
  }

  lemma NulFreeParts(version: string)
    requires NulFree(TrimSpace(version))
    ensures NulFree(SplitDebian(version).upstream) && NulFree(SplitDebian(version).revision)
  {}

  lemma NulFreeHalts(a: string, b: string)
    requires NulFree(TrimSpace(a)) && NulFree(TrimSpace(b))
    ensures DebianHalts(a, b)
  {
    NulFreeParts(a);
    NulFreeParts(b);
  }

  predicate HasDecimalEpoch(v: string) { IsDecimal(SplitDebian(v).epoch) }

  /** CompareDebian is a total preorder on the versions with a decimal or no epoch. */
  lemma DebianIsPreorder()
    ensures PreorderOn(DebianOrder, HasDecimalEpoch)
  {
    forall a, b | HasDecimalEpoch(a) && HasDecimalEpoch(b) ensures DebianOrder(a, b) == -DebianOrder(b, a) {
      DebianComparesRanks(a, b);
      DebianComparesRanks(b, a);
      RanksFlip(RankOf(a), RankOf(b));
    }
    forall a, b, c | HasDecimalEpoch(a) && HasDecimalEpoch(b) && HasDecimalEpoch(c) &&
        DebianOrder(a, b) <= 0 && DebianOrder(b, c) <= 0
      ensures DebianOrder(a, c) <= 0
    {
      DebianComparesRanks(a, b);
      DebianComparesRanks(b, c);
      DebianComparesRanks(a, c);
      RanksTransitive(RankOf(a), RankOf(b), RankOf(c));
    }
  }

  datatype Rank = Rank(epoch: int, upstream: seq<int>, revision: seq<int>)

  ghost function RankOf(v: string): Rank
    requires HasDecimalEpoch(v)
  {
    var p := SplitDebian(v);
    Rank(DecimalValue(p.epoch), Key(Cut(p.upstream)), Key(Cut(p.revision)))
  }

  ghost function CompareRanks(x: Rank, y: Rank): int {
    if x.epoch != y.epoch then CompareInts(x.epoch, y.epoch)
    else
      var u := LexCmp(CompareInts, 0, x.upstream, y.upstream);
      if u != 0 then u else LexCmp(CompareInts, 0, x.revision, y.revision)
  }

  lemma DebianComparesRanks(a: string, b: string)
    requires HasDecimalEpoch(a) && HasDecimalEpoch(b)
    ensures DebianOrder(a, b) == CompareRanks(RankOf(a), RankOf(b))
  {
    hide CompareInt;
    hide DecimalValue;
    hide IsDecimal;
    hide SplitDebian;
    hide Key;
    hide Cut;
    hide LexCmp;
    CompareIntIsByValue(SplitDebian(a).epoch, SplitDebian(b).epoch);
  }

  lemma RanksFlip(x: Rank, y: Rank)
    ensures CompareRanks(x, y) == -CompareRanks(y, x)
  {
    FlipKeys(x.upstream, y.upstream);
    FlipKeys(x.revision, y.revision);
  }

  lemma RanksTransitive(x: Rank, y: Rank, z: Rank)
    requires CompareRanks(x, y) <= 0 && CompareRanks(y, z) <= 0
    ensures CompareRanks(x, z) <= 0
  {
    if x.epoch == y.epoch == z.epoch {
      KeysTransitive(x.upstream, y.upstream, z.upstream);
      if LexCmp(CompareInts, 0, x.upstream, z.upstream) == 0 {
        KeysTransitive(x.revision, y.revision, z.revision);
      }
    }
  }

  /** Transitivity, and that a tie of the outer two makes all three tie. */
  lemma KeysTransitive(xs: seq<int>, ys: seq<int>, zs: seq<int>)
    requires LexCmp(CompareInts, 0, xs, ys) <= 0 && LexCmp(CompareInts, 0, ys, zs) <= 0
    ensures LexCmp(CompareInts, 0, xs, zs) <= 0
    ensures LexCmp(CompareInts, 0, xs, zs) == 0 ==>
              LexCmp(CompareInts, 0, xs, ys) == 0 && LexCmp(CompareInts, 0, ys, zs) == 0
  {
    IntsArePreordered();
    LexTransitive(CompareInts, 0, xs, ys, zs);
    if LexCmp(CompareInts, 0, xs, zs) == 0 {
      FlipKeys(xs, zs);
      LexTransitive(CompareInts, 0, zs, xs, ys);
      LexTransitive(CompareInts, 0, ys, zs, xs);
      FlipKeys(xs, ys);
      FlipKeys(ys, zs);
    }
  }
}
