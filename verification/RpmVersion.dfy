/**
 The rpm version ordering, as app/pkgmgr/version.go implements it.

 A version is read as a list of tokens: separators vanish, a run of digits is a
 number, a run of letters a word, '~' and '^' stand for themselves. Lists compare
 token by token with '~' < end < '^' < words < numbers.
 */
module RpmVersion {
  import opened Text
  import opened Ordering
  import opened Decimal
  import opened VersionTokens

  ghost function Rank(t: Token): int {
    match t
    case Tilde => 0
    case End => 1
    case Caret => 2
    case Word(_) => 3
    case Number(_) => 4
  }

  ghost function CompareTokens(s: Token, t: Token): int { CompareRanked(Rank(s), s, Rank(t), t) }

  lemma TokensArePreordered()
    ensures Preorder(CompareTokens)
  {
    KindsAndValuesArePreordered(Rank);
    assert forall s, t :: CompareTokens(s, t) == CompareBy(Rank, s, t);
  }

  predicate IsSeparator(c: char) { !IsDigit(c) && !IsLetter(c) && c != '~' && c != '^' }

  ghost function Tokens(s: string): seq<Token>
    decreases |s|
  {
    if s == [] then []
    else if s[0] == '~' then [Tilde] + Tokens(s[1..])
    else if s[0] == '^' then [Caret] + Tokens(s[1..])
    else if IsDigit(s[0]) then [Number(Value(s[..DigitRun(s)]))] + Tokens(s[DigitRun(s)..])
    else if IsLetter(s[0]) then [Word(s[..LetterRun(s)])] + Tokens(s[LetterRun(s)..])
    else Tokens(s[1..])
  }

  ghost function CompareLists(xs: seq<Token>, ys: seq<Token>): int {
    LexCmp(CompareTokens, End, xs, ys)
  }

  ghost function Rpm(a: string, b: string): int { CompareLists(Tokens(a), Tokens(b)) }

  lemma ListsFlip(xs: seq<Token>, ys: seq<Token>)
    ensures CompareLists(xs, ys) == -CompareLists(ys, xs)
  {
    TokensArePreordered();
    LexFlips(CompareTokens, End, xs, ys);
  }

  /** Transitivity, and that a tie of the outer two makes all three tie. */
  lemma ListsTransitive(xs: seq<Token>, ys: seq<Token>, zs: seq<Token>)
    requires CompareLists(xs, ys) <= 0 && CompareLists(ys, zs) <= 0
    ensures CompareLists(xs, zs) <= 0
    ensures CompareLists(xs, zs) == 0 ==> CompareLists(xs, ys) == 0 && CompareLists(ys, zs) == 0
  {
    TokensArePreordered();
    LexTransitive(CompareTokens, End, xs, ys, zs);
    if CompareLists(xs, zs) == 0 {
      ListsFlip(xs, zs);
      LexTransitive(CompareTokens, End, zs, xs, ys);
      LexTransitive(CompareTokens, End, ys, zs, xs);
      ListsFlip(xs, ys);
      ListsFlip(ys, zs);
    }
  }

  lemma ListsReflexive(xs: seq<Token>)
    ensures CompareLists(xs, xs) == 0
  {
    ListsFlip(xs, xs);
  }

  // ----------------------------------------------------------------- rpmvercmp

  method SkipSeparators(s: string, i0: nat) returns (i: nat)
    requires i0 <= |s|
    ensures i0 <= i <= |s| && Tokens(s[i..]) == Tokens(s[i0..])
    ensures i < |s| ==> !IsSeparator(s[i])
  {
    i := i0;
    while i < |s| && IsSeparator(s[i])
      invariant i0 <= i <= |s| && Tokens(s[i..]) == Tokens(s[i0..])
    {
      assert s[i..][1..] == s[i + 1..];
      i := i + 1;
    }
  }

  method RunEnd(s: string, i0: nat, numeric: bool) returns (i: nat)
    requires i0 <= |s|
    ensures i == i0 + if numeric then DigitRun(s[i0..]) else LetterRun(s[i0..])
    ensures i <= |s|
  {
    i := i0;
    while i < |s| && if numeric then IsDigit(s[i]) else IsLetter(s[i])
      invariant i0 <= i <= |s|
      invariant numeric ==> i0 + DigitRun(s[i0..]) == i + DigitRun(s[i..])
      invariant !numeric ==> i0 + LetterRun(s[i0..]) == i + LetterRun(s[i..])
    {
      assert s[i..][1..] == s[i + 1..];
      i := i + 1;
    }
  }

  /** The first token of a part whose leading separators are gone, and its length. */
  ghost function FirstToken(s: string): Token
    requires s != [] ==> !IsSeparator(s[0])
  {
    if s == [] then End
    else if s[0] == '~' then Tilde
    else if s[0] == '^' then Caret
    else if IsDigit(s[0]) then Number(Value(s[..DigitRun(s)]))
    else Word(s[..LetterRun(s)])
  }

  ghost function TokenLength(s: string): (n: nat)
    ensures n <= |s|
  {
    if s == [] then 0
    else if s[0] == '~' || s[0] == '^' then 1
    else if IsDigit(s[0]) then DigitRun(s)
    else LetterRun(s)
  }

  ghost predicate NoSeparator(s: string) { s != [] ==> !IsSeparator(s[0]) }

  lemma FirstTokenDecides(x: string, y: string)
    requires NoSeparator(x) && NoSeparator(y)
    requires CompareTokens(FirstToken(x), FirstToken(y)) != 0
    ensures Rpm(x, y) == CompareTokens(FirstToken(x), FirstToken(y))
  {}

  /** Equal first tokens are stepped over: `m` and `n` are where they end. */
  lemma FirstTokenPasses(x: string, i: nat, m: nat, y: string, j: nat, n: nat)
    requires i < |x| && j < |y| && NoSeparator(x[i..]) && NoSeparator(y[j..])
    requires CompareTokens(FirstToken(x[i..]), FirstToken(y[j..])) == 0
    requires m == i + TokenLength(x[i..]) && n == j + TokenLength(y[j..])
    ensures Rpm(x[i..], y[j..]) == Rpm(x[m..], y[n..])
  {
    StepOver(x, i, m);
    StepOver(y, j, n);
  }

  lemma StepOver(x: string, i: nat, m: nat)
    requires i < |x| && NoSeparator(x[i..]) && m == i + TokenLength(x[i..])
    ensures i < m <= |x| && Tokens(x[i..]) == [FirstToken(x[i..])] + Tokens(x[m..])
  {
    hide Tokens;
    TokensStep(x[i..]);
    assert x[i..][m - i..] == x[m..];
  }

  /** One side has come to its end, and the other stands at no marker. */
  lemma EndDecides(x: string, y: string)
    requires (x == "" || y == "") && NoSeparator(x) && NoSeparator(y)
    requires (x != "" ==> x[0] != '~' && x[0] != '^') && (y != "" ==> y[0] != '~' && y[0] != '^')
    ensures Rpm(x, y) == if x == "" && y == "" then 0 else if x == "" then -1 else 1
  {
    hide Rpm;
    if x != "" || y != "" {
      FirstTokenDecides(x, y);
    } else {
      NothingTies();
    }
  }

  lemma NothingTies()
    ensures Rpm("", "") == 0
  {}

  datatype Marker = Decided(c: int) | Matched | NoMarker

  /** The two ordering markers: '~' before everything, '^' just above the end. */
  method CompareMarkers(a: string, b: string, i: nat, j: nat) returns (step: Marker)
    requires i <= |a| && j <= |b|
    requires (i < |a| ==> !IsSeparator(a[i])) && (j < |b| ==> !IsSeparator(b[j]))
    ensures step.Decided? ==> step.c == CompareTokens(FirstToken(a[i..]), FirstToken(b[j..])) != 0
    ensures step.Matched? ==> FirstToken(a[i..]) == FirstToken(b[j..]) &&
                              TokenLength(a[i..]) == TokenLength(b[j..]) == 1
    ensures step.NoMarker? ==> (i < |a| ==> a[i] != '~' && a[i] != '^') && (j < |b| ==> b[j] != '~' && b[j] != '^')
  {
    var aTilde, bTilde := i < |a| && a[i] == '~', j < |b| && b[j] == '~';
    if aTilde || bTilde {
      if !aTilde {
        return Decided(1);
      }
      if !bTilde {
        return Decided(-1);
      }
      return Matched;
    }
    var aCaret, bCaret := i < |a| && a[i] == '^', j < |b| && b[j] == '^';
    if aCaret || bCaret {
      if i >= |a| {
        return Decided(-1);
      }
      if j >= |b| {
        return Decided(1);
      }
      if !aCaret {
        return Decided(1);
      }
      if !bCaret {
        return Decided(-1);
      }
      return Matched;
    }
    return NoMarker;
  }

  /** Two runs of the same kind: numbers by value whatever their zeros, words by
      their bytes. */
  method CompareSegments(segA: string, segB: string, numeric: bool) returns (c: int)
    requires numeric ==> AllDigits(segA) && AllDigits(segB)
    ensures numeric ==> c == CompareInts(Value(segA), Value(segB))
    ensures !numeric ==> c == CompareStrings(segA, segB)
  {
    if numeric {
      CompareTrimmedIsByValue(segA, segB);
      var x, y := TrimZeros(segA), TrimZeros(segB);
      if |x| != |y| {
        return if |x| > |y| then 1 else -1;
      }
      return CompareStrings(x, y);
    }
    return CompareStrings(segA, segB);
  }

  /** The next run of digits or letters on both sides. */
  method CompareRuns(a: string, b: string, i: nat, j: nat) returns (c: int, i': nat, j': nat)
    requires i < |a| && j < |b| && (IsDigit(a[i]) || IsLetter(a[i])) && (IsDigit(b[j]) || IsLetter(b[j]))
    ensures c == CompareTokens(FirstToken(a[i..]), FirstToken(b[j..]))
    ensures c == 0 ==> i' == i + TokenLength(a[i..]) && j' == j + TokenLength(b[j..])
  {
    ghost var x, y := a[i..], b[j..];
    var numeric := IsDigit(a[i]);
    i' := RunEnd(a, i, numeric);
    j' := RunEnd(b, j, numeric);
    var segA, segB := a[i..i'], b[j..j'];
    assert segA == x[..i' - i] && segB == y[..j' - j];
    if |segB| == 0 {
      assert IsDigit(y[0]) != numeric;
      c := if numeric then 1 else -1;
    } else {
      assert IsDigit(y[0]) == numeric by {
        assert y[0] == segB[0];
      }
      c := CompareSegments(segA, segB, numeric);
    }
  }

  datatype Pass = Answer(c: int) | Onward(i: nat, j: nat)

  /** One pass of the loop: it answers, or steps over one equal token on each side. */
  method ComparePass(a: string, b: string, i0: nat, j0: nat) returns (pass: Pass)
    requires i0 <= |a| && j0 <= |b|
    ensures pass.Answer? ==> pass.c == Rpm(a[i0..], b[j0..])
    ensures pass.Onward? ==> i0 < pass.i <= |a| && j0 < pass.j <= |b|
    ensures pass.Onward? ==> Rpm(a[pass.i..], b[pass.j..]) == Rpm(a[i0..], b[j0..])
  {
    hide CompareLists;
    hide Tokens;
    hide FirstToken;
    hide TokenLength;
    var i := SkipSeparators(a, i0);
    var j := SkipSeparators(b, j0);
    var marker := CompareMarkers(a, b, i, j);
    if marker.Decided? {
      FirstTokenDecides(a[i..], b[j..]);
      return Answer(marker.c);
    }
    if marker.Matched? {
      FirstTokenPasses(a, i, i + 1, b, j, j + 1);
      return Onward(i + 1, j + 1);
    }
    if i >= |a| || j >= |b| {
      EndDecides(a[i..], b[j..]);
      return Answer(if i >= |a| && j >= |b| then 0 else if i >= |a| then -1 else 1);
    }
    var c, i', j' := CompareRuns(a, b, i, j);
    if c != 0 {
      FirstTokenDecides(a[i..], b[j..]);
      return Answer(c);
    }
    FirstTokenPasses(a, i, i', b, j, j');
    StepOver(a, i, i');
    StepOver(b, j, j');
    return Onward(i', j');
  }

  method RpmVerCmp(a: string, b: string) returns (r: int)
    ensures r == Rpm(a, b)
  {
    if a == b {
      ListsReflexive(Tokens(a));
      return 0;
    }
    var i: nat, j: nat := 0, 0;
    ghost var goal := Rpm(a, b);
    assert a[0..] == a && b[0..] == b;
    while i < |a| || j < |b|
      invariant i <= |a| && j <= |b|
      invariant Rpm(a[i..], b[j..]) == goal
      decreases |a| - i + |b| - j
    {
      var pass := ComparePass(a, b, i, j);
      if pass.Answer? {
        return pass.c;
      }
      i, j := pass.i, pass.j;
    }
    return 0;
  }

  /** rpmvercmp is a total preorder on every string. */
  lemma RpmIsPreorder()
    ensures PreorderOn(Rpm, (s: string) => true)
  {
    forall a, b ensures Rpm(a, b) == -Rpm(b, a) {
      ListsFlip(Tokens(a), Tokens(b));
    }
    forall a, b, c | Rpm(a, b) <= 0 && Rpm(b, c) <= 0 ensures Rpm(a, c) <= 0 {
      ListsTransitive(Tokens(a), Tokens(b), Tokens(c));
    }
  }

  /** What is appended adds its own tokens, unless it continues a run. */
  lemma {:induction false} TokensOfJoin(u: string, v: string)
    requires BreaksRuns(u, v)
    ensures Tokens(u + v) == Tokens(u) + Tokens(v)
    decreases |u|
  {
    hide Tokens;
    hide FirstRun;
    hide FirstToken;
    hide BreaksRuns;
    hide DigitRun;
    hide LetterRun;
    var w := u + v;
    if u == "" {
      assert w == v;
      NoTokens();
    } else {
      FirstRunOfJoin(u, v);
      TokensStep(u);
      TokensStep(w);
      if !IsSeparator(u[0]) { FirstTokenOfJoin(u, v); }
      TokensOfJoin(u[FirstRun(u)..], v);
    }
  }

  lemma FirstTokenOfJoin(u: string, v: string)
    requires u != "" && BreaksRuns(u, v) && !IsSeparator(u[0])
    ensures !IsSeparator((u + v)[0]) && FirstToken(u + v) == FirstToken(u)
  {
    FirstRunOfJoin(u, v);
  }

  lemma NoTokens()
    ensures Tokens("") == []
  {}

  lemma TokensStep(s: string)
    requires s != ""
    ensures Tokens(s) == (if IsSeparator(s[0]) then [] else [FirstToken(s)]) + Tokens(s[FirstRun(s)..])
  {}

  /** A common beginning does not matter. */
  lemma CommonBeginning(u: string, v: string, w: string)
    requires BreaksRuns(u, v) && BreaksRuns(u, w)
    ensures Rpm(u + v, u + w) == Rpm(v, w)
  {
    hide Tokens;
    TokensOfJoin(u, v);
    TokensOfJoin(u, w);
    TokensArePreordered();
    LexCommonPrefix(CompareTokens, End, Tokens(u), Tokens(v), Tokens(w));
  }

  /** '~' puts a version below the same version without what follows. */
  lemma TildeIsBelow(u: string, s: string)
    ensures Rpm(u + "~" + s, u) == -1
  {
    var v := "~" + s;
    assert u + v == u + "~" + s && u + "" == u;
    CommonBeginning(u, v, "");
    FirstTokenDecides(v, "");
  }

  /** '^' puts a version above the same version without what follows, and below every
      one that goes on with a number or a word. */
  lemma CaretIsJustAbove(u: string, s: string, t: string)
    requires StartsRun(t)
    ensures Rpm(u + "^" + s, u) == 1
    ensures Rpm(u + "^" + s, u + "." + t) == -1
  {
    var v, w := "^" + s, "." + t;
    assert u + v == u + "^" + s && u + "" == u && u + w == u + "." + t;
    CommonBeginning(u, v, "");
    FirstTokenDecides(v, "");
    CommonBeginning(u, v, w);
    SeparatorsVanish(v, t);
    FirstTokenDecides(v, t);
  }

  lemma SeparatorsVanish(v: string, t: string)
    ensures Rpm(v, "." + t) == Rpm(v, t)
  {
    SeparatorHasNoToken('.', t);
  }

  /** Neither letter, digit, '^' (94) nor '~' (126). */
  predicate IsSeparatorCode(n: int) {
    !IsLowerCode(n) && !IsUpperCode(n) && !IsDigitCode(n) && n != 94 && n != 126
  }

  lemma SeparatorHasNoToken(c: char, t: string)
    requires IsSeparatorCode(c as int)
    ensures Tokens([c] + t) == Tokens(t)
  {
    ClassesAre(c);
    assert ([c] + t)[1..] == t;
  }

  /** A separator only parts the runs beside it: which one it is does not matter, and where
      it parts none it may as well be missing. */
  lemma SeparatorsDoNotMatter(u: string, c: char, d: char, t: string, w: string)
    requires IsSeparatorCode(c as int) && IsSeparatorCode(d as int)
    ensures Rpm(u + [c] + t, w) == Rpm(u + [d] + t, w) && Rpm(w, u + [c] + t) == Rpm(w, u + [d] + t)
    ensures BreaksRuns(u, t) ==> Rpm(u + [c] + t, w) == Rpm(u + t, w)
  {
    hide Tokens;
    ClassesAre(c);
    ClassesAre(d);
    assert u + ([c] + t) == u + [c] + t && u + ([d] + t) == u + [d] + t;
    TokensOfJoin(u, [c] + t);
    TokensOfJoin(u, [d] + t);
    SeparatorHasNoToken(c, t);
    SeparatorHasNoToken(d, t);
    if BreaksRuns(u, t) { TokensOfJoin(u, t); }
  }

  predicate IsWord(s: string) { s != "" && AllLetters(s) }

  lemma NumberToken(x: string, s: string)
    requires IsNumeric(x) && (s != "" ==> !IsDigit(s[0]))
    ensures Tokens(x + s) == [Number(Value(x))] + Tokens(s)
  {
    var w := x + s;
    JoinSlices(x, s, |x|);
    DigitRunIs(w, |x|);
    assert x[|x|..] + s == s && x[..|x|] == x;
  }

  lemma WordToken(x: string, s: string)
    requires IsWord(x) && (s != "" ==> !IsLetter(s[0]))
    ensures Tokens(x + s) == [Word(x)] + Tokens(s)
  {
    var w := x + s;
    JoinSlices(x, s, |x|);
    LetterRunIs(w, |x|);
    assert x[|x|..] + s == s && x[..|x|] == x;
  }

  lemma ListStep(t: Token, xs: seq<Token>, u: Token, ys: seq<Token>)
    ensures CompareLists([t] + xs, [u] + ys) ==
            if CompareTokens(t, u) != 0 then CompareTokens(t, u) else CompareLists(xs, ys)
  {}

  /** Two numbers at the same place are ordered by value; leading zeros do not count. */
  lemma NumbersCompareByValue(u: string, x: string, s: string, y: string, t: string)
    requires IsNumeric(x) && IsNumeric(y) && (u != "" ==> !IsDigit(u[|u| - 1]))
    requires (s != "" ==> !IsDigit(s[0])) && (t != "" ==> !IsDigit(t[0]))
    ensures Rpm(u + x + s, u + y + t) ==
            if Value(x) < Value(y) then -1 else if Value(x) > Value(y) then 1 else Rpm(s, t)
  {
    hide Tokens;
    hide CompareLists;
    hide Value;
    assert u + (x + s) == u + x + s && u + (y + t) == u + y + t;
    CommonBeginning(u, x + s, y + t);
    NumberToken(x, s);
    NumberToken(y, t);
    ListStep(Number(Value(x)), Tokens(s), Number(Value(y)), Tokens(t));
  }

  /** Two words at the same place are ordered by their bytes. */
  lemma WordsCompareByBytes(u: string, x: string, s: string, y: string, t: string)
    requires IsWord(x) && IsWord(y) && (u != "" ==> !IsLetter(u[|u| - 1]))
    requires (s != "" ==> !IsLetter(s[0])) && (t != "" ==> !IsLetter(t[0]))
    ensures Rpm(u + x + s, u + y + t) == if x != y then CompareStrings(x, y) else Rpm(s, t)
  {
    hide Tokens;
    hide CompareLists;
    assert u + (x + s) == u + x + s && u + (y + t) == u + y + t;
    CommonBeginning(u, x + s, y + t);
    WordToken(x, s);
    WordToken(y, t);
    ListStep(Word(x), Tokens(s), Word(y), Tokens(t));
  }

  /** A number is above a word at the same place. */
  lemma NumberIsAboveWord(u: string, x: string, s: string, y: string, t: string)
    requires IsNumeric(x) && IsWord(y) && BreaksRuns(u, x) && BreaksRuns(u, y)
    requires (s != "" ==> !IsDigit(s[0])) && (t != "" ==> !IsLetter(t[0]))
    ensures Rpm(u + x + s, u + y + t) == 1 && Rpm(u + y + t, u + x + s) == -1
  {
    hide Tokens;
    hide CompareLists;
    assert u + (x + s) == u + x + s && u + (y + t) == u + y + t;
    CommonBeginning(u, x + s, y + t);
    CommonBeginning(u, y + t, x + s);
    NumberToken(x, s);
    WordToken(y, t);
    ListStep(Number(Value(x)), Tokens(s), Word(y), Tokens(t));
    ListStep(Word(y), Tokens(t), Number(Value(x)), Tokens(s));
  }

  // ---------------------------------------------------------------- CompareRPM

  datatype Parts = Parts(epoch: string, version: string, release: string)

  const NO_EPOCH: string := "(none)"

  function EpochOf(text: string): string { if text == "" || text == NO_EPOCH then "0" else text }

  /** What stands behind the epoch. */
  function SplitRest(epoch: string, rest: string): Parts {
    var j := LastIndex(rest, '-');
    if j >= 0 then Parts(epoch, rest[..j], rest[j + 1..]) else Parts(epoch, rest, "")
  }

  function SplitRpm(version: string): Parts {
    var v := TrimSpace(version);
    var i := Index(v, ':');
    if i < 0 then SplitRest("0", v) else SplitRest(EpochOf(v[..i]), v[i + 1..])
  }

  /** The parts are found where they were put. An epoch stays as it is, save that an empty
      one and "(none)" are 0. */
  lemma PartsAreFound(epoch: string, version: string, release: string)
    requires ':' !in epoch && '-' !in release && Trimmed(epoch + ":" + version + "-" + release)
    ensures SplitRpm(epoch + ":" + version + "-" + release) ==
            Parts(if epoch == "" || epoch == "(none)" then "0" else epoch, version, release)
  {
    hide TrimSpace;
    hide SplitRpm;
    var rest := version + "-" + release;
    var v := epoch + ":" + version + "-" + release;
    assert v == epoch + [':'] + rest;
    SplitAtColon(v, epoch, rest);
    SplitAtHyphen(if epoch == "" || epoch == "(none)" then "0" else epoch, rest, version, release);
  }

  lemma SplitAtColon(v: string, epoch: string, rest: string)
    requires Trimmed(v) && v == epoch + [':'] + rest && ':' !in epoch
    ensures SplitRpm(v) == SplitRest(if epoch == "" || epoch == "(none)" then "0" else epoch, rest)
  {
    hide Index;
    hide LastIndex;
    hide TrimSpace;
    TrimmedIsKept(v);
    CutAtFirst(v, epoch, ':', rest);
  }

  lemma SplitAtHyphen(epoch: string, rest: string, version: string, release: string)
    requires rest == version + ['-'] + release && '-' !in release
    ensures SplitRest(epoch, rest) == Parts(epoch, version, release)
  {
    hide LastIndex;
    CutAtLast(rest, version, '-', release);
  }

  lemma SplitWithoutColon(v: string)
    requires Trimmed(v) && ':' !in v
    ensures SplitRpm(v) == SplitRest("0", v)
  {
    hide Index;
    hide TrimSpace;
    TrimmedIsKept(v);
  }

  /** No epoch, an empty one and "(none)" all read as an epoch of 0 in front of the rest. */
  lemma MissingEpochIsZero(rest: string)
    requires rest == "" || !IsSpace(rest[|rest| - 1])
    ensures SplitRpm(":" + rest) == SplitRpm("0:" + rest) == SplitRpm("(none):" + rest)
    ensures ':' !in rest && Trimmed(rest) ==> SplitRpm(rest) == SplitRpm("0:" + rest)
  {
    hide SplitRpm;
    hide SplitRest;
    assert "" + [':'] + rest == ":" + rest && "0" + [':'] + rest == "0:" + rest;
    assert "(none)" + [':'] + rest == "(none):" + rest;
    SplitAtColon(":" + rest, "", rest);
    SplitAtColon("0:" + rest, "0", rest);
    SplitAtColon("(none):" + rest, "(none)", rest);
    if ':' !in rest && Trimmed(rest) { SplitWithoutColon(rest); }
  }

  /** Without a hyphen there is no release. */
  lemma MissingReleaseIsEmpty(epoch: string, version: string)
    requires ':' !in epoch && epoch != "" && epoch != "(none)" && '-' !in version && Trimmed(epoch + [':'] + version)
    ensures SplitRpm(epoch + [':'] + version) == Parts(epoch, version, "")
  {
    hide SplitRpm;
    SplitAtColon(epoch + [':'] + version, epoch, version);
  }

  /** White space around a version is no part of it. */
  lemma SpacesAreCut(before: string, v: string, after: string)
    requires AllSpaces(before) && AllSpaces(after) && Trimmed(v)
    ensures SplitRpm(before + v + after) == SplitRpm(v)
  {
    hide TrimSpace;
    TrimmingIs(before, v, after);
    TrimmedIsKept(v);
  }

  /** Epoch first, then version, then release; a missing release equals any. */
  ghost function CompareParts(p: Parts, q: Parts): int {
    var e, v := CompareInt(p.epoch, q.epoch), Rpm(p.version, q.version);
    if e != 0 then e
    else if v != 0 then v
    else if p.release == "" || q.release == "" then 0
    else Rpm(p.release, q.release)
  }

  ghost function RpmOrder(a: string, b: string): int { CompareParts(SplitRpm(a), SplitRpm(b)) }

  method CompareRPM(a: string, b: string) returns (r: int)
    ensures r == RpmOrder(a, b)
  {
    var p, q := SplitRpm(a), SplitRpm(b);
    r := CompareInt(p.epoch, q.epoch);
    if r != 0 {
      return;
    }
    r := RpmVerCmp(p.version, q.version);
    if r != 0 {
      return;
    }
    if p.release == "" || q.release == "" {
      return 0;
    }
    r := RpmVerCmp(p.release, q.release);
  }

  /** Of two versions written out in full the larger epoch wins, then the version that is
      above, then the release, unless one of them has none. */
  lemma PartsDecide(e: string, v: string, r: string, f: string, w: string, q: string)
    requires IsDecimal(e) && IsDecimal(f) && ':' !in e && ':' !in f && '-' !in r && '-' !in q
    requires Trimmed(e + ":" + v + "-" + r) && Trimmed(f + ":" + w + "-" + q)
    ensures RpmOrder(e + ":" + v + "-" + r, f + ":" + w + "-" + q) ==
            if DecimalValue(e) < DecimalValue(f) then -1
            else if DecimalValue(e) > DecimalValue(f) then 1
            else if Rpm(v, w) != 0 then Rpm(v, w)
            else if r == "" || q == "" then 0 else Rpm(r, q)
  {
    hide SplitRpm;
    hide CompareInt;
    hide Rpm;
    hide DecimalValue;
    hide IsDecimal;
    PartsAreFound(e, v, r);
    PartsAreFound(f, w, q);
    NoEpochIsDecimal(e);
    NoEpochIsDecimal(f);
    var c, d := if e == "" || e == "(none)" then "0" else e, if f == "" || f == "(none)" then "0" else f;
    CompareIntIsByValue(c, d);
  }

  lemma NoEpochIsDecimal(e: string)
    requires IsDecimal(e)
    ensures var c := if e == "" || e == "(none)" then "0" else e;
            IsDecimal(c) && DecimalValue(c) == DecimalValue(e)
  {
    if e == "" {
      LeadingZero("");
      assert ['0'] + "" == "0";
    }
    NoneIsNotDecimal();
  }

  lemma NoneIsNotDecimal()
    ensures !IsDecimal("(none)")
  {
    TrimmedIsKept("(none)");
  }

  predicate HasDecimalEpoch(v: string) { IsDecimal(SplitRpm(v).epoch) }

  predicate HasRelease(v: string) { HasDecimalEpoch(v) && SplitRpm(v).release != "" }

  datatype Key = Key(epoch: int, version: seq<Token>, release: Option<seq<Token>>)

  ghost function PartsKey(p: Parts): Key
    requires IsDecimal(p.epoch)
  {
    Key(DecimalValue(p.epoch), Tokens(p.version), if p.release == "" then None else Some(Tokens(p.release)))
  }

  ghost function KeyOf(v: string): Key
    requires HasDecimalEpoch(v)
  {
    PartsKey(SplitRpm(v))
  }

  ghost function CompareReleases(x: Option<seq<Token>>, y: Option<seq<Token>>): int {
    if x.None? || y.None? then 0 else CompareLists(x.value, y.value)
  }

  ghost function CompareKeys(x: Key, y: Key): int {
    if x.epoch != y.epoch then CompareInts(x.epoch, y.epoch)
    else
      var v := CompareLists(x.version, y.version);
      if v != 0 then v else CompareReleases(x.release, y.release)
  }

  lemma PartsCompareKeys(p: Parts, q: Parts)
    requires IsDecimal(p.epoch) && IsDecimal(q.epoch)
    ensures CompareParts(p, q) == CompareKeys(PartsKey(p), PartsKey(q))
  {
    hide CompareInt;
    hide CompareLists;
    hide DecimalValue;
    hide IsDecimal;
    hide Tokens;
    CompareIntIsByValue(p.epoch, q.epoch);
  }

  lemma RpmComparesKeys(a: string, b: string)
    requires HasDecimalEpoch(a) && HasDecimalEpoch(b)
    ensures RpmOrder(a, b) == CompareKeys(KeyOf(a), KeyOf(b))
  {
    PartsCompareKeys(SplitRpm(a), SplitRpm(b));
  }

  lemma KeysFlip(x: Key, y: Key)
    ensures CompareKeys(x, y) == -CompareKeys(y, x)
  {
    ListsFlip(x.version, y.version);
    if x.release.Some? && y.release.Some? { ListsFlip(x.release.value, y.release.value); }
  }

  lemma KeysTransitive(x: Key, y: Key, z: Key)
    requires x.release.Some? && y.release.Some? && z.release.Some?
    requires CompareKeys(x, y) <= 0 && CompareKeys(y, z) <= 0
    ensures CompareKeys(x, z) <= 0
  {
    if x.epoch == y.epoch == z.epoch {
      ListsTransitive(x.version, y.version, z.version);
      if CompareLists(x.version, z.version) == 0 {
        ListsTransitive(x.release.value, y.release.value, z.release.value);
      }
    }
  }

  /** CompareRPM is a total preorder on the versions that carry a release. */
  lemma RpmOrderIsPreorder()
    ensures PreorderOn(RpmOrder, HasRelease)
  {
    forall a, b | HasRelease(a) && HasRelease(b) ensures RpmOrder(a, b) == -RpmOrder(b, a) {
      RpmComparesKeys(a, b);
      RpmComparesKeys(b, a);
      KeysFlip(KeyOf(a), KeyOf(b));
    }
    forall a, b, c | HasRelease(a) && HasRelease(b) && HasRelease(c) && RpmOrder(a, b) <= 0 && RpmOrder(b, c) <= 0
      ensures RpmOrder(a, c) <= 0
    {
      RpmComparesKeys(a, b);
      RpmComparesKeys(b, c);
      RpmComparesKeys(a, c);
      KeysTransitive(KeyOf(a), KeyOf(b), KeyOf(c));
    }
  }

  lemma KeysStrictlyTransitive(x: Key, y: Key, z: Key)
    requires CompareKeys(x, y) < 0 && CompareKeys(y, z) < 0
    ensures CompareKeys(x, z) < 0
  {
    if x.epoch == y.epoch == z.epoch {
      ListsTransitive(x.version, y.version, z.version);
      if CompareLists(x.version, z.version) == 0 {
        ListsTransitive(x.release.value, y.release.value, z.release.value);
      }
    }
  }

  /** With or without releases, "strictly below" is transitive. */
  lemma StrictlyBelowIsTransitive(a: string, b: string, c: string)
    requires HasDecimalEpoch(a) && HasDecimalEpoch(b) && HasDecimalEpoch(c)
    requires RpmOrder(a, b) < 0 && RpmOrder(b, c) < 0
    ensures RpmOrder(a, c) < 0
  {
    RpmComparesKeys(a, b);
    RpmComparesKeys(b, c);
    RpmComparesKeys(a, c);
    KeysStrictlyTransitive(KeyOf(a), KeyOf(b), KeyOf(c));
  }

  /** Epoch and version alone. */
  ghost function BaseOrder(a: string, b: string): int {
    var p, q := SplitRpm(a), SplitRpm(b);
    CompareParts(p.(release := ""), q.(release := ""))
  }

  predicate LacksRelease(v: string) { HasDecimalEpoch(v) && SplitRpm(v).release == "" }

  /** A release can only refine the order of epoch and version. */
  lemma BaseIsRefined(a: string, b: string)
    ensures BaseOrder(a, b) != 0 ==> RpmOrder(a, b) == BaseOrder(a, b)
    ensures LacksRelease(a) || LacksRelease(b) ==> RpmOrder(a, b) == BaseOrder(a, b)
  {
    hide CompareInt;
    hide Rpm;
    hide SplitRpm;
  }

  lemma BaseFlips(a: string, b: string)
    requires HasDecimalEpoch(a) && HasDecimalEpoch(b)
    ensures BaseOrder(a, b) == -BaseOrder(b, a)
  {
    var p, q := SplitRpm(a).(release := ""), SplitRpm(b).(release := "");
    PartsCompareKeys(p, q);
    PartsCompareKeys(q, p);
    KeysFlip(PartsKey(p), PartsKey(q));
  }

  lemma BaseTransitive(a: string, b: string, c: string)
    requires HasDecimalEpoch(a) && HasDecimalEpoch(b) && HasDecimalEpoch(c)
    requires BaseOrder(a, b) <= 0 && BaseOrder(b, c) <= 0
    ensures BaseOrder(a, c) <= 0
  {
    var p, q, r := SplitRpm(a).(release := ""), SplitRpm(b).(release := ""), SplitRpm(c).(release := "");
    PartsCompareKeys(p, q);
    PartsCompareKeys(q, r);
    PartsCompareKeys(p, r);
    BareKeysTransitive(PartsKey(p), PartsKey(q), PartsKey(r));
  }

  lemma BareKeysTransitive(x: Key, y: Key, z: Key)
    requires x.release.None? && y.release.None? && z.release.None?
    requires CompareKeys(x, y) <= 0 && CompareKeys(y, z) <= 0
    ensures CompareKeys(x, z) <= 0
  {
    if x.epoch == y.epoch == z.epoch { ListsTransitive(x.version, y.version, z.version); }
  }

  /** Without releases the order is total, on every version with a decimal epoch. */
  lemma BaseIsPreorder()
    ensures PreorderOn(BaseOrder, HasDecimalEpoch)
  {
    hide BaseOrder;
    hide HasDecimalEpoch;
    forall a, b | HasDecimalEpoch(a) && HasDecimalEpoch(b) ensures BaseOrder(a, b) == -BaseOrder(b, a) {
      BaseFlips(a, b);
    }
    forall a, b, c | HasDecimalEpoch(a) && HasDecimalEpoch(b) && HasDecimalEpoch(c) &&
        BaseOrder(a, b) <= 0 && BaseOrder(b, c) <= 0
      ensures BaseOrder(a, c) <= 0
    {
      BaseTransitive(a, b, c);
    }
  }

  lemma ListsTie(xs: seq<Token>, ys: seq<Token>, zs: seq<Token>)
    requires CompareLists(xs, ys) == 0 && CompareLists(ys, zs) == 0
    ensures CompareLists(xs, zs) == 0
  {
    ListsFlip(xs, ys);
    ListsFlip(ys, zs);
    ListsFlip(xs, zs);
    ListsTransitive(xs, ys, zs);
    ListsTransitive(zs, ys, xs);
  }

  lemma KeysTie(x: Key, y: Key, z: Key)
    requires CompareKeys(x, y) == 0 && CompareKeys(y, z) == 0
    ensures CompareKeys(x, z) == 0 <==> y.release.Some? || CompareReleases(x.release, z.release) == 0
  {
    ListsTie(x.version, y.version, z.version);
    if x.release.Some? && y.release.Some? && z.release.Some? {
      ListsTie(x.release.value, y.release.value, z.release.value);
    }
  }

  lemma PartsTie(p: Parts, q: Parts, r: Parts)
    requires IsDecimal(p.epoch) && IsDecimal(q.epoch) && IsDecimal(r.epoch)
    requires CompareParts(p, q) == 0 && CompareParts(q, r) == 0
    ensures CompareParts(p, r) == 0 <==>
            q.release != "" || p.release == "" || r.release == "" || Rpm(p.release, r.release) == 0
  {
    hide CompareParts;
    hide CompareKeys;
    hide CompareLists;
    PartsCompareKeys(p, q);
    PartsCompareKeys(q, r);
    PartsCompareKeys(p, r);
    KeysTie(PartsKey(p), PartsKey(q), PartsKey(r));
  }

  /** A tie passes through `b` exactly when `b` carries a release, or there was nothing
      for one to tell apart. */
  lemma TieIsTransitiveExactlyWhen(a: string, b: string, c: string)
    requires HasDecimalEpoch(a) && HasDecimalEpoch(b) && HasDecimalEpoch(c)
    requires RpmOrder(a, b) == 0 && RpmOrder(b, c) == 0
    ensures var p, q, r := SplitRpm(a).release, SplitRpm(b).release, SplitRpm(c).release;
            RpmOrder(a, c) == 0 <==> q != "" || p == "" || r == "" || Rpm(p, r) == 0
  {
    PartsTie(SplitRpm(a), SplitRpm(b), SplitRpm(c));
  }

  /** 1-1 ties with 1, 1 ties with 1-2, and 1-1 is below 1-2. */
  lemma TieIsNotTransitive(a: string, b: string, c: string)
    requires a == "1-1" && b == "1" && c == "1-2"
    ensures RpmOrder(a, b) == 0 && RpmOrder(b, c) == 0 && RpmOrder(a, c) == -1
  {
    OneDigitReleases(a, b, c, "1", "1", "2");
  }

  /** Two releases of one version compare by their digits, and both tie with the version. */
  lemma OneDigitReleases(a: string, b: string, c: string, version: string, release: string, other: string)
    requires |version| == |release| == |other| == 1
    requires IsDigit(version[0]) && IsDigit(release[0]) && IsDigit(other[0])
    requires a == version + "-" + release && b == version && c == version + "-" + other
    ensures RpmOrder(a, b) == RpmOrder(b, a) == RpmOrder(b, c) == RpmOrder(c, b) == 0
    ensures RpmOrder(a, c) == CompareInts(release[0] as int, other[0] as int)
  {
    hide SplitRpm;
    SplitOf(a, version, release);
    SplitOf(c, version, other);
    BareVersion(b);
    ReleaseDecides(version, release, other);
    ReleaseDecides(version, other, release);
  }

  lemma SplitOf(s: string, version: string, release: string)
    requires |version| == |release| == 1 && IsDigit(version[0]) && IsDigit(release[0])
    requires s == version + "-" + release
    ensures SplitRpm(s) == Parts("0", version, release)
  {
    hide TrimSpace;
    hide Index;
    hide LastIndex;
    TrimmedIsKept(s);
    assert s[0] == version[0] && s[1] == '-' && s[2] == release[0];
    assert ':' !in s && s[0..] == s;
    CutAtLast(s, version, '-', release);
  }

  lemma BareVersion(s: string)
    requires |s| == 1 && IsDigit(s[0])
    ensures SplitRpm(s) == Parts("0", s, "")
  {
    TrimmedIsKept(s);
    assert ':' !in s && '-' !in s;
    assert s[0..] == s;
  }

  lemma OneDigit(s: string)
    requires |s| == 1 && IsDigit(s[0])
    ensures Tokens(s) == [Number(Digit(s[0]))]
  {
    assert DigitRun(s) == 1 && s[..1] == s && s[1..] == [] && s[..0] == [];
    assert Value(s) == Digit(s[0]);
  }

  lemma OneDigitEach(x: string, y: string)
    requires |x| == |y| == 1 && IsDigit(x[0]) && IsDigit(y[0])
    ensures Rpm(x, y) == CompareInts(x[0] as int, y[0] as int)
  {
    OneDigit(x);
    OneDigit(y);
    var xs, ys := Tokens(x), Tokens(y);
    assert Head(xs, End) == Number(Digit(x[0])) && Head(ys, End) == Number(Digit(y[0]));
    assert Tail(xs) == [] && Tail(ys) == [];
    assert LexCmp(CompareTokens, End, Tail(xs), Tail(ys)) == 0;
  }

  lemma ReleaseDecides(version: string, release: string, other: string)
    requires |release| == |other| == 1 && IsDigit(release[0]) && IsDigit(other[0])
    ensures CompareParts(Parts("0", version, release), Parts("0", version, "")) == 0
    ensures CompareParts(Parts("0", version, ""), Parts("0", version, other)) == 0
    ensures CompareParts(Parts("0", version, release), Parts("0", version, other)) ==
            CompareInts(release[0] as int, other[0] as int)
  {
    ListsReflexive(Tokens(version));
    OneDigitEach(release, other);
    ZeroIsZero("0");
  }

  lemma ZeroIsZero(s: string)
    ensures CompareInt(s, s) == 0
  {}
}
