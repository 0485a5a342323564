/**
 The fallback version ordering of app/pkgmgr/version.go: alternating runs of digits
 and letters, position by position, with '~' < nothing < numbers < words.
 */
module GenericVersion {
  import opened Text
  import opened Ordering
  import opened Decimal
  import opened VersionTokens

  /** No segment is a caret. */
  ghost function Rank(t: Token): int {
    match t
    case Tilde => 0
    case End => 1
    case Number(_) => 2
    case Word(_) => 3
    case Caret => 4
  }

  ghost function CompareTokens(s: Token, t: Token): int { CompareRanked(Rank(s), s, Rank(t), t) }

  lemma TokensArePreordered()
    ensures Preorder(CompareTokens)
  {
    KindsAndValuesArePreordered(Rank);
    assert forall s, t :: CompareTokens(s, t) == CompareBy(Rank, s, t);
  }

  // ------------------------------------------------------------ versionSegments

  predicate IsWord(s: string) { s != [] && AllLetters(s) }

  predicate IsSegment(s: string) { s == "~" || IsNumeric(s) || IsWord(s) }

  lemma FirstRunIsSegment(v: string)
    requires v != [] && (IsDigit(v[0]) || IsLetter(v[0]))
    ensures IsSegment(v[..FirstRun(v)])
  {}

  function Segments(v: string): (r: seq<string>)
    ensures forall k :: 0 <= k < |r| ==> IsSegment(r[k])
    decreases |v|
  {
    if v == [] then []
    else if v[0] == '~' then ["~"] + Segments(v[1..])
    else if IsDigit(v[0]) || IsLetter(v[0]) then
      FirstRunIsSegment(v);
      [v[..FirstRun(v)]] + Segments(v[FirstRun(v)..])
    else Segments(v[1..])
  }

  /** What is written so far is a run of one kind, or nothing. */
  predicate IsRun(cur: string, digits: bool) {
    if digits then AllDigits(cur) else AllLetters(cur)
  }

  predicate Extends(c: char, digits: bool) { if digits then IsDigit(c) else IsLetter(c) }

  /** A finished run is a segment of its own. */
  lemma RunIsSegment(cur: string, digits: bool, rest: string)
    requires cur != [] && IsRun(cur, digits) && (rest != [] ==> !Extends(rest[0], digits))
    ensures Segments(cur + rest) == [cur] + Segments(rest)
  {
    var v := cur + rest;
    assert v[0] == cur[0] && v[..|cur|] == cur && v[|cur|..] == rest;
    if digits { DigitRunIs(v, |cur|); } else { LetterRunIs(v, |cur|); }
  }

  method Flush(out: seq<string>, cur: string, ghost digits: bool, ghost rest: string) returns (r: seq<string>)
    requires IsRun(cur, digits) && (cur != [] && rest != [] ==> !Extends(rest[0], digits))
    ensures r + Segments(rest) == out + Segments(cur + rest)
  {
    if |cur| > 0 {
      RunIsSegment(cur, digits, rest);
      assert out + ([cur] + Segments(rest)) == (out + [cur]) + Segments(rest);
      return out + [cur];
    }
    assert cur + rest == rest;
    return out;
  }

  /** One character: it ends the run, starts a new one, or extends it. */
  method WriteChar(c: char, out: seq<string>, cur: string, curDigit: bool, ghost rest: string)
    returns (out': seq<string>, cur': string, curDigit': bool)
    requires IsRun(cur, curDigit)
    ensures IsRun(cur', curDigit')
    ensures out' + Segments(cur' + rest) == out + Segments(cur + ([c] + rest))
  {
    hide Segments;
    hide FirstSegment;
    hide FirstRun;
    out', cur', curDigit' := out, cur, curDigit;
    ghost var line := [c] + rest;
    if c == '~' {
      out' := Flush(out, cur, curDigit, line);
      TildeIsSegment(rest);
      assert out' + (["~"] + Segments(rest)) == (out' + ["~"]) + Segments(rest);
      out', cur' := out' + ["~"], "";
      assert cur' + rest == rest;
    } else if IsDigit(c) || IsLetter(c) {
      if |cur| > 0 && curDigit != IsDigit(c) {
        out' := Flush(out, cur, curDigit, line);
        cur' := "";
        assert "" + line == line;
      }
      assert cur' + line == (cur' + [c]) + rest;
      curDigit', cur' := IsDigit(c), cur' + [c];
    } else {
      out' := Flush(out, cur, curDigit, line);
      SeparatorsVanish(c, rest);
      cur' := "";
      assert cur' + rest == rest;
    }
  }

  lemma TildeIsSegment(rest: string)
    ensures Segments(['~'] + rest) == ["~"] + Segments(rest)
  {
    assert (['~'] + rest)[1..] == rest;
  }

  lemma SeparatorsVanish(c: char, rest: string)
    requires c != '~' && !IsDigit(c) && !IsLetter(c)
    ensures Segments([c] + rest) == Segments(rest)
  {
    assert ([c] + rest)[1..] == rest;
  }

  method VersionSegments(v: string) returns (out: seq<string>)
    ensures out == Segments(v)
  {
    hide Segments;
    out := [];
    var cur, curDigit := "", false;
    ghost var goal := Segments(v);
    assert "" + v[0..] == v && [] + goal == goal;
    for i := 0 to |v|
      invariant IsRun(cur, curDigit)
      invariant out + Segments(cur + v[i..]) == goal
    {
      assert v[i..] == [v[i]] + v[i + 1..];
      out, cur, curDigit := WriteChar(v[i], out, cur, curDigit, v[i + 1..]);
    }
    assert v[|v|..] == [] && cur + [] == cur;
    out := Flush(out, cur, curDigit, []);
    NoSegments();
    assert out + [] == out;
  }

  lemma NoSegments()
    ensures Segments("") == []
  {}

  // ------------------------------------------------------------- CompareGeneric

  ghost function Classify(s: string): Token
    requires s == "" || IsSegment(s)
  {
    if s == "" then End
    else if s == "~" then Tilde
    else if IsNumeric(s) then Number(Value(s))
    else Word(s)
  }

  ghost function Tokens(segments: seq<string>): seq<Token>
    requires forall k :: 0 <= k < |segments| ==> IsSegment(segments[k])
  {
    seq(|segments|, k requires 0 <= k < |segments| => Classify(segments[k]))
  }

  ghost function Generic(a: string, b: string): int {
    LexCmp(CompareTokens, End, Tokens(Segments(a)), Tokens(Segments(b)))
  }

  /** One position: -1, 0 or 1, where 0 lets the next position decide. */
  method CompareSegment(x: string, y: string) returns (c: int)
    requires x == "" || IsSegment(x)
    requires y == "" || IsSegment(y)
    ensures c == CompareTokens(Classify(x), Classify(y))
  {
    if x == y {
      return 0;
    }
    if x == "~" || y == "~" {
      return if x == "~" then -1 else 1;
    }
    if IsNumeric(x) && IsNumeric(y) {
      NumericIsDecimal(x);
      NumericIsDecimal(y);
      CompareIntIsByValue(x, y);
      return CompareInt(x, y);
    }
    if x == "" {
      return -1;
    }
    if y == "" {
      return 1;
    }
    return Sign(CompareStrings(x, y));
  }

  lemma NumericIsDecimal(s: string)
    requires IsNumeric(s)
    ensures IsDecimal(s) && DecimalValue(s) == Value(s)
  {}

  function SegmentAt(segments: seq<string>, k: nat): string { if k < |segments| then segments[k] else "" }

  /** From position `k` on, the padded lists compare by their heads first. */
  lemma PositionDecides(xs: seq<string>, ys: seq<string>, k: nat)
    requires forall i :: 0 <= i < |xs| ==> IsSegment(xs[i])
    requires forall i :: 0 <= i < |ys| ==> IsSegment(ys[i])
    ensures LexCmp(CompareTokens, End, From(xs, k), From(ys, k)) ==
            var c := CompareTokens(Classify(SegmentAt(xs, k)), Classify(SegmentAt(ys, k)));
            if c != 0 then c else LexCmp(CompareTokens, End, From(xs, k + 1), From(ys, k + 1))
  {}

  ghost function From(segments: seq<string>, k: nat): seq<Token>
    requires forall i :: 0 <= i < |segments| ==> IsSegment(segments[i])
  {
    if k < |segments| then Tokens(segments)[k..] else []
  }

  method CompareGeneric(a: string, b: string) returns (r: int)
    ensures r == Generic(a, b)
  {
    var as_ := VersionSegments(a);
    var bs := VersionSegments(b);
    var n := if |bs| > |as_| then |bs| else |as_|;
    ghost var goal := LexCmp(CompareTokens, End, From(as_, 0), From(bs, 0));
    assert From(as_, 0) == Tokens(as_) && From(bs, 0) == Tokens(bs);
    for k := 0 to n
      invariant LexCmp(CompareTokens, End, From(as_, k), From(bs, k)) == goal
    {
      PositionDecides(as_, bs, k);
      var c := CompareSegment(SegmentAt(as_, k), SegmentAt(bs, k));
      if c != 0 {
        return c;
      }
    }
    return 0;
  }

  /** CompareGeneric is a total preorder on every string. */
  lemma GenericIsPreorder()
    ensures PreorderOn(Generic, (s: string) => true)
  {
    TokensArePreordered();
    forall a, b ensures Generic(a, b) == -Generic(b, a) {
      LexFlips(CompareTokens, End, Tokens(Segments(a)), Tokens(Segments(b)));
    }
    forall a, b, c | Generic(a, b) <= 0 && Generic(b, c) <= 0 ensures Generic(a, c) <= 0 {
      LexTransitive(CompareTokens, End, Tokens(Segments(a)), Tokens(Segments(b)), Tokens(Segments(c)));
    }
  }

  /** What is appended adds its own segments, unless it continues a run. */
  lemma {:induction false} SegmentsOfJoin(u: string, v: string)
    requires BreaksRuns(u, v)
    ensures Segments(u + v) == Segments(u) + Segments(v)
    decreases |u|
  {
    hide Segments;
    hide FirstRun;
    hide FirstSegment;
    hide BreaksRuns;
    hide IsSegment;
    var w := u + v;
    if u == "" {
      assert w == v;
      NoSegments();
    } else {
      FirstRunOfJoin(u, v);
      FirstSegmentOfJoin(u, v);
      SegmentsStep(u);
      SegmentsStep(w);
      var first, rest := FirstSegment(u), u[FirstRun(u)..];
      SegmentsOfJoin(rest, v);
      assert first + (Segments(rest) + Segments(v)) == (first + Segments(rest)) + Segments(v);
    }
  }

  lemma FirstSegmentOfJoin(u: string, v: string)
    requires u != "" && BreaksRuns(u, v)
    ensures FirstSegment(u + v) == FirstSegment(u)
  {
    hide FirstRun;
    FirstRunOfJoin(u, v);
  }

  /** A common beginning does not matter. */
  lemma CommonBeginning(u: string, v: string, w: string)
    requires BreaksRuns(u, v) && BreaksRuns(u, w)
    ensures Generic(u + v, u + w) == Generic(v, w)
  {
    hide Segments;
    SegmentsOfJoin(u, v);
    SegmentsOfJoin(u, w);
    var p, q, r := Tokens(Segments(u)), Tokens(Segments(v)), Tokens(Segments(w));
    assert Tokens(Segments(u + v)) == p + q && Tokens(Segments(u + w)) == p + r;
    TokensArePreordered();
    LexCommonPrefix(CompareTokens, End, p, q, r);
  }

  /** '~' puts a version below the same version without what follows. */
  lemma TildeIsBelow(u: string, s: string)
    ensures Generic(u + "~" + s, u) == -1
  {
    var v := "~" + s;
    assert u + v == u + "~" + s && u + "" == u;
    CommonBeginning(u, v, "");
    FirstSegmentDecides(v);
  }

  /** A further number or word puts it above. */
  lemma LongerIsAbove(u: string, t: string)
    requires StartsRun(t)
    ensures Generic(u + "." + t, u) == 1
  {
    var w := "." + t;
    assert u + w == u + "." + t && u + "" == u && w[1..] == t;
    CommonBeginning(u, w, "");
    FirstSegmentDecides(t);
  }

  lemma FirstSegmentDecides(v: string)
    requires v != "" && (v[0] == '~' || StartsRun(v))
    ensures Generic(v, "") == if v[0] == '~' then -1 else 1
  {
    hide Segments;
    SegmentsStep(v);
    NoSegments();
    var xs := Tokens(Segments(v));
    assert xs != [] && xs[0] == Classify(FirstSegment(v)[0]);
  }

  /** What the first character, or the run it starts, is worth. */
  function FirstSegment(v: string): seq<string>
    requires v != []
  {
    if v[0] == '~' then ["~"] else if IsDigit(v[0]) || IsLetter(v[0]) then [v[..FirstRun(v)]] else []
  }

  lemma SegmentsStep(v: string)
    requires v != []
    ensures Segments(v) == FirstSegment(v) + Segments(v[FirstRun(v)..])
  {}

  // ---------------------------------------------- the same ordering, on the text itself

  /** Neither letter, digit nor '~' (126): it only parts the runs beside it. */
  predicate IsSeparatorCode(n: int) { !IsLowerCode(n) && !IsUpperCode(n) && !IsDigitCode(n) && n != 126 }

  /** Which separator it is does not matter, and where it parts no run it may as well be
      missing. */
  lemma SeparatorsDoNotMatter(u: string, c: char, d: char, t: string, w: string)
    requires IsSeparatorCode(c as int) && IsSeparatorCode(d as int)
    ensures Generic(u + [c] + t, w) == Generic(u + [d] + t, w) && Generic(w, u + [c] + t) == Generic(w, u + [d] + t)
    ensures BreaksRuns(u, t) ==> Generic(u + [c] + t, w) == Generic(u + t, w)
  {
    hide Segments;
    hide LexCmp;
    ClassesAre(c);
    ClassesAre(d);
    assert u + ([c] + t) == u + [c] + t && u + ([d] + t) == u + [d] + t;
    SegmentsOfJoin(u, [c] + t);
    SegmentsOfJoin(u, [d] + t);
    SeparatorsVanish(c, t);
    SeparatorsVanish(d, t);
    if BreaksRuns(u, t) { SegmentsOfJoin(u, t); }
  }

  /** A number or a word, and what does not continue it. */
  lemma RunFirst(x: string, s: string)
    requires IsNumeric(x) || IsWord(x)
    requires s != "" ==> !(IsDigit(x[0]) && IsDigit(s[0])) && !(IsLetter(x[0]) && IsLetter(s[0]))
    ensures Tokens(Segments(x + s)) == [Classify(x)] + Tokens(Segments(s))
  {
    hide Segments;
    RunIsSegment(x, IsNumeric(x), s);
  }

  lemma HeadsDecide(t: Token, xs: seq<Token>, u: Token, ys: seq<Token>)
    ensures LexCmp(CompareTokens, End, [t] + xs, [u] + ys) ==
            if CompareTokens(t, u) != 0 then CompareTokens(t, u) else LexCmp(CompareTokens, End, xs, ys)
  {}

  /** Two runs at the same place compare as the tokens they are. */
  lemma RunsDecide(u: string, x: string, s: string, y: string, t: string)
    requires IsNumeric(x) || IsWord(x)
    requires IsNumeric(y) || IsWord(y)
    requires BreaksRuns(u, x) && BreaksRuns(u, y)
    requires s != "" ==> !(IsDigit(x[0]) && IsDigit(s[0])) && !(IsLetter(x[0]) && IsLetter(s[0]))
    requires t != "" ==> !(IsDigit(y[0]) && IsDigit(t[0])) && !(IsLetter(y[0]) && IsLetter(t[0]))
    ensures Generic(u + x + s, u + y + t) ==
            var c := CompareTokens(Classify(x), Classify(y)); if c != 0 then c else Generic(s, t)
  {
    hide Segments;
    hide LexCmp;
    hide Classify;
    hide CompareTokens;
    assert u + (x + s) == u + x + s && u + (y + t) == u + y + t;
    CommonBeginning(u, x + s, y + t);
    RunFirst(x, s);
    RunFirst(y, t);
    HeadsDecide(Classify(x), Tokens(Segments(s)), Classify(y), Tokens(Segments(t)));
  }

  /** Two numbers at the same place are ordered by value; leading zeros do not count. */
  lemma NumbersCompareByValue(u: string, x: string, s: string, y: string, t: string)
    requires IsNumeric(x) && IsNumeric(y) && (u != "" ==> !IsDigit(u[|u| - 1]))
    requires (s != "" ==> !IsDigit(s[0])) && (t != "" ==> !IsDigit(t[0]))
    ensures Generic(u + x + s, u + y + t) ==
            if Value(x) < Value(y) then -1 else if Value(x) > Value(y) then 1 else Generic(s, t)
  {
    hide Generic;
    hide Value;
    assert IsDigit(x[0]) && IsDigit(y[0]);
    RunsDecide(u, x, s, y, t);
    NumberIs(x);
    NumberIs(y);
  }

  /** Two words at the same place are ordered by their bytes. */
  lemma WordsCompareByBytes(u: string, x: string, s: string, y: string, t: string)
    requires IsWord(x) && IsWord(y) && (u != "" ==> !IsLetter(u[|u| - 1]))
    requires (s != "" ==> !IsLetter(s[0])) && (t != "" ==> !IsLetter(t[0]))
    ensures Generic(u + x + s, u + y + t) == if x != y then CompareStrings(x, y) else Generic(s, t)
  {
    hide Generic;
    hide CompareStrings;
    assert IsLetter(x[0]) && IsLetter(y[0]);
    RunsDecide(u, x, s, y, t);
    WordIs(x);
    WordIs(y);
  }

  /** A number is below a word at the same place. */
  lemma NumberIsBelowWord(u: string, x: string, s: string, y: string, t: string)
    requires IsNumeric(x) && IsWord(y) && BreaksRuns(u, x) && BreaksRuns(u, y)
    requires (s != "" ==> !IsDigit(s[0])) && (t != "" ==> !IsLetter(t[0]))
    ensures Generic(u + x + s, u + y + t) == -1 && Generic(u + y + t, u + x + s) == 1
  {
    hide Generic;
    hide Value;
    assert IsDigit(x[0]) && IsLetter(y[0]);
    RunsDecide(u, x, s, y, t);
    RunsDecide(u, y, t, x, s);
    NumberIs(x);
    WordIs(y);
  }

  lemma NumberIs(x: string)
    requires IsNumeric(x)
    ensures IsSegment(x) && Classify(x) == Number(Value(x))
  {
    assert IsDigit(x[0]);
  }

  lemma WordIs(x: string)
    requires IsWord(x)
    ensures IsSegment(x) && Classify(x) == Word(x)
  {
    assert IsLetter(x[0]);
  }
}
