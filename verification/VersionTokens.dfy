/**
 What the rpm and the fallback ordering of app/pkgmgr/version.go read a version as, and how
 two tokens compare: numbers by value, words by bytes, and all else by the rank its kind
 has in the ordering at hand.
 */
module VersionTokens {
  import opened Text
  import opened Ordering
  import opened Decimal

  /** `End` is what follows the last token. Only rpm knows a `Caret`. */
  datatype Token = Tilde | End | Caret | Number(value: nat) | Word(letters: string)

  type Ranking = Token -> int

  predicate SameKind(s: Token, t: Token) {
    if s.Number? || s.Word? then s.Number? == t.Number? && s.Word? == t.Word? else s == t
  }

  /** Every kind has a rank of its own. */
  ghost predicate RanksKinds(rank: Ranking) { forall s, t :: rank(s) == rank(t) <==> SameKind(s, t) }

  /** Two tokens, with the ranks of their kinds. */
  ghost function CompareRanked(m: int, s: Token, n: int, t: Token): int {
    match (s, t)
    case (Word(x), Word(y)) => CompareStrings(x, y)
    case (Number(x), Number(y)) => CompareInts(x, y)
    case _ => CompareInts(m, n)
  }

  ghost function CompareBy(rank: Ranking, s: Token, t: Token): int { CompareRanked(rank(s), s, rank(t), t) }

  lemma KindsAndValuesArePreordered(rank: Ranking)
    requires RanksKinds(rank)
    ensures forall s, t :: CompareBy(rank, s, t) == -CompareBy(rank, t, s)
    ensures forall s, t, u :: CompareBy(rank, s, t) <= 0 && CompareBy(rank, t, u) <= 0 ==> CompareBy(rank, s, u) <= 0
  {
    forall s, t ensures CompareBy(rank, s, t) == -CompareBy(rank, t, s) {
      if s.Word? && t.Word? { CompareStringsFlips(s.letters, t.letters); }
    }
    forall s, t, u | CompareBy(rank, s, t) <= 0 && CompareBy(rank, t, u) <= 0 ensures CompareBy(rank, s, u) <= 0 {
      assert SameKind(s, t) <==> rank(s) == rank(t);
      assert SameKind(t, u) <==> rank(t) == rank(u);
      assert SameKind(s, u) <==> rank(s) == rank(u);
      if s.Word? && t.Word? && u.Word? { CompareStringsTransitive(s.letters, t.letters, u.letters); }
    }
  }

  /** The length of the run of digits or letters that `s` starts with; 1 for any other
      character. */
  function FirstRun(s: string): (n: nat)
    requires s != ""
    ensures 0 < n <= |s|
  {
    if IsDigit(s[0]) then DigitRun(s) else if IsLetter(s[0]) then LetterRun(s) else 1
  }

  /** What is appended leaves the first run alone, unless it continues it. */
  lemma FirstRunOfJoin(u: string, v: string)
    requires u != "" && BreaksRuns(u, v)
    ensures var w, n := u + v, FirstRun(u);
            w[0] == u[0] && FirstRun(w) == n && w[..n] == u[..n] && w[n..] == u[n..] + v && BreaksRuns(u[n..], v)
  {
    var n := FirstRun(u);
    assert u[..n][n - 1] == u[n - 1];
    JoinSlices(u, v, n);
    if IsDigit(u[0]) { DigitRunIs(u + v, n); }
    if IsLetter(u[0]) { LetterRunIs(u + v, n); }
  }
}
