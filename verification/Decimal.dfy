/**
 Decimal strings of any length and the numbers they write, which the version
 comparators compare without ever parsing.
 */
module Decimal {
  import opened Text
  import opened Ordering

  predicate AllDigits(s: string) { forall i | 0 <= i < |s| :: IsDigit(s[i]) }

  function Digit(c: char): int { c as int - '0' as int }

  /** The number a digit string writes; the empty string writes 0. */
  function Value(s: string): (n: nat)
    requires AllDigits(s)
  {
    if s == [] then 0 else 10 * Value(s[..|s| - 1]) + Digit(s[|s| - 1])
  }

  /** The length of the run of digits `s` starts with. */
  function DigitRun(s: string): (n: nat)
    ensures n <= |s| && AllDigits(s[..n])
    ensures n < |s| ==> !IsDigit(s[n])
  {
    if s == [] || !IsDigit(s[0]) then 0
    else
      var n := DigitRun(s[1..]) + 1;
      assert s[..n] == [s[0]] + s[1..][..n - 1];
      n
  }

  lemma DigitRunIs(s: string, n: nat)
    requires n <= |s| && AllDigits(s[..n]) && (n < |s| ==> !IsDigit(s[n]))
    ensures DigitRun(s) == n
  {
    var m := DigitRun(s);
    forall i | 0 <= i < n ensures IsDigit(s[i]) { assert s[..n][i] == s[i]; }
    forall i | 0 <= i < m ensures IsDigit(s[i]) { assert s[..m][i] == s[i]; }
  }

  /** `strings.TrimLeft(s, "0")`. */
  function TrimZeros(s: string): (r: string)
    ensures |r| <= |s|
    ensures r == [] || r[0] != '0'
  {
    if s == [] || s[0] != '0' then s else TrimZeros(s[1..])
  }

  /** Only zeros are cut, and only from the front. */
  lemma {:induction false} OnlyZerosAreCut(s: string)
    ensures var r := TrimZeros(s); r == s[|s| - |r|..] && forall i | 0 <= i < |s| - |r| :: s[i] == '0'
  {
    if s != [] && s[0] == '0' {
      OnlyZerosAreCut(s[1..]);
      assert s == [s[0]] + s[1..];
    }
  }

  lemma {:induction false} LeadingZero(s: string)
    requires AllDigits(s)
    ensures AllDigits(['0'] + s) && Value(['0'] + s) == Value(s)
  {
    if s == [] {
      assert (['0'] + s)[..0] == [];
    } else {
      LeadingZero(s[..|s| - 1]);
      assert (['0'] + s)[..|s|] == ['0'] + s[..|s| - 1];
    }
  }

  lemma {:induction false} TrimZerosKeepsValue(s: string)
    requires AllDigits(s)
    ensures AllDigits(TrimZeros(s)) && Value(TrimZeros(s)) == Value(s)
  {
    if s != [] && s[0] == '0' {
      TrimZerosKeepsValue(s[1..]);
      LeadingZero(s[1..]);
      assert s == ['0'] + s[1..];
    }
  }

  /** Numbers are written in base ten, from the digit with code 48 on. */
  lemma AppendDigit(s: string, c: char)
    requires AllDigits(s) && IsDigitCode(c as int)
    ensures AllDigits(s + [c]) && Value(s + [c]) == 10 * Value(s) + (c as int - 48)
    ensures Value("") == 0
  {
    ClassesAre(c);
    assert (s + [c])[..|s|] == s;
  }

  lemma {:induction false} NoLeadingZeroIsPositive(s: string)
    requires AllDigits(s) && s != [] && s[0] != '0'
    ensures Value(s) > 0
  {
    if |s| > 1 {
      NoLeadingZeroIsPositive(s[..|s| - 1]);
    }
  }

  /** Without leading zeros, the longer number is the larger one. */
  lemma {:induction false} LongerIsLarger(x: string, y: string)
    requires AllDigits(x) && AllDigits(y) && |x| > |y| && x[0] != '0'
    ensures Value(x) > Value(y)
  {
    if y == [] {
      NoLeadingZeroIsPositive(x);
    } else {
      LongerIsLarger(x[..|x| - 1], y[..|y| - 1]);
    }
  }

  /** At equal length, byte order is number order. */
  lemma {:induction false} SameLengthIsByteOrder(x: string, y: string)
    requires AllDigits(x) && AllDigits(y) && |x| == |y|
    ensures CompareStrings(x, y) == CompareInts(Value(x), Value(y))
  {
    if x != [] {
      var n := |x| - 1;
      SameLengthIsByteOrder(x[..n], y[..n]);
      assert x == x[..n] + [x[n]] && y == y[..n] + [y[n]];
      CompareStringsSnoc(x[..n], x[n], y[..n], y[n]);
    }
  }

  lemma {:induction false} CompareStringsSnoc(x: string, c: char, y: string, d: char)
    requires |x| == |y|
    ensures CompareStrings(x + [c], y + [d]) ==
            if CompareStrings(x, y) != 0 then CompareStrings(x, y) else CompareInts(c as int, d as int)
  {
    if x == [] {
      assert x + [c] == [c] && y + [d] == [d];
    } else {
      assert (x + [c])[1..] == x[1..] + [c] && (y + [d])[1..] == y[1..] + [d];
      CompareStringsSnoc(x[1..], c, y[1..], d);
    }
  }

  predicate IsNumeric(s: string) { s != [] && AllDigits(s) }

  /** The numbers compared by length, then by bytes, after their zeros are cut. */
  function CompareTrimmed(x: string, y: string): int {
    if |x| != |y| then (if |x| > |y| then 1 else -1) else CompareStrings(x, y)
  }

  lemma CompareTrimmedIsByValue(x: string, y: string)
    requires AllDigits(x) && AllDigits(y)
    ensures CompareTrimmed(TrimZeros(x), TrimZeros(y)) == CompareInts(Value(x), Value(y))
  {
    TrimZerosKeepsValue(x);
    TrimZerosKeepsValue(y);
    var p, q := TrimZeros(x), TrimZeros(y);
    if |p| > |q| {
      LongerIsLarger(p, q);
    } else if |p| < |q| {
      LongerIsLarger(q, p);
    } else {
      SameLengthIsByteOrder(p, q);
    }
  }

  // ----------------------------------------------------------------- compareInt

  function Significant(s: string): string { TrimZeros(TrimSpace(s)) }

  function CompareInt(a: string, b: string): int {
    CompareSignificant(Significant(a), Significant(b))
  }

  function CompareSignificant(x: string, y: string): int {
    if !IsNumeric(x) && x != "" then CompareStrings(x, y) else CompareTrimmed(x, y)
  }

  /** A decimal string, possibly surrounded by spaces; empty counts as 0. */
  predicate IsDecimal(s: string) { AllDigits(TrimSpace(s)) }

  ghost function DecimalValue(s: string): nat
    requires IsDecimal(s)
  {
    Value(TrimSpace(s))
  }

  lemma CompareIntIsByValue(a: string, b: string)
    requires IsDecimal(a) && IsDecimal(b)
    ensures CompareInt(a, b) == CompareInts(DecimalValue(a), DecimalValue(b))
  {
    TrimZerosKeepsValue(TrimSpace(a));
    CompareTrimmedIsByValue(TrimSpace(a), TrimSpace(b));
  }

  predicate LengthAgreesWithBytes(decimal: string, other: string) {
    |decimal| == |other| || (|decimal| > |other| <==> CompareStrings(decimal, other) > 0)
  }

  lemma {:induction false} TrimZerosIsDecimal(s: string)
    ensures AllDigits(TrimZeros(s)) <==> AllDigits(s)
  {
    if s != [] && s[0] == '0' {
      TrimZerosIsDecimal(s[1..]);
      assert s == [s[0]] + s[1..];
    }
  }

  lemma SignificantFlips(x: string, y: string)
    ensures CompareSignificant(x, y) == -CompareSignificant(y, x) <==>
            AllDigits(x) == AllDigits(y) || LengthAgreesWithBytes(x, y)
  {
    CompareStringsFlips(x, y);
  }

  /** compareInt flips with its arguments exactly when both or neither are decimal,
      or their lengths place them as their bytes do. */
  lemma CompareIntFlipsExactlyWhen(a: string, b: string)
    ensures CompareInt(a, b) == -CompareInt(b, a) <==>
            || IsDecimal(a) == IsDecimal(b)
            || LengthAgreesWithBytes(Significant(a), Significant(b))
  {
    TrimZerosIsDecimal(TrimSpace(a));
    TrimZerosIsDecimal(TrimSpace(b));
    SignificantFlips(Significant(a), Significant(b));
  }

  /** A number longer than a word that starts above it, such as 12 and x: each is
      above the other. */
  lemma CompareIntMayNotFlip(a: string, b: string)
    requires Trimmed(a) && IsNumeric(a) && a[0] != '0'
    requires Trimmed(b) && 0 < |b| < |a| && a[0] < b[0] && !IsDigit(b[0])
    ensures CompareInt(a, b) == 1 && CompareInt(b, a) == 1
  {
    TrimmedIsKept(a);
    TrimmedIsKept(b);
  }
}
