/**
 Folding the vulnerability feeds into one table: merger and sortAndFilter of
 app/vuln/collect.go.
 */
module Merger {
  import opened Text
  import opened Ordering

  datatype Severity = Critical | High | Unknown | Medium | Low | NoSeverity

  function Rank(s: Severity): int {
    match s
    case Critical => 5
    case High => 4
    case Unknown => 3
    case Medium => 2
    case Low => 1
    case NoSeverity => 0
  }

  datatype Vulnerability = Vulnerability(
    package: string,
    installed: string,
    fixedIn: string,
    severity: Severity,
    score: string,
    id: string,
    aliases: string,
    summary: string,
    ecosystem: string,
    source: string,
    reference: string)

  // ------------------------------------------------------------------------ keys

  function ToUpperChar(c: char): char { if 'a' <= c <= 'z' then (c as int - 32) as char else c }

  function ToUpper(s: string): (r: string)
    ensures |r| == |s|
  {
    seq(|s|, i requires 0 <= i < |s| => ToUpperChar(s[i]))
  }

  function KeyOf(package: string, id: string): string { ToLower(package) + "|" + ToUpper(id) }

  function Key(v: Vulnerability): string { KeyOf(v.package, v.id) }

  ghost predicate SameUpToCase(p: string, x: string, q: string, y: string) {
    ToLower(p) == ToLower(q) && ToUpper(x) == ToUpper(y)
  }

  /** Small letters (97 to 122) become the capitals 32 below them, all else stays. */
  lemma UpperIs(s: string, i: nat)
    requires i < |s|
    ensures ToUpper(s)[i] as int == if IsLowerCode(s[i] as int) then s[i] as int - 32 else s[i] as int
  {}

  /** Upper-casing tells apart what lower-casing tells apart. */
  lemma CasesAgree(x: string, y: string)
    ensures ToUpper(x) == ToUpper(y) <==> |x| == |y| && forall i :: 0 <= i < |x| ==> SameLetter(x[i] as int, y[i] as int)
    ensures ToUpper(x) == ToUpper(y) <==> EqualFold(x, y)
  {
    FoldIs(x, y);
    forall i | 0 <= i < |x| { UpperIs(x, i); }
    forall i | 0 <= i < |y| { UpperIs(y, i); }
    if ToUpper(x) == ToUpper(y) {
      assert |x| == |ToUpper(x)| == |ToUpper(y)| == |y|;
      forall i | 0 <= i < |x| ensures SameLetter(x[i] as int, y[i] as int) {
        assert ToUpper(x)[i] == ToUpper(y)[i];
      }
    } else if |x| == |y| {
      var i :| 0 <= i < |x| && ToUpper(x)[i] != ToUpper(y)[i];
      assert !SameLetter(x[i] as int, y[i] as int);
    }
  }

  /** Names of packages without a bar: the rows of one key are those whose package and whose
      identifier are equal up to case. */
  lemma SharedKeyIs(v: Vulnerability, w: Vulnerability)
    requires '|' !in v.package && '|' !in w.package
    ensures Key(v) == Key(w) <==> EqualFold(v.package, w.package) && EqualFold(v.id, w.id)
  {
    PlainNamesIdentify(v.package, v.id, w.package, w.id);
    CasesAgree(v.id, w.id);
  }

  /** The name `q` goes on with a bar and a text that the identifier `x` starts with. */
  ghost predicate BarIsMoved(p: string, x: string, q: string, y: string) {
    exists middle :: MovedBy(middle, p, x, q, y)
  }

  ghost predicate MovedBy(middle: string, p: string, x: string, q: string, y: string) {
    ToLower(q) == ToLower(p) + "|" + middle && ToUpper(x) == middle + "|" + ToUpper(y)
  }

  /** Two rows are folded together exactly when package and flaw are the same up to case,
      or a bar of one row's package stands in the other row's identifier. */
  lemma KeyIdentifies(p: string, x: string, q: string, y: string)
    ensures KeyOf(p, x) == KeyOf(q, y) <==>
            SameUpToCase(p, x, q, y) || BarIsMoved(p, x, q, y) || BarIsMoved(q, y, p, x)
  {
    var a, b := ToLower(p), ToLower(q);
    if KeyOf(p, x) == KeyOf(q, y) {
      if |a| < |b| {
        BarLiesInside(p, x, q, y);
      } else if |b| < |a| {
        BarLiesInside(q, y, p, x);
      } else {
        SplitAtBar(a, ToUpper(x), b, ToUpper(y));
      }
    }
    if BarIsMoved(p, x, q, y) { MovedBarCollides(p, x, q, y); }
    if BarIsMoved(q, y, p, x) { MovedBarCollides(q, y, p, x); }
  }

  lemma SplitAtBar(a: string, u: string, b: string, v: string)
    requires a + "|" + u == b + "|" + v && |a| == |b|
    ensures a == b && u == v
  {
    var k := a + "|" + u;
    assert k[..|a|] == a && k[|a| + 1..] == u && k[..|b|] == b && k[|b| + 1..] == v;
  }

  lemma BarLiesInside(p: string, x: string, q: string, y: string)
    requires KeyOf(p, x) == KeyOf(q, y) && |p| < |q|
    ensures BarIsMoved(p, x, q, y)
  {
    var k, m, n := KeyOf(p, x), |p|, |q|;
    var middle := k[m + 1..n];
    assert k[..m] == ToLower(p) && k[m] == '|' && k[m + 1..] == ToUpper(x);
    assert k[..n] == ToLower(q) && k[n] == '|' && k[n + 1..] == ToUpper(y);
    assert k[..n] == k[..m] + "|" + middle;
    assert k[m + 1..] == middle + "|" + k[n + 1..];
    assert MovedBy(middle, p, x, q, y);
  }

  lemma MovedBarCollides(p: string, x: string, q: string, y: string)
    requires BarIsMoved(p, x, q, y)
    ensures KeyOf(p, x) == KeyOf(q, y)
  {
    var middle :| MovedBy(middle, p, x, q, y);
    var a, v := ToLower(p), ToUpper(y);
    assert a + "|" + (middle + "|" + v) == (a + "|" + middle) + "|" + v;
  }

  /** Without a bar in a package name there is no other way to share a key. */
  lemma PlainNamesIdentify(p: string, x: string, q: string, y: string)
    requires '|' !in p && '|' !in q
    ensures KeyOf(p, x) == KeyOf(q, y) <==> SameUpToCase(p, x, q, y)
  {
    KeyIdentifies(p, x, q, y);
    LowerHasNoBar(p);
    LowerHasNoBar(q);
    forall middle ensures !MovedBy(middle, p, x, q, y) && !MovedBy(middle, q, y, p, x) {
      assert '|' in ToLower(p) + "|" + middle && '|' in ToLower(q) + "|" + middle;
    }
  }

  lemma LowerHasNoBar(s: string)
    requires '|' !in s
    ensures '|' !in ToLower(s)
  {}

  /** With a '|' in a package name, different flaws of different packages share a key. */
  lemma BarsCollide(p: string, middle: string, x: string)
    requires ToLower(middle) == middle && ToUpper(middle) == middle
    ensures KeyOf(p + "|" + middle, x) == KeyOf(p, middle + "|" + x)
  {}

  // ------------------------------------------------------------- folding two rows

  /** `strings.Contains`. */
  predicate ContainsText(s: string, part: string) { HasPrefix(s, part) || (s != "" && ContainsText(s[1..], part)) }

  function FillEmpty(value: string, other: string): string { if value == "" then other else value }

  /** What a row becomes when another of its key arrives. */
  function Absorb(e: Vulnerability, v: Vulnerability): Vulnerability {
    var adopt := e.severity == Unknown && v.severity != Unknown;
    e.(source := if ContainsText(e.source, v.source) then e.source else e.source + "+" + v.source,
       severity := if adopt then v.severity else e.severity,
       score := if adopt then v.score else e.score,
       fixedIn := FillEmpty(e.fixedIn, v.fixedIn),
       installed := FillEmpty(e.installed, v.installed),
       summary := FillEmpty(e.summary, v.summary),
       reference := FillEmpty(e.reference, v.reference),
       aliases := FillEmpty(e.aliases, v.aliases),
       ecosystem := FillEmpty(e.ecosystem, v.ecosystem))
  }

  function Merged(rows: seq<Vulnerability>): Vulnerability
    requires rows != []
  {
    if |rows| == 1 then rows[0] else Absorb(Merged(rows[..|rows| - 1]), rows[|rows| - 1])
  }

  // ------------------------------------------------------------ what add() groups

  /** The rows of one key, in the order they came. */
  function RowsOf(added: seq<Vulnerability>, key: string): seq<Vulnerability> {
    if added == [] then []
    else
      var v := added[|added| - 1];
      RowsOf(added[..|added| - 1], key) + if v.package != "" && Key(v) == key then [v] else []
  }

  /** The distinct keys, in the order they first came. */
  function KeysOf(added: seq<Vulnerability>): seq<string> {
    if added == [] then []
    else
      var v, keys := added[|added| - 1], KeysOf(added[..|added| - 1]);
      if v.package == "" || Key(v) in keys then keys else keys + [Key(v)]
  }

  lemma {:induction false} KeysAreDistinct(added: seq<Vulnerability>)
    ensures forall i, j :: 0 <= i < j < |KeysOf(added)| ==> KeysOf(added)[i] != KeysOf(added)[j]
    ensures forall k :: k in KeysOf(added) <==> RowsOf(added, k) != []
  {
    if added != [] {
      KeysAreDistinct(added[..|added| - 1]);
    }
  }

  /** The index holds the position of every key, and nothing else. */
  ghost predicate Locates(index: map<string, nat>, keys: seq<string>) {
    && (forall k :: k in index <==> k in keys)
    && (forall i :: 0 <= i < |keys| ==> keys[i] in index && index[keys[i]] == i)
  }

  ghost predicate Folds(items: seq<Vulnerability>, keys: seq<string>, added: seq<Vulnerability>) {
    |items| == |keys| && forall i :: 0 <= i < |keys| ==> IsFoldOf(items[i], RowsOf(added, keys[i]))
  }

  /** One item per key, in first-occurrence order, folded from the rows of its key. */
  ghost predicate Groups(index: map<string, nat>, items: seq<Vulnerability>, added: seq<Vulnerability>) {
    Locates(index, KeysOf(added)) && Folds(items, KeysOf(added), added)
  }

  ghost predicate IsFoldOf(item: Vulnerability, rows: seq<Vulnerability>) { rows != [] && item == Merged(rows) }

  lemma FoldOfMore(item: Vulnerability, rows: seq<Vulnerability>, v: Vulnerability)
    requires IsFoldOf(item, rows)
    ensures IsFoldOf(Absorb(item, v), rows + [v])
  {}

  lemma OtherRowsStay(added: seq<Vulnerability>, v: Vulnerability)
    ensures forall k :: v.package == "" || k != Key(v) ==> RowsOf(added + [v], k) == RowsOf(added, k)
  {}

  /** Only the rows of its own key change when a row is added. */
  lemma RowsAfter(added: seq<Vulnerability>, v: Vulnerability, k: string)
    ensures RowsOf(added + [v], k) == RowsOf(added, k) + if v.package != "" && Key(v) == k then [v] else []
    ensures KeysOf(added + [v]) == if v.package == "" || Key(v) in KeysOf(added) then KeysOf(added)
                                   else KeysOf(added) + [Key(v)]
  {}

  lemma NamelessIsIgnored(index: map<string, nat>, items: seq<Vulnerability>, added: seq<Vulnerability>, v: Vulnerability)
    requires Groups(index, items, added) && v.package == ""
    ensures Groups(index, items, added + [v])
  {
    RowsAfter(added, v, "");
    forall k ensures RowsOf(added + [v], k) == RowsOf(added, k) { RowsAfter(added, v, k); }
  }

  lemma LocatesOneMore(index: map<string, nat>, keys: seq<string>, key: string)
    requires Locates(index, keys) && key !in index
    ensures Locates(index[key := |keys|], keys + [key])
  {}

  lemma NewKeyIsAppended(index: map<string, nat>, items: seq<Vulnerability>, added: seq<Vulnerability>, v: Vulnerability)
    requires Groups(index, items, added) && v.package != "" && Key(v) !in index
    ensures Groups(index[Key(v) := |items|], items + [v], added + [v])
  {
    var keys, all := KeysOf(added), added + [v];
    KeysAreDistinct(added);
    RowsAfter(added, v, Key(v));
    LocatesOneMore(index, keys, Key(v));
    assert KeysOf(all) == keys + [Key(v)];
    NewItemFolds(items, keys, added, v);
  }

  lemma NewItemFolds(items: seq<Vulnerability>, keys: seq<string>, added: seq<Vulnerability>, v: Vulnerability)
    requires Folds(items, keys, added) && v.package != "" && Key(v) !in keys && RowsOf(added, Key(v)) == []
    ensures Folds(items + [v], keys + [Key(v)], added + [v])
  {
    hide RowsOf;
    hide Key;
    var all := added + [v];
    RowsAfter(added, v, Key(v));
    OtherRowsStay(added, v);
    assert RowsOf(all, Key(v)) == [v];
    forall i | 0 <= i < |keys| ensures IsFoldOf(items[i], RowsOf(all, keys[i])) {
      assert keys[i] in keys;
    }
  }

  lemma KnownKeyIsFolded(index: map<string, nat>, items: seq<Vulnerability>, added: seq<Vulnerability>, v: Vulnerability)
    requires Groups(index, items, added) && v.package != "" && Key(v) in index
    ensures var i := index[Key(v)];
            i < |items| && Groups(index, items[i := Absorb(items[i], v)], added + [v])
  {
    var keys, all := KeysOf(added), added + [v];
    KeysAreDistinct(added);
    RowsAfter(added, v, Key(v));
    OtherRowsStay(added, v);
    var j :| 0 <= j < |keys| && keys[j] == Key(v);
    FoldOfMore(items[j], RowsOf(added, Key(v)), v);
    var items' := items[j := Absorb(items[j], v)];
    forall i | 0 <= i < |keys| ensures IsFoldOf(items'[i], RowsOf(all, keys[i])) {
      if i != j { assert keys[i] != keys[j] && RowsOf(all, keys[i]) == RowsOf(added, keys[i]); }
    }
  }

  class MergeTable {
    var index: map<string, nat>
    var items: seq<Vulnerability>
    ghost var added: seq<Vulnerability>

    ghost predicate Valid()
      reads this
    {
      Groups(index, items, added)
    }

    constructor ()
      ensures Valid() && added == []
    {
      index, items, added := map[], [], [];
    }

    method Add(v: Vulnerability)
      requires Valid()
      modifies this
      ensures Valid() && added == old(added) + [v]
    {
      ghost var before := added;
      added := added + [v];
      if v.package == "" {
        NamelessIsIgnored(index, items, before, v);
        return;
      }
      var key := Key(v);
      if key !in index {
        NewKeyIsAppended(index, items, before, v);
        index := index[key := |items|];
        items := items + [v];
        return;
      }
      KnownKeyIsFolded(index, items, before, v);
      var i := index[key];
      items := items[i := Absorb(items[i], v)];
    }
  }

  // ------------------------------------------------------- what a merged row says

  function FirstGraded(rows: seq<Vulnerability>): (r: nat)
    ensures r <= |rows|
    ensures r < |rows| ==> rows[r].severity != Unknown
    ensures forall k :: 0 <= k < r ==> rows[k].severity == Unknown
  {
    if rows == [] || rows[0].severity != Unknown then 0 else 1 + FirstGraded(rows[1..])
  }

  lemma FirstGradedSnoc(rows: seq<Vulnerability>)
    requires rows != []
    ensures var n := |rows| - 1;
            var h := FirstGraded(rows[..n]);
            FirstGraded(rows) == if h < n then h else if rows[n].severity != Unknown then n else n + 1
  {
    hide FirstGraded;
    var n := |rows| - 1;
    var g, h := FirstGraded(rows), FirstGraded(rows[..n]);
    assert forall k :: 0 <= k < n ==> rows[..n][k] == rows[k];
    if h < n { assert rows[..n][h].severity != Unknown; }
  }

  /** The first row that grades the flaw decides the grade; failing that, the first. */
  lemma {:induction false} FirstGradeWins(rows: seq<Vulnerability>)
    requires rows != []
    ensures var g := FirstGraded(rows);
            var row := rows[if g < |rows| then g else 0];
            Merged(rows).severity == row.severity && Merged(rows).score == row.score
  {
    var n := |rows| - 1;
    if n > 0 {
      FirstGradeWins(rows[..n]);
      FirstGradedSnoc(rows);
    }
  }

  /** Package and identifier are those of the first row. */
  lemma {:induction false} FirstRowNames(rows: seq<Vulnerability>)
    requires rows != []
    ensures Merged(rows).package == rows[0].package && Merged(rows).id == rows[0].id
  {
    if |rows| > 1 { FirstRowNames(rows[..|rows| - 1]); }
  }

  /** The first value that is not empty, or "". */
  ghost predicate IsFirstFilled(value: string, rows: seq<Vulnerability>, field: Vulnerability -> string) {
    (value == "" && forall k :: 0 <= k < |rows| ==> field(rows[k]) == "") ||
    (value != "" && exists k :: IsFilledAt(value, rows, field, k))
  }

  ghost predicate IsFilledAt(value: string, rows: seq<Vulnerability>, field: Vulnerability -> string, k: int) {
    0 <= k < |rows| && field(rows[k]) == value && forall j :: 0 <= j < k ==> field(rows[j]) == ""
  }

  lemma FillExtends(value: string, rows: seq<Vulnerability>, field: Vulnerability -> string, v: Vulnerability)
    requires IsFirstFilled(value, rows, field)
    ensures IsFirstFilled(FillEmpty(value, field(v)), rows + [v], field)
  {
    var all := rows + [v];
    if value != "" {
      var k :| IsFilledAt(value, rows, field, k);
      assert IsFilledAt(value, all, field, k);
    } else if field(v) != "" {
      assert IsFilledAt(field(v), all, field, |rows|);
    }
  }

  /** The six columns that are filled in, never overwritten. */
  function FilledFields(): seq<Vulnerability -> string> {
    [(v: Vulnerability) => v.fixedIn, (v: Vulnerability) => v.installed, (v: Vulnerability) => v.summary,
     (v: Vulnerability) => v.reference, (v: Vulnerability) => v.aliases, (v: Vulnerability) => v.ecosystem]
  }

  lemma AbsorbFills(e: Vulnerability, v: Vulnerability, n: nat)
    requires n < 6
    ensures FilledFields()[n](Absorb(e, v)) == FillEmpty(FilledFields()[n](e), FilledFields()[n](v))
  {}

  /** Each of them is the first value any feed gave. */
  lemma {:induction false} FirstValueFills(rows: seq<Vulnerability>, n: nat)
    requires rows != [] && n < 6
    ensures IsFirstFilled(FilledFields()[n](Merged(rows)), rows, FilledFields()[n])
  {
    var field := FilledFields()[n];
    var last := |rows| - 1;
    if last == 0 {
      assert field(rows[0]) != "" ==> IsFilledAt(field(rows[0]), rows, field, 0);
    } else {
      FirstValueFills(rows[..last], n);
      FillExtends(field(Merged(rows[..last])), rows[..last], field, rows[last]);
      AbsorbFills(Merged(rows[..last]), rows[last], n);
      assert rows == rows[..last] + [rows[last]];
    }
  }

  lemma {:induction false} ContainsAfter(before: string, s: string, part: string)
    requires ContainsText(s, part)
    ensures ContainsText(before + s, part)
  {
    if before == "" {
      assert before + s == s;
    } else {
      assert (before + s)[1..] == before[1..] + s;
      ContainsAfter(before[1..], s, part);
    }
  }

  lemma {:induction false} ContainsBefore(s: string, after: string, part: string)
    requires ContainsText(s, part)
    ensures ContainsText(s + after, part)
  {
    if !HasPrefix(s, part) {
      assert (s + after)[1..] == s[1..] + after;
      ContainsBefore(s[1..], after, part);
    } else {
      assert part == (s + after)[..|part|];
    }
  }

  /** Contained means with something before it and something behind it. */
  lemma {:induction false} ContainedIs(s: string, part: string)
    ensures ContainsText(s, part) <==> exists before, after :: s == before + part + after
  {
    forall before, after | s == before + part + after ensures ContainsText(s, part) {
      assert s == before + (part + after) && HasPrefix(part + after, part);
      ContainsAfter(before, part + after, part);
    }
    if HasPrefix(s, part) {
      assert s == "" + part + s[|part|..];
    } else if ContainsText(s, part) {
      ContainedIs(s[1..], part);
      var before, after :| s[1..] == before + part + after;
      assert s == ([s[0]] + before) + part + after;
    }
  }

  /** A further feed is named behind a plus sign, unless the row names it already. */
  lemma SourcesAreJoined(rows: seq<Vulnerability>, v: Vulnerability)
    requires rows != []
    ensures var source := Merged(rows).source;
            Merged(rows + [v]).source ==
            if exists before, after :: source == before + v.source + after then source else source + "+" + v.source
  {
    ContainedIs(Merged(rows).source, v.source);
    assert (rows + [v])[..|rows|] == rows;
  }

  /** Every feed that saw the flaw is named in the row. */
  lemma {:induction false} EverySourceIsNamed(rows: seq<Vulnerability>, k: nat)
    requires k < |rows|
    ensures ContainsText(Merged(rows).source, rows[k].source)
  {
    var last := |rows| - 1;
    if last == 0 {
    } else {
      var e, v := Merged(rows[..last]), rows[last];
      if k < last {
        EverySourceIsNamed(rows[..last], k);
        ContainsBefore(e.source, "+" + v.source, rows[k].source);
        assert e.source + "+" + v.source == e.source + ("+" + v.source);
      } else {
        ContainsAfter(e.source + "+", v.source, v.source);
      }
    }
  }

  // ------------------------------------------------------------- sortAndFilter

  /** Severity first, high before low; ties by package, then by identifier. */
  function CompareRows(a: Vulnerability, b: Vulnerability): int {
    if Rank(a.severity) != Rank(b.severity) then Sign(Rank(b.severity) - Rank(a.severity))
    else if a.package != b.package then CompareStrings(a.package, b.package)
    else CompareStrings(a.id, b.id)
  }

  /** The grades, worst first: a flaw nobody graded stands between high and medium. */
  lemma GradesAreListed(i: nat, j: nat)
    requires i < 6 && j < 6
    ensures var grades := [Critical, High, Unknown, Medium, Low, NoSeverity];
            Rank(grades[i]) >= Rank(grades[j]) <==> i <= j
  {}

  /** Two rows of one grade stand by package, and two of one package by identifier. */
  lemma TiesAreByName(rows: seq<Vulnerability>, i: nat, j: nat)
    requires Sorted(CompareRows, rows) && i < j < |rows| && rows[i].severity == rows[j].severity
    ensures CompareStrings(rows[i].package, rows[j].package) <= 0
    ensures rows[i].package == rows[j].package ==> CompareStrings(rows[i].id, rows[j].id) <= 0
  {
    assert CompareRows(rows[i], rows[j]) <= 0;
  }

  lemma RowsArePreordered()
    ensures Preorder(CompareRows)
  {
    forall a, b ensures CompareRows(a, b) == -CompareRows(b, a) {
      CompareStringsFlips(a.package, b.package);
      CompareStringsFlips(a.id, b.id);
    }
    forall a, b, c | CompareRows(a, b) <= 0 && CompareRows(b, c) <= 0 ensures CompareRows(a, c) <= 0 {
      RowsTransitive(a, b, c);
    }
  }

  lemma RowsTransitive(a: Vulnerability, b: Vulnerability, c: Vulnerability)
    requires CompareRows(a, b) <= 0 && CompareRows(b, c) <= 0
    ensures CompareRows(a, c) <= 0
  {
    if Rank(a.severity) == Rank(b.severity) == Rank(c.severity) {
      CompareStringsTransitive(a.package, b.package, c.package);
      if a.package == c.package {
        CompareStringsFlips(a.package, b.package);
        assert a.package == b.package;
        CompareStringsTransitive(a.id, b.id, c.id);
      }
    }
  }

  /** A flaw nobody graded is not a flaw graded harmless. */
  predicate Stays(v: Vulnerability, min: Severity) { v.severity == Unknown || Rank(v.severity) >= Rank(min) }

  /** Which grades are kept for each minimum; an unknown one always is. */
  lemma KeptGradesAre(v: Vulnerability)
    ensures Stays(v, Critical) <==> v.severity in {Unknown, Critical}
    ensures Stays(v, High) <==> v.severity in {Unknown, Critical, High}
    ensures Stays(v, Unknown) <==> v.severity in {Unknown, Critical, High}
    ensures Stays(v, Medium) <==> v.severity in {Unknown, Critical, High, Medium}
    ensures Stays(v, Low) <==> v.severity in {Unknown, Critical, High, Medium, Low}
    ensures Stays(v, NoSeverity)
  {}

  function Filter(items: seq<Vulnerability>, min: Severity): (kept: seq<Vulnerability>)
    ensures forall v :: v in kept <==> v in items && Stays(v, min)
  {
    if items == [] then []
    else
      var init, last := items[..|items| - 1], items[|items| - 1];
      assert forall v :: v in items <==> v in init || v == last;
      Filter(init, min) + if Stays(last, min) then [last] else []
  }

  lemma SortedRows(kept: seq<Vulnerability>)
    ensures var out := StableSort(CompareRows, kept);
            Sorted(CompareRows, out) && forall v :: v in out <==> v in kept
  {
    hide StableSort;
    hide CompareRows;
    var out := StableSort(CompareRows, kept);
    RowsArePreordered();
    SortIsSorted(CompareRows, kept);
    forall v ensures v in out <==> v in kept {
      assert v in out <==> v in multiset(out);
    }
  }

  lemma WorstFirst(rows: seq<Vulnerability>)
    requires Sorted(CompareRows, rows)
    ensures forall i, j :: 0 <= i < j < |rows| ==> Rank(rows[i].severity) >= Rank(rows[j].severity)
  {
    forall i, j | 0 <= i < j < |rows| ensures Rank(rows[i].severity) >= Rank(rows[j].severity) {
      assert CompareRows(rows[i], rows[j]) <= 0;
    }
  }

  method Keep(items: seq<Vulnerability>, min: Severity) returns (kept: seq<Vulnerability>)
    ensures kept == Filter(items, min)
  {
    hide Rank;
    kept := [];
    for n := 0 to |items|
      invariant kept == Filter(items[..n], min)
    {
      assert items[..n + 1][..n] == items[..n];
      var v := items[n];
      if v.severity != Unknown && Rank(v.severity) < Rank(min) {
        continue;
      }
      kept := kept + [v];
    }
    assert items[..|items|] == items;
  }

  method SortAndFilter(items: seq<Vulnerability>, min: Severity) returns (out: seq<Vulnerability>)
    ensures Sorted(CompareRows, out)
    ensures multiset(out) == multiset(Filter(items, min))
    ensures out == StableSort(CompareRows, Filter(items, min))
    ensures forall v :: v in out <==> v in items && Stays(v, min)
    ensures forall i, j :: 0 <= i < j < |out| ==> Rank(out[i].severity) >= Rank(out[j].severity)
  {
    hide StableSort;
    hide CompareRows;
    hide Sorted;
    var kept := Keep(items, min);
    SortedRows(kept);
    out := StableSort(CompareRows, kept);
    WorstFirst(out);
  }
}
