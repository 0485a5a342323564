/**
 One outcome per rule: fixOutcome, conclude and verdictFinding of
 app/witness/outcomes.go, Evaluate and sortFindings of app/witness/preflight.go.

 A rule is what it evaluated to: its findings and its own verdict.
 */
module Outcomes {
  import opened Text
  import opened Ordering
  import opened Findings

  /** A finding; of its evidence only the number of pieces matters here. */
  datatype Finding = Finding(
    code: string,
    collector: string,
    severity: Severity,
    outcome: Outcome,
    sortOrder: int,
    subject: string,
    evidence: nat)

  /** What the rule concludes on its own, and the evidence it brings for it. */
  datatype Verdict = Verdict(outcome: Outcome, evidence: nat)

  /** `assess` is optional: without it, a rule that finds nothing found no problem. */
  datatype Rule = Rule(name: string, code: string, found: seq<Finding>, assess: Option<Verdict>)

  datatype RuleResult = RuleResult(code: string, rule: string, outcome: Outcome, findings: nat)

  datatype Report = Report(findings: seq<Finding>, rules: seq<RuleResult>, dropped: nat, corrected: nat)

  function VerdictOf(r: Rule): Verdict { if r.assess.Some? then r.assess.value else Verdict(NoProblem, 0) }

  predicate IsClear(o: Outcome) { o == NoProblem || o == NotApplicable }

  // ------------------------------------------------------------------ fixOutcome

  function Stated(f: Finding): Outcome {
    if f.outcome != Unstated then f.outcome else if f.severity == Info then NoProblem else Problem
  }

  /** The finding with its outcome stated and its severity allowed, and whether the
      severity had to be corrected. */
  function FixOutcome(f: Finding): (Finding, bool) {
    var g := f.(outcome := Stated(f));
    if g.severity == Blocker && g.outcome != Problem then (g.(severity := Warning), true)
    else if IsClear(g.outcome) && g.severity != Info then (g.(severity := Info), true)
    else (g, false)
  }

  /** Only a proven problem blocks. What concludes there is no problem is info, except
      for a finding that came as a blocker: that one is left at warning. A finding that says
      nothing is a problem, or none where it is info. */
  lemma FixedSeverity(f: Finding)
    ensures var g := FixOutcome(f).0;
            var clear := g.outcome == NoProblem || g.outcome == NotApplicable;
            && g.outcome == (if f.outcome != Unstated then f.outcome else if f.severity == Info then NoProblem else Problem)
            && (g.severity == Blocker <==> f.severity == Blocker && g.outcome == Problem)
            && (clear && g.severity != Info <==> f.severity == Blocker && clear)
            && (f.severity == Blocker && g.outcome != Problem ==> g.severity == Warning)
            && (f.severity != Blocker && !clear ==> g.severity == f.severity)
            && g.(outcome := f.outcome, severity := f.severity) == f
    ensures FixOutcome(f).1 <==> FixOutcome(f).0.severity != f.severity
  {}

  /** A second correction would finish the work. */
  lemma FixedTwiceIsSettled(f: Finding)
    ensures var h := FixOutcome(FixOutcome(f).0).0;
            (IsClear(h.outcome) ==> h.severity == Info) && FixOutcome(h) == (h, false)
  {}

  // -------------------------------------------------------------------- conclude

  function MinOutcome(start: Outcome, fs: seq<Finding>): Outcome {
    if fs == [] then start
    else
      var o, f := MinOutcome(start, fs[..|fs| - 1]), fs[|fs| - 1].outcome;
      if OutcomeRank(f) < OutcomeRank(o) then f else o
  }

  predicate States(fs: seq<Finding>, o: Outcome) { exists f :: f in fs && f.outcome == o }

  /** The verdict published as a finding of its own, where none of the findings says it. */
  function VerdictFinding(r: Rule): Finding {
    var v := VerdictOf(r);
    Finding(r.code, r.name, Info, v.outcome, 1000, "", if v.evidence == 0 then 1 else v.evidence)
  }

  predicate Synthesizes(r: Rule, published: seq<Finding>) {
    (VerdictOf(r).outcome == Unknown || VerdictOf(r).outcome == ManualCheck) && !States(published, VerdictOf(r).outcome)
  }

  function ResultOf(r: Rule, published: seq<Finding>): RuleResult {
    RuleResult(r.code, r.name, MinOutcome(VerdictOf(r).outcome, published),
               |published| + if Synthesizes(r, published) then 1 else 0)
  }

  method Conclude(r: Rule, findings: seq<Finding>) returns (result: RuleResult, synthesized: Option<Finding>)
    ensures result == ResultOf(r, findings)
    ensures synthesized == if Synthesizes(r, findings) then Some(VerdictFinding(r)) else None
  {
    var v := VerdictOf(r);
    var outcome := v.outcome;
    var counts: multiset<Outcome> := multiset{};
    for n := 0 to |findings|
      invariant outcome == MinOutcome(v.outcome, findings[..n])
      invariant forall o :: o in counts <==> States(findings[..n], o)
    {
      var f := findings[n];
      assert findings[..n + 1] == findings[..n] + [f];
      assert forall g :: g in findings[..n + 1] <==> g in findings[..n] || g == f;
      counts := counts[f.outcome := counts[f.outcome] + 1];
      if OutcomeRank(f.outcome) < OutcomeRank(outcome) {
        outcome := f.outcome;
      }
    }
    assert findings[..|findings|] == findings;
    synthesized := None;
    var n := |findings|;
    if (v.outcome == Unknown || v.outcome == ManualCheck) && counts[v.outcome] == 0 {
      synthesized := Some(VerdictFinding(r));
      n := n + 1;
    }
    result := RuleResult(r.code, r.name, outcome, n);
  }

  // -------------------------------------------------------------------- Evaluate

  function Named(r: Rule, f: Finding): Finding { if f.collector == "" then f.(collector := r.name) else f }

  /** A finding without evidence is dropped, the others are named and corrected. */
  function Published(r: Rule, found: seq<Finding>): seq<Finding> {
    if found == [] then []
    else
      var f := found[|found| - 1];
      Published(r, found[..|found| - 1]) + if f.evidence == 0 then [] else [FixOutcome(Named(r, f)).0]
  }

  function Dropped(found: seq<Finding>): nat {
    if found == [] then 0
    else Dropped(found[..|found| - 1]) + if found[|found| - 1].evidence == 0 then 1 else 0
  }

  function Corrected(found: seq<Finding>): nat {
    if found == [] then 0
    else
      var f := found[|found| - 1];
      Corrected(found[..|found| - 1]) + if f.evidence != 0 && FixOutcome(f).1 then 1 else 0
  }

  function OfRule(r: Rule): seq<Finding> {
    var published := Published(r, r.found);
    published + if Synthesizes(r, published) then [VerdictFinding(r)] else []
  }

  function OfRules(rules: seq<Rule>): seq<Finding> {
    if rules == [] then [] else OfRules(rules[..|rules| - 1]) + OfRule(rules[|rules| - 1])
  }

  function ResultsOf(rules: seq<Rule>): seq<RuleResult> {
    seq(|rules|, k requires 0 <= k < |rules| => ResultOf(rules[k], Published(rules[k], rules[k].found)))
  }

  function AllDropped(rules: seq<Rule>): nat {
    if rules == [] then 0 else AllDropped(rules[..|rules| - 1]) + Dropped(rules[|rules| - 1].found)
  }

  function AllCorrected(rules: seq<Rule>): nat {
    if rules == [] then 0 else AllCorrected(rules[..|rules| - 1]) + Corrected(rules[|rules| - 1].found)
  }

  /** Severity first; ties by collector, then the order number, then the subject. */
  function CompareFindings(a: Finding, b: Finding): int {
    if SeverityRank(a.severity) != SeverityRank(b.severity) then
      Sign(SeverityRank(a.severity) as int - SeverityRank(b.severity) as int)
    else if a.collector != b.collector then CompareStrings(a.collector, b.collector)
    else if a.sortOrder != b.sortOrder then Sign(a.sortOrder - b.sortOrder)
    else CompareStrings(a.subject, b.subject)
  }

  method PublishRule(r: Rule) returns (published: seq<Finding>, dropped: nat, corrected: nat)
    ensures published == Published(r, r.found) && dropped == Dropped(r.found) && corrected == Corrected(r.found)
  {
    published, dropped, corrected := [], 0, 0;
    for n := 0 to |r.found|
      invariant published == Published(r, r.found[..n])
      invariant dropped == Dropped(r.found[..n]) && corrected == Corrected(r.found[..n])
    {
      assert r.found[..n + 1][..n] == r.found[..n];
      var f := r.found[n];
      if f.evidence == 0 {
        dropped := dropped + 1;
        continue;
      }
      var (fixed, changed) := FixOutcome(Named(r, f));
      if changed {
        corrected := corrected + 1;
      }
      published := published + [fixed];
    }
    assert r.found[..|r.found|] == r.found;
  }

  method Evaluate(rules: seq<Rule>) returns (out: Report)
    ensures out.findings == StableSort(CompareFindings, OfRules(rules))
    ensures out.rules == ResultsOf(rules)
    ensures out.dropped == AllDropped(rules) && out.corrected == AllCorrected(rules)
  {
    hide Published;
    hide StableSort;
    hide FixOutcome;
    var findings: seq<Finding>, results: seq<RuleResult> := [], [];
    var dropped, corrected: nat := 0, 0;
    for n := 0 to |rules|
      invariant findings == OfRules(rules[..n]) && results == ResultsOf(rules)[..n]
      invariant dropped == AllDropped(rules[..n]) && corrected == AllCorrected(rules[..n])
    {
      assert rules[..n + 1][..n] == rules[..n];
      var published, d, c := PublishRule(rules[n]);
      var result, synthesized := Conclude(rules[n], published);
      if synthesized.Some? {
        published := published + [synthesized.value];
      }
      findings := findings + published;
      results := results + [result];
      dropped, corrected := dropped + d, corrected + c;
    }
    assert rules[..|rules|] == rules;
    out := Report(StableSort(CompareFindings, findings), results, dropped, corrected);
  }

  // --------------------------------------------------- what the report guarantees

  lemma {:induction false} PublishedAre(r: Rule, found: seq<Finding>, g: Finding)
    ensures g in Published(r, found) <==>
            exists f :: f in found && f.evidence > 0 && g == FixOutcome(Named(r, f)).0
    ensures |Published(r, found)| + Dropped(found) == |found|
  {
    if found != [] {
      var init, last := found[..|found| - 1], found[|found| - 1];
      PublishedAre(r, init, g);
      assert forall f :: f in found <==> f in init || f == last;
    }
  }

  /** Nothing among verdict and findings is more urgent than the result, and one of them is it. */
  lemma {:induction false} OutcomeIsMostUrgent(start: Outcome, fs: seq<Finding>)
    ensures var o := MinOutcome(start, fs);
            && (o == start || States(fs, o))
            && OutcomeRank(o) <= OutcomeRank(start)
            && (forall f :: f in fs ==> OutcomeRank(o) <= OutcomeRank(f.outcome))
  {
    if fs != [] {
      var init, last := fs[..|fs| - 1], fs[|fs| - 1];
      OutcomeIsMostUrgent(start, init);
      assert forall f :: f in fs <==> f in init || f == last;
    }
  }

  predicate IsOpen(o: Outcome) { o == Problem || o == Unknown || o == ManualCheck }

  /** A result reads as settled only when its verdict and every finding do. */
  lemma SettledExactlyWhen(start: Outcome, fs: seq<Finding>)
    ensures IsOpen(MinOutcome(start, fs)) <==> IsOpen(start) || exists f :: f in fs && IsOpen(f.outcome)
    ensures MinOutcome(start, fs) == Problem <==> start == Problem || States(fs, Problem)
  {
    OutcomeIsMostUrgent(start, fs);
  }

  /** The verdict or one of the findings says so. */
  predicate Says(start: Outcome, fs: seq<Finding>, o: Outcome) {
    start == o || exists f :: f in fs && f.outcome == o
  }

  /** Which outcome wins: a problem, then what is not known, then what is left to the reader,
      then no problem, and only then what does not apply. */
  lemma MostUrgentIs(start: Outcome, fs: seq<Finding>)
    ensures var o := MinOutcome(start, fs);
            && (o == Problem <==> Says(start, fs, Problem))
            && (o == Unknown <==> Says(start, fs, Unknown) && !Says(start, fs, Problem))
            && (o == ManualCheck <==>
                  Says(start, fs, ManualCheck) && !Says(start, fs, Problem) && !Says(start, fs, Unknown))
            && (o == NoProblem <==>
                  && Says(start, fs, NoProblem)
                  && !Says(start, fs, Problem) && !Says(start, fs, Unknown) && !Says(start, fs, ManualCheck))
            && (o == NotApplicable <==>
                  && Says(start, fs, NotApplicable) && !Says(start, fs, Problem) && !Says(start, fs, Unknown)
                  && !Says(start, fs, ManualCheck) && !Says(start, fs, NoProblem))
  {
    OutcomeIsMostUrgent(start, fs);
  }

  /** A rule that finds nothing and assesses nothing found no problem; an assessment that
      something is unknown or must be checked by hand is published as a last finding, for
      information, with evidence, unless a finding says it already. */
  lemma VerdictIsPublished(r: Rule)
    ensures r.assess.None? ==> OfRule(r) == Published(r, r.found)
    ensures r.assess.None? && r.found == [] ==>
              ResultOf(r, Published(r, r.found)) == RuleResult(r.code, r.name, NoProblem, 0)
    ensures r.assess.Some? && r.assess.value.outcome !in {Unknown, ManualCheck} ==> OfRule(r) == Published(r, r.found)
    ensures r.assess.Some? && r.assess.value.outcome in {Unknown, ManualCheck} ==>
              var o := r.assess.value.outcome;
              var evidence := if r.assess.value.evidence == 0 then 1 else r.assess.value.evidence;
              OfRule(r) == Published(r, r.found) +
              if exists f :: f in Published(r, r.found) && f.outcome == o then []
              else [Finding(r.code, r.name, Info, o, 1000, "", evidence)]
  {
    hide FixOutcome;
    assert r.found == [] ==> Published(r, r.found) == [];
  }

  /** What becomes of one finding: dropped without evidence, else published under the rule's
      name where it has none, and counted as corrected when its severity had to change. */
  lemma OneFindingIs(r: Rule, f: Finding)
    ensures f.evidence == 0 ==> Published(r, [f]) == [] && Dropped([f]) == 1 && Corrected([f]) == 0
    ensures f.evidence > 0 ==>
              var g := f.(collector := if f.collector == "" then r.name else f.collector);
              && Published(r, [f]) == [FixOutcome(g).0] && Dropped([f]) == 0
              && Corrected([f]) == if FixOutcome(g).0.severity != f.severity then 1 else 0
  {
    assert [f][..0] == [];
    assert Published(r, []) == [] && Dropped([]) == 0 && Corrected([]) == 0;
  }

  /** Findings are published and counted one by one. */
  lemma {:induction false} FindingsJoin(r: Rule, xs: seq<Finding>, ys: seq<Finding>)
    ensures Published(r, xs + ys) == Published(r, xs) + Published(r, ys)
    ensures Dropped(xs + ys) == Dropped(xs) + Dropped(ys) && Corrected(xs + ys) == Corrected(xs) + Corrected(ys)
  {
    hide FixOutcome;
    if ys == [] {
      assert xs + ys == xs && Published(r, ys) == [];
    } else {
      var all, n := xs + ys, |ys| - 1;
      assert all[..|all| - 1] == xs + ys[..n] && all[|all| - 1] == ys[n];
      FindingsJoin(r, xs, ys[..n]);
      var last := if ys[n].evidence == 0 then [] else [FixOutcome(Named(r, ys[n])).0];
      assert Published(r, xs) + (Published(r, ys[..n]) + last) == (Published(r, xs) + Published(r, ys[..n])) + last;
    }
  }

  /** So are the rules. */
  lemma {:induction false} RulesJoin(xs: seq<Rule>, ys: seq<Rule>)
    ensures OfRules(xs + ys) == OfRules(xs) + OfRules(ys)
    ensures AllDropped(xs + ys) == AllDropped(xs) + AllDropped(ys)
    ensures AllCorrected(xs + ys) == AllCorrected(xs) + AllCorrected(ys)
  {
    hide OfRule;
    hide Dropped;
    hide Corrected;
    if ys == [] {
      assert xs + ys == xs && OfRules(ys) == [];
    } else {
      var all, n := xs + ys, |ys| - 1;
      assert all[..|all| - 1] == xs + ys[..n] && all[|all| - 1] == ys[n];
      RulesJoin(xs, ys[..n]);
      var x, y, z := OfRules(xs), OfRules(ys[..n]), OfRule(ys[n]);
      assert x + (y + z) == (x + y) + z;
    }
  }

  lemma OneRuleIs(r: Rule)
    ensures OfRules([r]) == OfRule(r)
    ensures AllDropped([r]) == Dropped(r.found) && AllCorrected([r]) == Corrected(r.found)
  {
    assert [r][..0] == [] && OfRules([]) == [];
  }

  /** A result that is not settled is stated by a finding of the rule: never silence. It
      is left unstated exactly for a verdict of "problem" that no finding shows. */
  lemma UnsettledIsStatedExactlyWhen(r: Rule)
    ensures var published := Published(r, r.found);
            var o := ResultOf(r, published).outcome;
            o == Problem || o == Unknown || o == ManualCheck ==>
              (States(OfRule(r), o) <==> !(VerdictOf(r).outcome == Problem && !States(published, Problem)))
  {
    var published := Published(r, r.found);
    var v := VerdictOf(r).outcome;
    OutcomeIsMostUrgent(v, published);
    assert forall f :: f in published ==> f in OfRule(r);
    if Synthesizes(r, published) {
      assert VerdictFinding(r) in OfRule(r);
    }
  }

  /** A result counts the findings of its rule. */
  lemma ResultsCountFindings(r: Rule)
    ensures ResultOf(r, Published(r, r.found)).findings == |OfRule(r)|
  {}

  lemma {:induction false} FindingsAddUp(rules: seq<Rule>)
    ensures |OfRules(rules)| == SumFindings(ResultsOf(rules))
  {
    if rules != [] {
      var n := |rules| - 1;
      FindingsAddUp(rules[..n]);
      ResultsCountFindings(rules[n]);
      ResultsSnoc(rules);
    }
  }

  lemma ResultsSnoc(rules: seq<Rule>)
    requires rules != []
    ensures var n := |rules| - 1;
            ResultsOf(rules)[..n] == ResultsOf(rules[..n]) &&
            ResultsOf(rules)[n] == ResultOf(rules[n], Published(rules[n], rules[n].found))
  {}

  function SumFindings(rs: seq<RuleResult>): nat {
    if rs == [] then 0 else SumFindings(rs[..|rs| - 1]) + rs[|rs| - 1].findings
  }

  /** What a published finding may look like, given the one it was made from. */
  ghost predicate IsSound(g: Finding) {
    g.evidence > 0 && g.outcome != Unstated && (g.severity == Blocker ==> g.outcome == Problem)
  }

  /** Was a blocker that concludes there is no problem. */
  ghost predicate WasClearBlocker(r: Rule, g: Finding) {
    exists f :: f in r.found && f.severity == Blocker && IsClear(f.outcome) && g == FixOutcome(Named(r, f)).0
  }

  lemma RuleFindingIsSound(r: Rule, g: Finding)
    requires g in OfRule(r)
    ensures IsSound(g)
    ensures IsClear(g.outcome) && g.severity != Info ==> g.severity == Warning && WasClearBlocker(r, g)
  {
    PublishedAre(r, r.found, g);
    if g in Published(r, r.found) {
      var f :| f in r.found && f.evidence > 0 && g == FixOutcome(Named(r, f)).0;
      FixedSeverity(Named(r, f));
    }
  }

  lemma {:induction false} FindingComesFromARule(rules: seq<Rule>, g: Finding)
    ensures g in OfRules(rules) <==> exists r :: r in rules && g in OfRule(r)
  {
    if rules != [] {
      FindingComesFromARule(rules[..|rules| - 1], g);
      assert forall r :: r in rules <==> r in rules[..|rules| - 1] || r == rules[|rules| - 1];
    }
  }

  lemma FindingsArePreordered()
    ensures Preorder(CompareFindings)
  {
    forall a, b ensures CompareFindings(a, b) == -CompareFindings(b, a) {
      CompareStringsFlips(a.collector, b.collector);
      CompareStringsFlips(a.subject, b.subject);
    }
    forall a, b, c | CompareFindings(a, b) <= 0 && CompareFindings(b, c) <= 0 ensures CompareFindings(a, c) <= 0 {
      FindingsTransitive(a, b, c);
    }
  }

  lemma FindingsTransitive(a: Finding, b: Finding, c: Finding)
    requires CompareFindings(a, b) <= 0 && CompareFindings(b, c) <= 0
    ensures CompareFindings(a, c) <= 0
  {
    if SeverityRank(a.severity) == SeverityRank(b.severity) == SeverityRank(c.severity) {
      CompareStringsTransitive(a.collector, b.collector, c.collector);
      if a.collector == c.collector {
        CompareStringsFlips(a.collector, b.collector);
        assert a.collector == b.collector;
        if a.sortOrder == b.sortOrder == c.sortOrder {
          CompareStringsTransitive(a.subject, b.subject, c.subject);
        }
      }
    }
  }

  /** Blockers first, then warnings, then information, then the rest. Findings of one severity
      stand by the name of their rule, then by their order number, then by their subject. */
  lemma WorstFirst(rules: seq<Rule>, i: nat, j: nat)
    requires i < j < |OfRules(rules)|
    ensures var out := StableSort(CompareFindings, OfRules(rules));
            && (out[j].severity == Blocker ==> out[i].severity == Blocker)
            && (out[j].severity == Warning ==> out[i].severity in {Blocker, Warning})
            && (out[j].severity == Info ==> out[i].severity in {Blocker, Warning, Info})
            && (out[i].severity == out[j].severity ==>
                  && CompareStrings(out[i].collector, out[j].collector) <= 0
                  && (out[i].collector == out[j].collector ==>
                        && out[i].sortOrder <= out[j].sortOrder
                        && (out[i].sortOrder == out[j].sortOrder ==>
                              CompareStrings(out[i].subject, out[j].subject) <= 0)))
  {
    hide StableSort;
    var out := StableSort(CompareFindings, OfRules(rules));
    FindingsArePreordered();
    SortIsSorted(CompareFindings, OfRules(rules));
    assert CompareFindings(out[i], out[j]) <= 0;
  }

  /** The report of any rule list: every finding backed by evidence, every blocker a
      proven problem, and all of them in reading order. */
  lemma ReportIsSound(rules: seq<Rule>, g: Finding)
    ensures var out := StableSort(CompareFindings, OfRules(rules));
            && (g in out <==> exists r :: r in rules && g in OfRule(r))
            && (g in out ==> IsSound(g))
            && (g in out && IsClear(g.outcome) && g.severity != Info ==> exists r :: r in rules && WasClearBlocker(r, g))
            && Sorted(CompareFindings, out)
            && Ties(CompareFindings, g, out) == Ties(CompareFindings, g, OfRules(rules))
  {
    var out := StableSort(CompareFindings, OfRules(rules));
    FindingsArePreordered();
    StableSortIsStable(CompareFindings, OfRules(rules), g);
    FindingComesFromARule(rules, g);
    assert g in out <==> g in multiset(out);
    if g in out {
      var r :| r in rules && g in OfRule(r);
      RuleFindingIsSound(r, g);
    }
  }
}
