/**
 Scoring a bench run and gating a release: bench/score/score.go.
 */
module Score {
  import opened Text
  import opened Ordering

  datatype Situation = StagedProblem | StagedClean | StagedUnknown | StagedManual | StagedNotApplicable | OtherSituation

  datatype Prediction =
    | SaidProblem | SaidRefused | SaidNoProblem | SaidNotApplicable | SaidUnknown | SaidManualCheck | SaidOther(text: string)

  datatype Scenario = Scenario(
    id: string,
    rule: string,
    situation: Situation,
    expected: Prediction,
    critical: bool,
    regression: string)

  datatype Outcome = Outcome(
    scenario: Scenario,
    predicted: Prediction,
    sideEffects: seq<string>,
    benchError: string,
    specMatch: bool,
    dockerMatch: Option<bool>)

  // --------------------------------------------------------------------- scoring

  datatype RuleScore = RuleScore(
    scenarios: nat,
    scored: nat,
    problems: nat,
    detected: nat,
    missed: nat,
    unknownOnProblem: nat,
    clean: nat,
    falseFindings: nat,
    unknownOnClean: nat,
    insufficientData: nat,
    correctUnknown: nat,
    guessed: nat,
    unknown: nat,
    asSpecified: nat)

  const ZERO := RuleScore(0, 0, 0, 0, 0, 0, 0, 0, 0, 0, 0, 0, 0, 0)

  function Add(a: RuleScore, b: RuleScore): RuleScore {
    RuleScore(a.scenarios + b.scenarios, a.scored + b.scored, a.problems + b.problems, a.detected + b.detected,
              a.missed + b.missed, a.unknownOnProblem + b.unknownOnProblem, a.clean + b.clean,
              a.falseFindings + b.falseFindings, a.unknownOnClean + b.unknownOnClean,
              a.insufficientData + b.insufficientData, a.correctUnknown + b.correctUnknown, a.guessed + b.guessed,
              a.unknown + b.unknown, a.asSpecified + b.asSpecified)
  }

  predicate Disagrees(o: Outcome) { o.dockerMatch == Some(false) }

  /** Its ground truth held: it counts for accuracy. */
  predicate Scored(o: Outcome) { o.benchError == "" && !Disagrees(o) }

  predicate Decided(o: Outcome) { o.predicted == SaidProblem || o.predicted == SaidRefused }

  predicate SaidClean(o: Outcome) { o.predicted == SaidNoProblem || o.predicted == SaidNotApplicable }

  function One(b: bool): nat { if b then 1 else 0 }

  /** What one scenario adds to the figures of its rule. */
  function Unit(o: Outcome): RuleScore {
    var said := o.predicted == SaidUnknown;
    var s := Scored(o);
    var problem := s && o.scenario.situation == StagedProblem;
    var clean := s && (o.scenario.situation == StagedClean || o.scenario.situation == StagedNotApplicable);
    var blind := s && o.scenario.situation == StagedUnknown;
    var undecided := said || o.predicted == SaidManualCheck;
    RuleScore(
      1, One(s),
      One(problem), One(problem && Decided(o)), One(problem && !Decided(o) && !undecided), One(problem && !Decided(o) && undecided),
      One(clean), One(clean && Decided(o)), One(clean && said),
      One(blind), One(blind && said), One(blind && !said && (Decided(o) || SaidClean(o))),
      One(said), One(s && o.specMatch))
  }

  // Sums of what scenarios add, for any way of adding that has a zero and ignores order.

  ghost predicate IsSum<M(!new)>(add: (M, M) -> M, zero: M) {
    && (forall a :: add(a, zero) == a)
    && (forall a, b :: add(a, b) == add(b, a))
    && (forall a, b, c :: add(add(a, b), c) == add(a, add(b, c)))
  }

  function SumRule<M>(add: (M, M) -> M, zero: M, unit: Outcome -> M, os: seq<Outcome>, rule: string): M {
    if os == [] then zero
    else
      var o, rest := os[|os| - 1], SumRule(add, zero, unit, os[..|os| - 1], rule);
      if o.scenario.rule == rule then add(rest, unit(o)) else rest
  }

  function SumRun<M>(add: (M, M) -> M, zero: M, unit: Outcome -> M, os: seq<Outcome>): M {
    if os == [] then zero else add(SumRun(add, zero, unit, os[..|os| - 1]), unit(os[|os| - 1]))
  }

  function SumRules<M>(add: (M, M) -> M, zero: M, unit: Outcome -> M, os: seq<Outcome>, names: seq<string>): M {
    if names == [] then zero
    else add(SumRules(add, zero, unit, os, names[..|names| - 1]), SumRule(add, zero, unit, os, names[|names| - 1]))
  }

  /** The figures of one rule, of the whole run, and of the rules together. */
  function OfRule(os: seq<Outcome>, rule: string): RuleScore { SumRule(Add, ZERO, Unit, os, rule) }

  function OfRun(os: seq<Outcome>): RuleScore { SumRun(Add, ZERO, Unit, os) }

  function OfRules(os: seq<Outcome>, names: seq<string>): RuleScore { SumRules(Add, ZERO, Unit, os, names) }

  /** The counters of its rule after one more scenario. */
  method Tally(r0: RuleScore, o: Outcome) returns (r: RuleScore)
    ensures r == Add(r0, Unit(o))
  {
    r := r0.(scenarios := r0.scenarios + 1);
    if o.predicted == SaidUnknown {
      r := r.(unknown := r.unknown + 1);
    }
    if o.benchError != "" || o.dockerMatch == Some(false) {
      return;
    }
    r := r.(scored := r.scored + 1);
    if o.specMatch {
      r := r.(asSpecified := r.asSpecified + 1);
    }
    var decided := o.predicted == SaidProblem || o.predicted == SaidRefused;
    var clean := o.predicted == SaidNoProblem || o.predicted == SaidNotApplicable;
    match o.scenario.situation {
      case StagedProblem =>
        r := r.(problems := r.problems + 1);
        if decided {
          r := r.(detected := r.detected + 1);
        } else if o.predicted == SaidUnknown || o.predicted == SaidManualCheck {
          r := r.(unknownOnProblem := r.unknownOnProblem + 1);
        } else {
          r := r.(missed := r.missed + 1);
        }
      case StagedClean | StagedNotApplicable =>
        r := r.(clean := r.clean + 1);
        if decided {
          r := r.(falseFindings := r.falseFindings + 1);
        } else if o.predicted == SaidUnknown {
          r := r.(unknownOnClean := r.unknownOnClean + 1);
        }
      case StagedUnknown =>
        r := r.(insufficientData := r.insufficientData + 1);
        if o.predicted == SaidUnknown {
          r := r.(correctUnknown := r.correctUnknown + 1);
        } else if decided || clean {
          r := r.(guessed := r.guessed + 1);
        }
      case _ =>
    }
  }

  datatype Report = Report(
    names: seq<string>,
    rules: seq<RuleScore>,
    total: RuleScore,
    benchErrors: seq<string>,
    sideEffects: seq<string>,
    dockerDisagreements: seq<string>)

  function RulesOf(os: seq<Outcome>): set<string> { set o | o in os :: o.scenario.rule }

  function Errors(os: seq<Outcome>): seq<string> {
    if os == [] then []
    else
      var o := os[|os| - 1];
      Errors(os[..|os| - 1]) + if o.benchError != "" then [o.scenario.id] else []
  }

  function Disagreements(os: seq<Outcome>): seq<string> {
    if os == [] then []
    else
      var o := os[|os| - 1];
      Disagreements(os[..|os| - 1]) + if o.benchError == "" && Disagrees(o) then [o.scenario.id] else []
  }

  function Effects(os: seq<Outcome>): seq<string> {
    if os == [] then []
    else
      var o := os[|os| - 1];
      Effects(os[..|os| - 1]) + if Scored(o) && o.sideEffects != [] then [o.scenario.id] else []
  }

  ghost predicate Distinct(names: seq<string>) { forall i, j :: 0 <= i < j < |names| ==> names[i] != names[j] }

  /** `sort.Strings` of the keys of a map: each once, in order. */
  method SortedKeys(keys: set<string>) returns (names: seq<string>)
    ensures Distinct(names) && forall n :: n in names <==> n in keys
    ensures names == StableSort(CompareStrings, names)
  {
    names := [];
    var rest := keys;
    while rest != {}
      invariant rest <= keys && Distinct(names)
      invariant forall n :: n in names <==> n in keys && n !in rest
      decreases |rest|
    {
      var k :| k in rest;
      names := names + [k];
      rest := rest - {k};
    }
    var listed := names;
    names := StableSort(CompareStrings, listed);
    SortKeepsDistinct(listed, names);
    SortTwice(listed);
  }

  lemma SortKeepsDistinct(xs: seq<string>, ys: seq<string>)
    requires Distinct(xs) && multiset(xs) == multiset(ys)
    ensures Distinct(ys) && forall n :: n in ys <==> n in xs
  {
    forall n ensures n in ys <==> n in xs {
      assert n in ys <==> n in multiset(ys);
      assert n in xs <==> n in multiset(xs);
    }
    forall i, j | 0 <= i < j < |ys| ensures ys[i] != ys[j] {
      if ys[i] == ys[j] {
        assert ys == ys[..i] + [ys[i]] + ys[i + 1..j] + [ys[j]] + ys[j + 1..];
        assert multiset(ys)[ys[i]] >= 2;
        DistinctCountsOnce(xs, ys[i]);
      }
    }
  }

  lemma {:induction false} DistinctCountsOnce(xs: seq<string>, x: string)
    requires Distinct(xs)
    ensures multiset(xs)[x] <= 1
  {
    if xs != [] {
      assert xs == [xs[0]] + xs[1..];
      DistinctCountsOnce(xs[1..], x);
      if x == xs[0] {
        assert x !in xs[1..];
        assert multiset(xs[1..])[x] == 0;
      }
    }
  }

  lemma {:induction false} SortedIsKept(xs: seq<string>)
    requires Sorted(CompareStrings, xs)
    ensures StableSort(CompareStrings, xs) == xs
  {
    if xs != [] {
      SortedIsKept(xs[1..]);
      assert xs == [xs[0]] + xs[1..];
    }
  }

  lemma SortTwice(xs: seq<string>)
    ensures var ys := StableSort(CompareStrings, xs); StableSort(CompareStrings, ys) == ys
  {
    StringsArePreordered();
    StableSortIsStable(CompareStrings, xs, "");
    SortedIsKept(StableSort(CompareStrings, xs));
  }

  type Table = map<string, RuleScore>

  function Get(t: Table, rule: string): RuleScore { if rule in t then t[rule] else ZERO }

  /** The counters of every rule of a run, each behind its name. */
  ghost predicate Tallies(t: Table, os: seq<Outcome>) {
    t.Keys == RulesOf(os) && forall rule :: OfRule(os, rule) == Get(t, rule)
  }

  lemma TalliesOneMore(t: Table, os: seq<Outcome>, o: Outcome)
    requires Tallies(t, os)
    ensures Tallies(t[o.scenario.rule := Add(Get(t, o.scenario.rule), Unit(o))], os + [o])
  {
    var all := os + [o];
    assert RulesOf(all) == RulesOf(os) + {o.scenario.rule} by {
      assert forall x :: x in all <==> x in os || x == o;
    }
    var t' := t[o.scenario.rule := Add(Get(t, o.scenario.rule), Unit(o))];
    forall rule ensures OfRule(all, rule) == Get(t', rule) {
      SumRuleSnoc(Add, ZERO, Unit, os, o, rule);
      assert OfRule(os, rule) == Get(t, rule);
    }
  }

  lemma SumRuleSnoc<M>(add: (M, M) -> M, zero: M, unit: Outcome -> M, os: seq<Outcome>, o: Outcome, rule: string)
    ensures SumRule(add, zero, unit, os + [o], rule) ==
            if o.scenario.rule == rule then add(SumRule(add, zero, unit, os, rule), unit(o))
            else SumRule(add, zero, unit, os, rule)
  {}

  method TallyRules(os: seq<Outcome>) returns (byRule: Table)
    ensures Tallies(byRule, os)
  {
    byRule := map[];
    for n := 0 to |os|
      invariant Tallies(byRule, os[..n])
    {
      assert os[..n + 1] == os[..n] + [os[n]];
      TalliesOneMore(byRule, os[..n], os[n]);
      var rule := os[n].scenario.rule;
      var after := Tally(Get(byRule, rule), os[n]);
      byRule := byRule[rule := after];
    }
    assert os[..|os|] == os;
  }

  /** The scenarios that prove nothing about the tool until fixed. */
  method ListDefects(os: seq<Outcome>) returns (errors: seq<string>, disagreements: seq<string>, effects: seq<string>)
    ensures errors == Errors(os) && disagreements == Disagreements(os) && effects == Effects(os)
  {
    errors, disagreements, effects := [], [], [];
    for n := 0 to |os|
      invariant errors == Errors(os[..n]) && disagreements == Disagreements(os[..n]) && effects == Effects(os[..n])
    {
      var o := os[n];
      assert os[..n + 1][..n] == os[..n];
      if o.benchError != "" {
        errors := errors + [o.scenario.id];
        continue;
      }
      if o.dockerMatch == Some(false) {
        disagreements := disagreements + [o.scenario.id];
        continue;
      }
      if |o.sideEffects| > 0 {
        effects := effects + [o.scenario.id];
      }
    }
    assert os[..|os|] == os;
  }

  method AddRules(byRule: Table, ghost os: seq<Outcome>, names: seq<string>) returns (rules: seq<RuleScore>, total: RuleScore)
    requires Tallies(byRule, os) && forall n :: n in names ==> n in byRule
    ensures |rules| == |names| && forall k :: 0 <= k < |names| ==> rules[k] == OfRule(os, names[k])
    ensures total == OfRules(os, names)
  {
    rules, total := [], ZERO;
    for k := 0 to |names|
      invariant |rules| == k && forall i :: 0 <= i < k ==> rules[i] == OfRule(os, names[i])
      invariant total == OfRules(os, names[..k])
    {
      assert names[..k + 1][..k] == names[..k];
      var r := byRule[names[k]];
      assert OfRule(os, names[k]) == Get(byRule, names[k]);
      rules := rules + [r];
      total := Add(total, r);
    }
    assert names[..|names|] == names;
  }

  method ScoreRun(os: seq<Outcome>) returns (rep: Report)
    ensures Distinct(rep.names) && forall n :: n in rep.names <==> n in RulesOf(os)
    ensures rep.names == StableSort(CompareStrings, rep.names)
    ensures |rep.rules| == |rep.names| && forall k :: 0 <= k < |rep.names| ==> rep.rules[k] == OfRule(os, rep.names[k])
    ensures rep.total == OfRules(os, rep.names) == OfRun(os)
    ensures rep.benchErrors == Errors(os) && rep.dockerDisagreements == Disagreements(os)
    ensures rep.sideEffects == Effects(os)
  {
    var byRule := TallyRules(os);
    var errors, disagreements, effects := ListDefects(os);
    var names := SortedKeys(byRule.Keys);
    var rules, total := AddRules(byRule, os, names);
    AddIsSum();
    RulesMakeUpTheRun(Add, ZERO, Unit, os, names);
    rep := Report(names, rules, total, errors, effects, disagreements);
  }

  // ----------------------------------------------------------------- conservation

  lemma AddIsSum()
    ensures IsSum(Add, ZERO)
  {}

  lemma LastTwoSwap<M(!new)>(add: (M, M) -> M, zero: M, x: M, u: M, y: M)
    requires IsSum(add, zero)
    ensures add(add(x, u), y) == add(add(x, y), u)
    ensures add(x, add(y, u)) == add(add(x, y), u)
  {
    assert add(add(x, u), y) == add(x, add(u, y)) == add(x, add(y, u)) == add(add(x, y), u);
  }

  /** A scenario of a listed rule is counted once in the sum over distinct rules. */
  lemma {:induction false} SumTakesOneMore<M(!new)>(add: (M, M) -> M, zero: M, unit: Outcome -> M, os: seq<Outcome>,
                                                    o: Outcome, names: seq<string>)
    requires IsSum(add, zero) && Distinct(names)
    ensures SumRules(add, zero, unit, os + [o], names) ==
            if o.scenario.rule in names then add(SumRules(add, zero, unit, os, names), unit(o))
            else SumRules(add, zero, unit, os, names)
  {
    hide IsSum;
    if names != [] {
      var n := |names| - 1;
      SumTakesOneMore(add, zero, unit, os, o, names[..n]);
      assert (os + [o])[..|os|] == os;
      assert forall x :: x in names <==> x in names[..n] || x == names[n];
      var x, y := SumRules(add, zero, unit, os, names[..n]), SumRule(add, zero, unit, os, names[n]);
      LastTwoSwap(add, zero, x, unit(o), y);
    }
  }

  lemma {:induction false} EmptySum<M(!new)>(add: (M, M) -> M, zero: M, unit: Outcome -> M, names: seq<string>)
    requires IsSum(add, zero)
    ensures SumRules(add, zero, unit, [], names) == zero
  {
    if names != [] { EmptySum(add, zero, unit, names[..|names| - 1]); }
  }

  /** The total over the rules is the count over the run: nothing is lost or counted
      twice. */
  lemma {:induction false} RulesMakeUpTheRun<M(!new)>(add: (M, M) -> M, zero: M, unit: Outcome -> M, os: seq<Outcome>,
                                                      names: seq<string>)
    requires IsSum(add, zero) && Distinct(names) && forall o :: o in os ==> o.scenario.rule in names
    ensures SumRules(add, zero, unit, os, names) == SumRun(add, zero, unit, os)
  {
    if os == [] {
      EmptySum(add, zero, unit, names);
    } else {
      var init, o := os[..|os| - 1], os[|os| - 1];
      RulesMakeUpTheRun(add, zero, unit, init, names);
      assert os == init + [o];
      SumTakesOneMore(add, zero, unit, init, o, names);
    }
  }

  /** The figures of a rule, or of a run, balance. */
  ghost predicate Balanced(r: RuleScore) {
    && r.problems == r.detected + r.missed + r.unknownOnProblem
    && r.falseFindings + r.unknownOnClean <= r.clean
    && r.correctUnknown + r.guessed <= r.insufficientData
    && r.problems + r.clean + r.insufficientData <= r.scored <= r.scenarios
    && r.asSpecified <= r.scored
    && r.unknown <= r.scenarios
  }

  lemma UnitBalances(o: Outcome)
    ensures Balanced(Unit(o)) && Unit(o).scenarios == 1 && Unit(o).scored == One(Scored(o))
  {
    hide Scored;
    if !Scored(o) {
    } else if Decided(o) {
      assert o.predicted != SaidUnknown && o.predicted != SaidManualCheck;
    } else if o.predicted == SaidUnknown {
      assert !SaidClean(o);
    }
  }

  lemma AddBalances(a: RuleScore, b: RuleScore)
    requires Balanced(a) && Balanced(b)
    ensures Balanced(Add(a, b))
  {}

  lemma {:induction false} RuleBalances(os: seq<Outcome>, rule: string)
    ensures Balanced(OfRule(os, rule))
  {
    if os != [] {
      var init, o := os[..|os| - 1], os[|os| - 1];
      RuleBalances(init, rule);
      UnitBalances(o);
      AddBalances(OfRule(init, rule), Unit(o));
    }
  }

  /** Every scenario is scored, or a bench error, or a Docker disagreement. */
  lemma {:induction false} RunBalances(os: seq<Outcome>)
    ensures Balanced(OfRun(os))
    ensures OfRun(os).scenarios == |os|
    ensures OfRun(os).scored + |Errors(os)| + |Disagreements(os)| == |os|
  {
    if os != [] {
      var init, o := os[..|os| - 1], os[|os| - 1];
      RunBalances(init);
      var before, one := OfRun(init), Unit(o);
      UnitBalances(o);
      AddBalances(before, one);
      assert OfRun(os) == Add(before, one);
      DefectsSnoc(os);
      Sums(before, one);
    }
  }

  lemma Sums(a: RuleScore, b: RuleScore)
    ensures Add(a, b).scenarios == a.scenarios + b.scenarios && Add(a, b).scored == a.scored + b.scored
  {}

  lemma DefectsSnoc(os: seq<Outcome>)
    requires os != []
    ensures var init, o := os[..|os| - 1], os[|os| - 1];
            |Errors(os)| + |Disagreements(os)| == |Errors(init)| + |Disagreements(init)| + One(!Scored(o))
  {}

  // ------------------------------------------------------- what the figures count

  /** The scenarios of a rule that have the property. */
  ghost function HowMany(os: seq<Outcome>, rule: string, p: Outcome -> bool): nat {
    if os == [] then 0
    else HowMany(os[..|os| - 1], rule, p) + One(os[|os| - 1].scenario.rule == rule && p(os[|os| - 1]))
  }

  lemma {:induction false} FigureCounts(figure: RuleScore -> nat, p: Outcome -> bool, os: seq<Outcome>, rule: string)
    requires figure(ZERO) == 0 && forall a, b :: figure(Add(a, b)) == figure(a) + figure(b)
    requires forall o :: figure(Unit(o)) == One(p(o))
    ensures figure(OfRule(os, rule)) == HowMany(os, rule, p)
  {
    hide Add;
    hide Unit;
    if os != [] {
      FigureCounts(figure, p, os[..|os| - 1], rule);
    }
  }

  /** All scenarios; those whose ground truth held; of these the ones that came out as
      specified; and all of which the tool said it does not know. */
  lemma RuleFiguresCount(os: seq<Outcome>, rule: string)
    ensures OfRule(os, rule).scenarios == HowMany(os, rule, (o: Outcome) => true)
    ensures OfRule(os, rule).scored ==
            HowMany(os, rule, (o: Outcome) => o.benchError == "" && o.dockerMatch != Some(false))
    ensures OfRule(os, rule).asSpecified ==
            HowMany(os, rule, (o: Outcome) => o.benchError == "" && o.dockerMatch != Some(false) && o.specMatch)
    ensures OfRule(os, rule).unknown == HowMany(os, rule, (o: Outcome) => o.predicted == SaidUnknown)
  {
    hide OfRule;
    FigureCounts((r: RuleScore) => r.scenarios, (o: Outcome) => true, os, rule);
    FigureCounts((r: RuleScore) => r.scored,
                 (o: Outcome) => o.benchError == "" && o.dockerMatch != Some(false), os, rule);
    FigureCounts((r: RuleScore) => r.asSpecified,
                 (o: Outcome) => o.benchError == "" && o.dockerMatch != Some(false) && o.specMatch, os, rule);
    FigureCounts((r: RuleScore) => r.unknown, (o: Outcome) => o.predicted == SaidUnknown, os, rule);
  }

  /** A staged problem is detected by a finding or a refusal. What is left to the reader or
      not known is no detection, and no miss either. */
  lemma ProblemFiguresCount(os: seq<Outcome>, rule: string)
    ensures OfRule(os, rule).problems == HowMany(os, rule, (o: Outcome) =>
              o.benchError == "" && o.dockerMatch != Some(false) && o.scenario.situation == StagedProblem)
    ensures OfRule(os, rule).detected == HowMany(os, rule, (o: Outcome) =>
              o.benchError == "" && o.dockerMatch != Some(false) && o.scenario.situation == StagedProblem &&
              (o.predicted == SaidProblem || o.predicted == SaidRefused))
    ensures OfRule(os, rule).unknownOnProblem == HowMany(os, rule, (o: Outcome) =>
              o.benchError == "" && o.dockerMatch != Some(false) && o.scenario.situation == StagedProblem &&
              (o.predicted == SaidUnknown || o.predicted == SaidManualCheck))
    ensures OfRule(os, rule).missed == HowMany(os, rule, (o: Outcome) =>
              o.benchError == "" && o.dockerMatch != Some(false) && o.scenario.situation == StagedProblem &&
              o.predicted !in {SaidProblem, SaidRefused, SaidUnknown, SaidManualCheck})
  {
    hide OfRule;
    FigureCounts((r: RuleScore) => r.problems, (o: Outcome) =>
              o.benchError == "" && o.dockerMatch != Some(false) && o.scenario.situation == StagedProblem, os, rule);
    FigureCounts((r: RuleScore) => r.detected, (o: Outcome) =>
              o.benchError == "" && o.dockerMatch != Some(false) && o.scenario.situation == StagedProblem &&
              (o.predicted == SaidProblem || o.predicted == SaidRefused), os, rule);
    FigureCounts((r: RuleScore) => r.unknownOnProblem, (o: Outcome) =>
              o.benchError == "" && o.dockerMatch != Some(false) && o.scenario.situation == StagedProblem &&
              (o.predicted == SaidUnknown || o.predicted == SaidManualCheck), os, rule);
    FigureCounts((r: RuleScore) => r.missed, (o: Outcome) =>
              o.benchError == "" && o.dockerMatch != Some(false) && o.scenario.situation == StagedProblem &&
              o.predicted !in {SaidProblem, SaidRefused, SaidUnknown, SaidManualCheck}, os, rule);
  }

  /** On a clean host, or where the rule does not apply, a finding or a refusal is false. */
  lemma CleanFiguresCount(os: seq<Outcome>, rule: string)
    ensures OfRule(os, rule).clean == HowMany(os, rule, (o: Outcome) =>
              o.benchError == "" && o.dockerMatch != Some(false) &&
              o.scenario.situation in {StagedClean, StagedNotApplicable})
    ensures OfRule(os, rule).falseFindings == HowMany(os, rule, (o: Outcome) =>
              o.benchError == "" && o.dockerMatch != Some(false) &&
              o.scenario.situation in {StagedClean, StagedNotApplicable} &&
              (o.predicted == SaidProblem || o.predicted == SaidRefused))
    ensures OfRule(os, rule).unknownOnClean == HowMany(os, rule, (o: Outcome) =>
              o.benchError == "" && o.dockerMatch != Some(false) &&
              o.scenario.situation in {StagedClean, StagedNotApplicable} && o.predicted == SaidUnknown)
  {
    hide OfRule;
    FigureCounts((r: RuleScore) => r.clean, (o: Outcome) =>
              o.benchError == "" && o.dockerMatch != Some(false) &&
              o.scenario.situation in {StagedClean, StagedNotApplicable}, os, rule);
    FigureCounts((r: RuleScore) => r.falseFindings, (o: Outcome) =>
              o.benchError == "" && o.dockerMatch != Some(false) &&
              o.scenario.situation in {StagedClean, StagedNotApplicable} &&
              (o.predicted == SaidProblem || o.predicted == SaidRefused), os, rule);
    FigureCounts((r: RuleScore) => r.unknownOnClean, (o: Outcome) =>
              o.benchError == "" && o.dockerMatch != Some(false) &&
              o.scenario.situation in {StagedClean, StagedNotApplicable} && o.predicted == SaidUnknown, os, rule);
  }

  /** Where the data do not suffice, anything definite is a guess. */
  lemma BlindFiguresCount(os: seq<Outcome>, rule: string)
    ensures OfRule(os, rule).insufficientData == HowMany(os, rule, (o: Outcome) =>
              o.benchError == "" && o.dockerMatch != Some(false) && o.scenario.situation == StagedUnknown)
    ensures OfRule(os, rule).correctUnknown == HowMany(os, rule, (o: Outcome) =>
              o.benchError == "" && o.dockerMatch != Some(false) && o.scenario.situation == StagedUnknown &&
              o.predicted == SaidUnknown)
    ensures OfRule(os, rule).guessed == HowMany(os, rule, (o: Outcome) =>
              o.benchError == "" && o.dockerMatch != Some(false) && o.scenario.situation == StagedUnknown &&
              o.predicted in {SaidProblem, SaidRefused, SaidNoProblem, SaidNotApplicable})
  {
    hide OfRule;
    FigureCounts((r: RuleScore) => r.insufficientData, (o: Outcome) =>
              o.benchError == "" && o.dockerMatch != Some(false) && o.scenario.situation == StagedUnknown, os, rule);
    FigureCounts((r: RuleScore) => r.correctUnknown, (o: Outcome) =>
              o.benchError == "" && o.dockerMatch != Some(false) && o.scenario.situation == StagedUnknown &&
              o.predicted == SaidUnknown, os, rule);
    FigureCounts((r: RuleScore) => r.guessed, (o: Outcome) =>
              o.benchError == "" && o.dockerMatch != Some(false) && o.scenario.situation == StagedUnknown &&
              o.predicted in {SaidProblem, SaidRefused, SaidNoProblem, SaidNotApplicable}, os, rule);
  }

  /** Who is listed: a bench error first of all, then a disagreement with Docker, and side
      effects only where the ground truth held. */
  lemma {:induction false} DefectsAreListed(os: seq<Outcome>, id: string)
    ensures id in Errors(os) <==> exists o :: o in os && o.scenario.id == id && o.benchError != ""
    ensures id in Disagreements(os) <==>
            exists o :: o in os && o.scenario.id == id && o.benchError == "" && o.dockerMatch == Some(false)
    ensures id in Effects(os) <==> exists o ::
              o in os && o.scenario.id == id && o.benchError == "" && o.dockerMatch != Some(false) && o.sideEffects != []
  {
    if os != [] {
      var init, o := os[..|os| - 1], os[|os| - 1];
      DefectsAreListed(init, id);
      assert forall x :: x in os <==> x in init || x == o;
    }
  }

  // ------------------------------------------------------------------- comparison

  predicate Passed(o: Outcome) { o.benchError == "" && o.specMatch && !Disagrees(o) && o.sideEffects == [] }

  datatype Kind = Changed | Fixed | New | Regression | Removed

  /** One scenario that moved: what was said of it before, what is said now. */
  datatype Change = Change(scenario: string, before: Option<Prediction>, after: Option<Prediction>, kind: Kind)

  /** By id; of two outcomes of one id the last counts. */
  function Before(os: seq<Outcome>): (m: map<string, Outcome>)
    ensures forall id :: id in m <==> exists o :: o in os && o.scenario.id == id
    ensures forall id :: id in m ==> m[id] in os && m[id].scenario.id == id
  {
    if os == [] then map[]
    else
      var last := os[|os| - 1];
      assert forall o :: o in os <==> o in os[..|os| - 1] || o == last;
      Before(os[..|os| - 1])[last.scenario.id := last]
  }

  /** How one scenario of the new run moved. */
  function Move(before: map<string, Outcome>, o: Outcome): Option<Kind> {
    if o.scenario.id !in before then Some(New)
    else
      var b := before[o.scenario.id];
      if Passed(b) && !Passed(o) then Some(Regression)
      else if !Passed(b) && Passed(o) then Some(Fixed)
      else if b.predicted != o.predicted then Some(Changed)
      else None
  }

  function Moves(before: map<string, Outcome>, os: seq<Outcome>): seq<Change> {
    if os == [] then []
    else
      var o := os[|os| - 1];
      var was := if o.scenario.id in before then Some(before[o.scenario.id].predicted) else None;
      var kind := Move(before, o);
      Moves(before, os[..|os| - 1]) +
      if kind.Some? then [Change(o.scenario.id, was, Some(o.predicted), kind.value)] else []
  }

  function Removals(os: seq<Outcome>, seen: set<string>): seq<Change> {
    if os == [] then []
    else
      var b := os[|os| - 1];
      Removals(os[..|os| - 1], seen) +
      if b.scenario.id !in seen then [Change(b.scenario.id, Some(b.predicted), None, Removed)] else []
  }

  function Differences(baseline: seq<Outcome>, current: seq<Outcome>): seq<Change> {
    Moves(Before(baseline), current) + Removals(baseline, Before(current).Keys)
  }

  function KindOrder(k: Kind): int {
    match k
    case Changed => 0
    case Fixed => 1
    case New => 2
    case Regression => 3
    case Removed => 4
  }

  function CompareChanges(a: Change, b: Change): int {
    if a.kind != b.kind then Sign(KindOrder(a.kind) - KindOrder(b.kind)) else CompareStrings(a.scenario, b.scenario)
  }

  /** The kinds come in the order of their names, changes of one kind in that of their
      scenarios. */
  lemma ChangesAreOrdered(a: Change, b: Change)
    ensures a.kind == b.kind ==> CompareChanges(a, b) == CompareStrings(a.scenario, b.scenario)
    ensures a.kind.Changed? && (b.kind.Fixed? || b.kind.New? || b.kind.Regression? || b.kind.Removed?) ==>
              CompareChanges(a, b) == -1 && CompareChanges(b, a) == 1
    ensures a.kind.Fixed? && (b.kind.New? || b.kind.Regression? || b.kind.Removed?) ==>
              CompareChanges(a, b) == -1 && CompareChanges(b, a) == 1
    ensures a.kind.New? && (b.kind.Regression? || b.kind.Removed?) ==>
              CompareChanges(a, b) == -1 && CompareChanges(b, a) == 1
    ensures a.kind.Regression? && b.kind.Removed? ==> CompareChanges(a, b) == -1 && CompareChanges(b, a) == 1
  {}

  lemma ChangesArePreordered()
    ensures Preorder(CompareChanges)
  {
    StringsArePreordered();
    forall a, b ensures CompareChanges(a, b) == -CompareChanges(b, a) {
      CompareStringsFlips(a.scenario, b.scenario);
    }
    forall a, b, c | CompareChanges(a, b) <= 0 && CompareChanges(b, c) <= 0 ensures CompareChanges(a, c) <= 0 {
      if a.kind == b.kind == c.kind { CompareStringsTransitive(a.scenario, b.scenario, c.scenario); }
    }
  }

  lemma NothingSeen()
    ensures Before([]).Keys == {}
  {}

  lemma NextSeen(os: seq<Outcome>, n: nat)
    requires n < |os|
    ensures Before(os[..n + 1]).Keys == Before(os[..n]).Keys + {os[n].scenario.id}
  {
    assert os[..n + 1][..n] == os[..n];
  }

  method CompareCurrent(before: map<string, Outcome>, current: seq<Outcome>) returns (out: seq<Change>, seen: set<string>)
    ensures seen == Before(current).Keys
    ensures out == Moves(before, current)
  {
    hide Passed;
    hide Before;
    NothingSeen();
    out, seen := [], {};
    for n := 0 to |current|
      invariant seen == Before(current[..n]).Keys
      invariant out == Moves(before, current[..n])
    {
      var o := current[n];
      assert current[..n + 1][..n] == current[..n];
      NextSeen(current, n);
      seen := seen + {o.scenario.id};
      if o.scenario.id !in before {
        out := out + [Change(o.scenario.id, None, Some(o.predicted), New)];
        continue;
      }
      var b := before[o.scenario.id];
      if Passed(b) && !Passed(o) {
        out := out + [Change(o.scenario.id, Some(b.predicted), Some(o.predicted), Regression)];
      } else if !Passed(b) && Passed(o) {
        out := out + [Change(o.scenario.id, Some(b.predicted), Some(o.predicted), Fixed)];
      } else if b.predicted != o.predicted {
        out := out + [Change(o.scenario.id, Some(b.predicted), Some(o.predicted), Changed)];
      }
    }
    assert current[..|current|] == current;
  }

  method CompareBaseline(changes: seq<Change>, seen: set<string>, baseline: seq<Outcome>) returns (out: seq<Change>)
    ensures out == changes + Removals(baseline, seen)
  {
    out := changes;
    for n := 0 to |baseline|
      invariant out == changes + Removals(baseline[..n], seen)
    {
      var b := baseline[n];
      assert baseline[..n + 1][..n] == baseline[..n];
      if b.scenario.id !in seen {
        out := out + [Change(b.scenario.id, Some(b.predicted), None, Removed)];
      }
    }
    assert baseline[..|baseline|] == baseline;
  }

  method Compare(baseline: seq<Outcome>, current: seq<Outcome>) returns (out: seq<Change>)
    ensures out == StableSort(CompareChanges, Differences(baseline, current))
  {
    hide StableSort;
    var changes, seen := CompareCurrent(Before(baseline), current);
    changes := CompareBaseline(changes, seen, baseline);
    out := StableSort(CompareChanges, changes);
  }

  predicate Has(changes: seq<Change>, kind: Kind) { exists c :: c in changes && c.kind == kind }

  ghost predicate Regresses(baseline: seq<Outcome>, current: seq<Outcome>) {
    exists o :: o in current && Move(Before(baseline), o) == Some(Regression)
  }

  ghost predicate Loses(baseline: seq<Outcome>, current: seq<Outcome>) {
    exists b :: b in baseline && b.scenario.id !in Before(current)
  }

  lemma HasOneMore(changes: seq<Change>, c: Change, kind: Kind)
    ensures Has(changes + [c], kind) <==> Has(changes, kind) || c.kind == kind
  {}

  lemma {:induction false} MovesHave(before: map<string, Outcome>, os: seq<Outcome>, kind: Kind)
    ensures Has(Moves(before, os), kind) <==> exists o :: o in os && Move(before, o) == Some(kind)
  {
    hide Move;
    if os != [] {
      var init, o := os[..|os| - 1], os[|os| - 1];
      MovesHave(before, init, kind);
      assert forall x :: x in os <==> x in init || x == o;
      if Move(before, o).Some? {
        HasOneMore(Moves(before, init), Moves(before, os)[|Moves(before, init)|], kind);
      }
    }
  }

  lemma {:induction false} RemovalsHave(os: seq<Outcome>, seen: set<string>, kind: Kind)
    ensures Has(Removals(os, seen), kind) <==> kind == Removed && exists b :: b in os && b.scenario.id !in seen
  {
    if os != [] {
      var init, b := os[..|os| - 1], os[|os| - 1];
      RemovalsHave(init, seen, kind);
      assert forall x :: x in os <==> x in init || x == b;
      if b.scenario.id !in seen {
        HasOneMore(Removals(init, seen), Removals(os, seen)[|Removals(init, seen)|], kind);
      }
    }
  }

  lemma HasEither(xs: seq<Change>, ys: seq<Change>, kind: Kind)
    ensures Has(xs + ys, kind) <==> Has(xs, kind) || Has(ys, kind)
  {}

  lemma NothingMovesAway(before: map<string, Outcome>, os: seq<Outcome>)
    ensures forall o :: o in os ==> Move(before, o) != Some(Removed)
  {}

  /** A change that blocks is reported exactly when a scenario regressed or went missing. */
  lemma DifferencesHave(baseline: seq<Outcome>, current: seq<Outcome>)
    ensures Has(Differences(baseline, current), Regression) <==> Regresses(baseline, current)
    ensures Has(Differences(baseline, current), Removed) <==> Loses(baseline, current)
  {
    hide Moves;
    hide Removals;
    hide Before;
    hide Move;
    var before, seen := Before(baseline), Before(current).Keys;
    HasEither(Moves(before, current), Removals(baseline, seen), Regression);
    HasEither(Moves(before, current), Removals(baseline, seen), Removed);
    NothingMovesAway(before, current);
    MovesHave(before, current, Regression);
    MovesHave(before, current, Removed);
    RemovalsHave(baseline, seen, Regression);
    RemovalsHave(baseline, seen, Removed);
  }

  lemma SortKeepsKinds(changes: seq<Change>, kind: Kind)
    ensures Has(StableSort(CompareChanges, changes), kind) <==> Has(changes, kind)
  {
    hide StableSort;
    var out := StableSort(CompareChanges, changes);
    forall c ensures c in out <==> c in changes {
      assert c in out <==> c in multiset(out);
      assert c in changes <==> c in multiset(changes);
    }
  }

  // ------------------------------------------------------------------------- gate

  datatype Reason =
    | BenchError(id: string)
    | GroundTruthBroken(id: string)
    | AuditChanged(id: string, effects: seq<string>)
    | CriticalFails(id: string, expected: Prediction, predicted: Prediction)
    | RegressionTestFails(id: string, defect: string, expected: Prediction, predicted: Prediction)
    | Moved(change: Change)

  /** A scenario that alone blocks the release. */
  predicate Blocks(o: Outcome) {
    o.benchError != "" || Disagrees(o) || o.sideEffects != [] ||
    (!o.specMatch && (o.scenario.critical || o.scenario.regression != ""))
  }

  /** Why it does: the first reason that applies. */
  function ReasonOf(o: Outcome): (r: Option<Reason>)
    ensures r.Some? <==> Blocks(o)
  {
    var id := o.scenario.id;
    if o.benchError != "" then Some(BenchError(id))
    else if Disagrees(o) then Some(GroundTruthBroken(id))
    else if o.sideEffects != [] then Some(AuditChanged(id, o.sideEffects))
    else if !o.specMatch && o.scenario.critical then Some(CriticalFails(id, o.scenario.expected, o.predicted))
    else if !o.specMatch && o.scenario.regression != "" then
      Some(RegressionTestFails(id, o.scenario.regression, o.scenario.expected, o.predicted))
    else None
  }

  function ScenarioReasons(os: seq<Outcome>): (rs: seq<Reason>)
    ensures rs == [] <==> forall o :: o in os ==> !Blocks(o)
  {
    if os == [] then []
    else
      var init, o := os[..|os| - 1], os[|os| - 1];
      assert forall x :: x in os <==> x in init || x == o;
      ScenarioReasons(init) + if ReasonOf(o).Some? then [ReasonOf(o).value] else []
  }

  function ChangeReasons(changes: seq<Change>): (rs: seq<Reason>)
    ensures rs == [] <==> !Has(changes, Regression) && !Has(changes, Removed)
  {
    if changes == [] then []
    else
      var init, c := changes[..|changes| - 1], changes[|changes| - 1];
      assert changes == init + [c];
      HasOneMore(init, c, Regression);
      HasOneMore(init, c, Removed);
      ChangeReasons(init) + if c.kind == Regression || c.kind == Removed then [Moved(c)] else []
  }

  function GateReasons(current: seq<Outcome>, baseline: Option<seq<Outcome>>): seq<Reason> {
    ScenarioReasons(current) +
    if baseline.None? then []
    else ChangeReasons(StableSort(CompareChanges, Differences(baseline.value, current)))
  }

  method GateScenarios(current: seq<Outcome>) returns (reasons: seq<Reason>)
    ensures reasons == ScenarioReasons(current)
  {
    reasons := [];
    for n := 0 to |current|
      invariant reasons == ScenarioReasons(current[..n])
    {
      var o := current[n];
      assert current[..n + 1][..n] == current[..n];
      if o.benchError != "" {
        reasons := reasons + [BenchError(o.scenario.id)];
      } else if o.dockerMatch == Some(false) {
        reasons := reasons + [GroundTruthBroken(o.scenario.id)];
      } else if |o.sideEffects| > 0 {
        reasons := reasons + [AuditChanged(o.scenario.id, o.sideEffects)];
      } else if !o.specMatch && o.scenario.critical {
        reasons := reasons + [CriticalFails(o.scenario.id, o.scenario.expected, o.predicted)];
      } else if !o.specMatch && o.scenario.regression != "" {
        reasons := reasons +
          [RegressionTestFails(o.scenario.id, o.scenario.regression, o.scenario.expected, o.predicted)];
      }
    }
    assert current[..|current|] == current;
  }

  method GateChanges(changes: seq<Change>) returns (reasons: seq<Reason>)
    ensures reasons == ChangeReasons(changes)
  {
    reasons := [];
    for n := 0 to |changes|
      invariant reasons == ChangeReasons(changes[..n])
    {
      assert changes[..n + 1][..n] == changes[..n];
      if changes[n].kind == Regression || changes[n].kind == Removed {
        reasons := reasons + [Moved(changes[n])];
      }
    }
    assert changes[..|changes|] == changes;
  }

  /** Each scenario gives its own reason, whatever the others do. */
  lemma {:induction false} ReasonsJoin(xs: seq<Outcome>, ys: seq<Outcome>)
    ensures ScenarioReasons(xs + ys) == ScenarioReasons(xs) + ScenarioReasons(ys)
  {
    hide ReasonOf;
    hide Blocks;
    if ys == [] {
      assert xs + ys == xs && ScenarioReasons(ys) == [];
    } else {
      var all, n := xs + ys, |ys| - 1;
      var last := if ReasonOf(ys[n]).Some? then [ReasonOf(ys[n]).value] else [];
      ReasonsJoin(xs, ys[..n]);
      assert all[..|all| - 1] == xs + ys[..n] && all[|all| - 1] == ys[n];
      assert ScenarioReasons(all) == ScenarioReasons(xs + ys[..n]) + last;
      assert ScenarioReasons(ys) == ScenarioReasons(ys[..n]) + last;
      var x, y := ScenarioReasons(xs), ScenarioReasons(ys[..n]);
      assert x + (y + last) == (x + y) + last;
    }
  }

  /** Which reason one scenario gives: a bench error, a broken ground truth, a change the
      audit made, and only then a critical scenario or a regression test that fails. */
  lemma ReasonIs(o: Outcome)
    ensures o.benchError != "" ==> GateReasons([o], None) == [BenchError(o.scenario.id)]
    ensures o.benchError == "" && o.dockerMatch == Some(false) ==>
              GateReasons([o], None) == [GroundTruthBroken(o.scenario.id)]
    ensures o.benchError == "" && o.dockerMatch != Some(false) && o.sideEffects != [] ==>
              GateReasons([o], None) == [AuditChanged(o.scenario.id, o.sideEffects)]
    ensures o.benchError == "" && o.dockerMatch != Some(false) && o.sideEffects == [] && !o.specMatch ==>
              GateReasons([o], None) ==
              if o.scenario.critical then [CriticalFails(o.scenario.id, o.scenario.expected, o.predicted)]
              else if o.scenario.regression != "" then
                [RegressionTestFails(o.scenario.id, o.scenario.regression, o.scenario.expected, o.predicted)]
              else []
    ensures o.benchError == "" && o.dockerMatch != Some(false) && o.sideEffects == [] && o.specMatch ==>
              GateReasons([o], None) == []
  {
    assert [o][..0] == [];
    assert GateReasons([o], None) == ScenarioReasons([]) + if ReasonOf(o).Some? then [ReasonOf(o).value] else [];
  }

  method Gate(current: seq<Outcome>, baseline: Option<seq<Outcome>>) returns (reasons: seq<Reason>)
    ensures reasons == GateReasons(current, baseline)
  {
    hide StableSort;
    hide ChangeReasons;
    hide ScenarioReasons;
    reasons := GateScenarios(current);
    if baseline.Some? {
      var changes := Compare(baseline.value, current);
      var moved := GateChanges(changes);
      reasons := reasons + moved;
    }
  }

  /** Nothing blocks: no scenario by itself, and against a baseline no regression and no
      missing scenario. A scenario blocks by an error of the bench, a ground truth that did
      not hold, a change the audit made, or by failing while it is critical or a regression
      test. */
  lemma GateIsEmptyExactlyWhen(current: seq<Outcome>, baseline: Option<seq<Outcome>>)
    ensures GateReasons(current, baseline) == [] <==>
            && (forall o :: o in current ==>
                  && o.benchError == "" && o.dockerMatch != Some(false) && o.sideEffects == []
                  && (o.specMatch || (!o.scenario.critical && o.scenario.regression == "")))
            && (baseline.Some? ==> !Regresses(baseline.value, current) && !Loses(baseline.value, current))
  {
    hide StableSort;
    hide Differences;
    hide Regresses;
    hide Loses;
    hide Has;
    hide Blocks;
    hide ScenarioReasons;
    hide ChangeReasons;
    forall o { BlocksExactlyWhen(o); }
    if baseline.Some? {
      var changes := Differences(baseline.value, current);
      SortKeepsKinds(changes, Regression);
      SortKeepsKinds(changes, Removed);
      DifferencesHave(baseline.value, current);
    }
  }

  lemma BlocksExactlyWhen(o: Outcome)
    ensures Blocks(o) <==>
            !(&& o.benchError == "" && o.dockerMatch != Some(false) && o.sideEffects == []
              && (o.specMatch || (!o.scenario.critical && o.scenario.regression == "")))
  {}

  ghost predicate UniqueIds(os: seq<Outcome>) {
    forall i, j :: 0 <= i < j < |os| ==> os[i].scenario.id != os[j].scenario.id
  }

  ghost predicate GatePasses(current: seq<Outcome>, baseline: seq<Outcome>) {
    (forall o :: o in current ==> !Blocks(o)) && !Regresses(baseline, current) && !Loses(baseline, current)
  }

  ghost predicate StillPasses(b: Outcome, current: seq<Outcome>) {
    exists o :: o in current && o.scenario.id == b.scenario.id && (Passed(b) ==> Passed(o))
  }

  lemma UniqueIsBefore(os: seq<Outcome>, o: Outcome)
    requires UniqueIds(os) && o in os
    ensures o.scenario.id in Before(os) && Before(os)[o.scenario.id] == o
  {
    hide Before;
    var k, id := Before(os), o.scenario.id;
    assert k[id] in os && k[id].scenario.id == id;
    SameIdIsSame(os, k[id], o);
  }

  lemma SameIdIsSame(os: seq<Outcome>, a: Outcome, b: Outcome)
    requires UniqueIds(os) && a in os && b in os && a.scenario.id == b.scenario.id
    ensures a == b
  {}

  lemma PassedGateKeeps(current: seq<Outcome>, baseline: seq<Outcome>, b: Outcome)
    requires UniqueIds(baseline) && b in baseline
    requires !Regresses(baseline, current) && !Loses(baseline, current)
    ensures StillPasses(b, current)
  {
    hide Before;
    UniqueIsBefore(baseline, b);
    var o := Before(current)[b.scenario.id];
    assert Move(Before(baseline), o) != Some(Regression);
  }

  lemma KeptIsNoRegression(current: seq<Outcome>, baseline: seq<Outcome>, o: Outcome)
    requires UniqueIds(current) && o in current && forall b :: b in baseline ==> StillPasses(b, current)
    ensures Move(Before(baseline), o) != Some(Regression)
  {}

  /** For runs with unique ids, an empty gate means every baseline scenario is still
      there, and what passed still passes. */
  lemma GateKeepsEveryScenario(current: seq<Outcome>, baseline: seq<Outcome>)
    requires UniqueIds(baseline) && UniqueIds(current)
    ensures GatePasses(current, baseline) <==>
            (forall o :: o in current ==> !Blocks(o)) && (forall b :: b in baseline ==> StillPasses(b, current))
  {
    hide Before;
    hide Move;
    if GatePasses(current, baseline) {
      forall b | b in baseline ensures StillPasses(b, current) {
        PassedGateKeeps(current, baseline, b);
      }
    } else if forall b :: b in baseline ==> StillPasses(b, current) {
      forall o | o in current ensures Move(Before(baseline), o) != Some(Regression) {
        KeptIsNoRegression(current, baseline, o);
      }
      forall b | b in baseline ensures b.scenario.id in Before(current) {
        assert StillPasses(b, current);
      }
    }
  }

  /** The same, with what blocking and passing mean written out. */
  lemma EmptyGateMeans(current: seq<Outcome>, baseline: seq<Outcome>)
    requires UniqueIds(baseline) && UniqueIds(current)
    ensures GateReasons(current, Some(baseline)) == [] <==>
            && (forall o :: o in current ==>
                  && o.benchError == "" && o.dockerMatch != Some(false) && o.sideEffects == []
                  && (o.specMatch || (!o.scenario.critical && o.scenario.regression == "")))
            && (forall b :: b in baseline ==> exists o ::
                  && o in current && o.scenario.id == b.scenario.id
                  && (b.benchError == "" && b.specMatch && b.dockerMatch != Some(false) && b.sideEffects == [] ==>
                        o.benchError == "" && o.specMatch && o.dockerMatch != Some(false) && o.sideEffects == []))
  {
    hide GateReasons;
    hide Regresses;
    hide Loses;
    hide UniqueIds;
    GateIsEmptyExactlyWhen(current, Some(baseline));
    GateKeepsEveryScenario(current, baseline);
    forall o { BlocksExactlyWhen(o); }
    forall b ensures StillPasses(b, current) <==> exists o ::
        && o in current && o.scenario.id == b.scenario.id
        && (b.benchError == "" && b.specMatch && b.dockerMatch != Some(false) && b.sideEffects == [] ==>
              o.benchError == "" && o.specMatch && o.dockerMatch != Some(false) && o.sideEffects == [])
    {}
  }

  /** How a scenario of the baseline moved: it regressed when it passed and now fails, by an
      error of the bench, a ground truth that did not hold, another outcome than specified or
      a change the audit made; it is fixed the other way round; else only what is said of it
      may have changed. A scenario the baseline does not have is new. */
  lemma MoveIs(baseline: seq<Outcome>, b: Outcome, o: Outcome)
    requires UniqueIds(baseline) && b in baseline && b.scenario.id == o.scenario.id
    ensures var passed := b.benchError == "" && b.specMatch && b.dockerMatch != Some(false) && b.sideEffects == [];
            var passes := o.benchError == "" && o.specMatch && o.dockerMatch != Some(false) && o.sideEffects == [];
            Move(Before(baseline), o) ==
            if passed && !passes then Some(Regression)
            else if !passed && passes then Some(Fixed)
            else if b.predicted != o.predicted then Some(Changed) else None
  {
    hide Before;
    UniqueIsBefore(baseline, b);
  }

  lemma NewIsNew(baseline: seq<Outcome>, o: Outcome)
    requires forall b :: b in baseline ==> b.scenario.id != o.scenario.id
    ensures Move(Before(baseline), o) == Some(New)
  {}

  /** A change names its scenario and what was and is said of it. */
  lemma {:induction false} MovesAre(before: map<string, Outcome>, os: seq<Outcome>, o: Outcome)
    requires o in os && Move(before, o).Some?
    ensures Change(o.scenario.id, if o.scenario.id in before then Some(before[o.scenario.id].predicted) else None,
                   Some(o.predicted), Move(before, o).value) in Moves(before, os)
  {
    hide Move;
    var init := os[..|os| - 1];
    if o != os[|os| - 1] {
      assert o in init;
      MovesAre(before, init, o);
    }
  }

  lemma {:induction false} RemovalsAre(os: seq<Outcome>, seen: set<string>, b: Outcome)
    requires b in os && b.scenario.id !in seen
    ensures Change(b.scenario.id, Some(b.predicted), None, Removed) in Removals(os, seen)
  {
    var init := os[..|os| - 1];
    if b != os[|os| - 1] {
      assert b in init;
      RemovalsAre(init, seen, b);
    }
  }

  lemma {:induction false} ChangeReasonsAre(changes: seq<Change>, c: Change)
    ensures Moved(c) in ChangeReasons(changes) <==> c in changes && (c.kind == Regression || c.kind == Removed)
  {
    if changes != [] {
      var init := changes[..|changes| - 1];
      ChangeReasonsAre(init, c);
      assert forall x :: x in changes <==> x in init || x == changes[|changes| - 1];
    }
  }

  lemma SortKeepsChanges(changes: seq<Change>, c: Change)
    ensures c in StableSort(CompareChanges, changes) <==> c in changes
  {
    hide StableSort;
    assert c in changes <==> c in multiset(changes);
    var sorted := StableSort(CompareChanges, changes);
    assert c in sorted <==> c in multiset(sorted);
  }

  /** Every regression and every missing scenario is a reason, with what was and is said. */
  lemma RegressionsAreReasons(current: seq<Outcome>, baseline: seq<Outcome>, b: Outcome)
    requires UniqueIds(baseline) && b in baseline
    ensures b.benchError == "" && b.specMatch && b.dockerMatch != Some(false) && b.sideEffects == [] ==>
              forall o | o in current && o.scenario.id == b.scenario.id &&
                  (o.benchError != "" || !o.specMatch || o.dockerMatch == Some(false) || o.sideEffects != []) ::
                Moved(Change(b.scenario.id, Some(b.predicted), Some(o.predicted), Regression))
                in GateReasons(current, Some(baseline))
    ensures (forall o :: o in current ==> o.scenario.id != b.scenario.id) ==>
              Moved(Change(b.scenario.id, Some(b.predicted), None, Removed)) in GateReasons(current, Some(baseline))
  {
    hide Before;
    hide Move;
    hide Passed;
    hide StableSort;
    hide ScenarioReasons;
    hide Moves;
    hide Removals;
    UniqueIsBefore(baseline, b);
    var changes := Differences(baseline, current);
    forall c: Change | c in changes && (c.kind == Regression || c.kind == Removed)
      ensures Moved(c) in GateReasons(current, Some(baseline))
    {
      SortKeepsChanges(changes, c);
      ChangeReasonsAre(StableSort(CompareChanges, changes), c);
    }
    forall o | o in current && o.scenario.id == b.scenario.id
      && b.benchError == "" && b.specMatch && b.dockerMatch != Some(false) && b.sideEffects == []
      && (o.benchError != "" || !o.specMatch || o.dockerMatch == Some(false) || o.sideEffects != [])
      ensures Change(b.scenario.id, Some(b.predicted), Some(o.predicted), Regression) in changes
    {
      MoveIs(baseline, b, o);
      MovesAre(Before(baseline), current, o);
    }
    if forall o :: o in current ==> o.scenario.id != b.scenario.id {
      RemovalsAre(baseline, Before(current).Keys, b);
    }
  }

  /** Every release gated against the one before it. */
  ghost predicate ReleaseChain(runs: seq<seq<Outcome>>) {
    (forall k :: 0 <= k < |runs| ==> UniqueIds(runs[k])) &&
    (forall k :: 0 < k < |runs| ==> GatePasses(runs[k], runs[k - 1]))
  }

  /** Over any number of releases, a scenario that ever passed is in the last run, and
      passes there. */
  lemma {:induction false} PassedOnceStaysPassed(runs: seq<seq<Outcome>>, k: nat, b: Outcome)
    requires ReleaseChain(runs) && k < |runs| && b in runs[k] && Passed(b)
    ensures exists o :: o in runs[|runs| - 1] && o.scenario.id == b.scenario.id && Passed(o)
    decreases |runs| - k
  {
    if k + 1 < |runs| {
      assert GatePasses(runs[k + 1], runs[k + 1 - 1]);
      GateKeepsEveryScenario(runs[k + 1], runs[k]);
      assert StillPasses(b, runs[k + 1]);
      var o :| o in runs[k + 1] && o.scenario.id == b.scenario.id && (Passed(b) ==> Passed(o));
      PassedOnceStaysPassed(runs, k + 1, o);
    }
  }
}
