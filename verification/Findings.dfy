/**
 The vocabulary of app/model/preflight.go: what a check concludes, how much attention
 it deserves, and how completely the host was read.
 */
module Findings {

  /** `Unstated` is the empty string a rule that forgot to say leaves behind. */
  datatype Outcome = Problem | Unknown | ManualCheck | NoProblem | NotApplicable | Unstated | OtherOutcome(text: string)

  /** The most urgent outcome ranks lowest. */
  function OutcomeRank(o: Outcome): nat {
    match o
    case Problem => 0
    case Unknown => 1
    case ManualCheck => 2
    case NoProblem => 3
    case NotApplicable => 4
    case _ => 5
  }

  datatype Severity = Blocker | Warning | Info | OtherSeverity(text: string)

  function SeverityRank(s: Severity): nat {
    match s
    case Blocker => 0
    case Warning => 1
    case Info => 2
    case _ => 3
  }

  datatype ObservationState = Complete | Partial | Failed | NotCollected

  datatype Observation = Observation(source: string, state: ObservationState, note: string, at: string)

  /** The first record of the source; without one it counts as not collected. */
  function Observed(observations: seq<Observation>, source: string): Observation {
    if observations == [] then Observation(source, NotCollected, "", "")
    else if observations[0].source == source then observations[0]
    else Observed(observations[1..], source)
  }

  /** The records once `o` replaces the first one of its source, or joins them. */
  function Recorded(observations: seq<Observation>, o: Observation): seq<Observation> {
    if observations == [] then [o]
    else if observations[0].source == o.source then [o] + observations[1..]
    else [observations[0]] + Recorded(observations[1..], o)
  }

  class Capabilities {
    var observations: seq<Observation>

    constructor ()
      ensures observations == []
    {
      observations := [];
    }

    /** The list as `Recorded` has it: one entry of the source, the latest. */
    method ObserveAt(source: string, state: ObservationState, note: string, at: string)
      modifies this
      ensures observations == Recorded(old(observations), Observation(source, state, note, at))
    {
      hide Recorded;
      var o := Observation(source, state, note, at);
      assert observations[0..] == observations;
      for i := 0 to |observations|
        invariant observations == old(observations)
        invariant Recorded(observations, o) == observations[..i] + Recorded(observations[i..], o)
      {
        RecordedStep(observations, i, o);
        if observations[i].source == source {
          assert observations[i := o] == observations[..i] + ([o] + observations[i + 1..]);
          observations := observations[i := o];
          return;
        }
        assert observations[..i] + [observations[i]] == observations[..i + 1];
      }
      assert observations[..|observations|] == observations && observations[|observations|..] == [];
      RecordedFirst(o);
      observations := observations + [o];
    }
  }

  lemma RecordedStep(os: seq<Observation>, i: nat, o: Observation)
    requires i < |os|
    ensures Recorded(os[i..], o) ==
            if os[i].source == o.source then [o] + os[i + 1..] else [os[i]] + Recorded(os[i + 1..], o)
  {
    assert os[i..][1..] == os[i + 1..];
  }

  lemma RecordedFirst(o: Observation)
    ensures Recorded([], o) == [o]
  {}

  /** The new record takes the place of the first of its source, or comes last. */
  lemma {:induction false} RecordedInPlace(before: seq<Observation>, p: Observation, after: seq<Observation>, o: Observation)
    requires (forall q :: q in before ==> q.source != o.source) && p.source == o.source
    ensures Recorded(before + [p] + after, o) == before + [o] + after
    ensures Recorded(before, o) == before + [o]
  {
    var all := before + [p] + after;
    if before == [] {
      assert all[0] == p && all[1..] == after;
    } else {
      assert before[0] in before && all[0] == before[0] && all[1..] == before[1..] + [p] + after;
      RecordedInPlace(before[1..], p, after, o);
    }
  }

  /** A record answers for its own source at once, and disturbs the answer of no other. */
  lemma {:induction false} RecordAnswersForItsSource(os: seq<Observation>, o: Observation, source: string)
    ensures Observed(Recorded(os, o), source) == if source == o.source then o else Observed(os, source)
  {
    if os != [] && os[0].source != o.source {
      RecordAnswersForItsSource(os[1..], o, source);
      assert Recorded(os, o)[1..] == Recorded(os[1..], o);
    }
  }

  /** The first record of a source is its answer, and a source nobody recorded was not
      collected. */
  lemma {:induction false} FirstRecordAnswers(before: seq<Observation>, o: Observation, after: seq<Observation>)
    requires forall p :: p in before ==> p.source != o.source
    ensures Observed(before + [o] + after, o.source) == o
    ensures Observed(before, o.source).state == NotCollected
  {
    var all := before + [o] + after;
    if before == [] {
      assert all[0] == o;
    } else {
      assert before[0] in before && all[0] == before[0] && all[1..] == before[1..] + [o] + after;
      FirstRecordAnswers(before[1..], o, after);
    }
  }

  /** How many records a source has. */
  function Records(os: seq<Observation>, source: string): nat {
    if os == [] then 0 else (if os[0].source == source then 1 else 0) + Records(os[1..], source)
  }

  /** Starting from no records, no source ever has two. */
  lemma {:induction false} OneRecordPerSource(os: seq<Observation>, o: Observation, source: string)
    ensures Records(Recorded(os, o), source) ==
            if source == o.source && Records(os, source) == 0 then 1 else Records(os, source)
  {
    if os != [] {
      var next := Recorded(os, o);
      if os[0].source == o.source {
        assert next[1..] == os[1..];
      } else {
        OneRecordPerSource(os[1..], o, source);
        assert next[1..] == Recorded(os[1..], o);
      }
    }
  }
}
