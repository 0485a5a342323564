/**
 OSV records and the version ranges they apply to: app/vuln/osv.go, after the OSV
 Schema's "affected[].ranges[].events fields" and its "Evaluation" section.
 */
module Osv {
  import opened Text
  import opened Ordering

  type Compare = (string, string) -> int

  datatype Event = Event(introduced: string, fixed: string, lastAffected: string, limit: string)

  datatype Range = Range(kind: string, events: seq<Event>)

  datatype Affected = Affected(ecosystem: string, name: string, ranges: seq<Range>, versions: seq<string>)

  datatype Entry = Entry(id: string, withdrawn: string, affected: seq<Affected>)

  // -------------------------------------------------------------------- events

  /** What one event says: the first field that is set decides. */
  datatype Boundary = Opens(at: string) | ClosesAt(at: string) | ClosesAfter(at: string) | Nothing

  function BoundaryOf(e: Event): Boundary {
    if e.introduced != "" then Opens(e.introduced)
    else if e.fixed != "" then ClosesAt(e.fixed)
    else if e.lastAffected != "" then ClosesAfter(e.lastAffected)
    else if e.limit != "" then ClosesAt(e.limit)
    else Nothing
  }

  /** It introduces nothing and names a fix, a last affected version or a limit. */
  predicate Closes(e: Event) { e.introduced == "" && (e.fixed != "" || e.lastAffected != "" || e.limit != "") }

  /** The version is at or past the opening; "0" is before every version. */
  predicate Reached(e: Event, version: string, cmp: Compare) {
    BoundaryOf(e).Opens? && (e.introduced == "0" || cmp(version, e.introduced) >= 0)
  }

  predicate Passed(e: Event, version: string, cmp: Compare) {
    match BoundaryOf(e)
    case ClosesAt(at) => cmp(version, at) >= 0
    case ClosesAfter(at) => cmp(version, at) > 0
    case _ => false
  }

  /** What the walk decides: some opening is reached and no later closing is passed. */
  ghost predicate Affects(events: seq<Event>, version: string, cmp: Compare) {
    exists k :: 0 <= k < |events| && Reached(events[k], version, cmp) && NonePassed(events, k, version, cmp)
  }

  ghost predicate NonePassed(events: seq<Event>, k: int, version: string, cmp: Compare) {
    forall j :: k < j < |events| && 0 <= j ==> !Passed(events[j], version, cmp)
  }

  /** The version the last `fixed` event names. */
  function LastFixed(events: seq<Event>): string {
    if events == [] then ""
    else
      var b := BoundaryOf(events[|events| - 1]);
      if b.ClosesAt? && events[|events| - 1].fixed != "" then b.at else LastFixed(events[..|events| - 1])
  }

  method MatchRange(r: Range, version: string, cmp: Compare) returns (affected: bool, fixed: string)
    ensures affected == Affects(r.events, version, cmp)
    ensures fixed == LastFixed(r.events)
  {
    affected, fixed := false, "";
    for n := 0 to |r.events|
      invariant affected == Affects(r.events[..n], version, cmp)
      invariant fixed == LastFixed(r.events[..n])
    {
      var e := r.events[n];
      AffectsStep(r.events[..n], e, version, cmp);
      assert r.events[..n + 1] == r.events[..n] + [e] && (r.events[..n] + [e])[..n] == r.events[..n];
      if e.introduced != "" {
        if e.introduced == "0" || cmp(version, e.introduced) >= 0 {
          affected := true;
        }
      } else if e.fixed != "" {
        fixed := e.fixed;
        if cmp(version, e.fixed) >= 0 {
          affected := false;
        }
      } else if e.lastAffected != "" {
        if cmp(version, e.lastAffected) > 0 {
          affected := false;
        }
      } else if e.limit != "" {
        if cmp(version, e.limit) >= 0 {
          affected := false;
        }
      }
    }
    assert r.events[..|r.events|] == r.events;
  }

  lemma AffectsStep(events: seq<Event>, e: Event, version: string, cmp: Compare)
    ensures Affects(events + [e], version, cmp) ==
            (Reached(e, version, cmp) || (Affects(events, version, cmp) && !Passed(e, version, cmp)))
  {
    var all := events + [e];
    if Reached(e, version, cmp) {
      assert Reached(all[|events|], version, cmp) && NonePassed(all, |events|, version, cmp);
    }
    if Affects(events, version, cmp) && !Passed(e, version, cmp) {
      var k :| 0 <= k < |events| && Reached(events[k], version, cmp) && NonePassed(events, k, version, cmp);
      assert Reached(all[k], version, cmp) && NonePassed(all, k, version, cmp);
    }
    if Affects(all, version, cmp) && !Reached(e, version, cmp) {
      var k :| 0 <= k < |all| && Reached(all[k], version, cmp) && NonePassed(all, k, version, cmp);
      assert all[|events|] == e;
      forall j | k < j < |events| ensures !Passed(events[j], version, cmp) { assert all[j] == events[j]; }
      assert Reached(events[k], version, cmp) && NonePassed(events, k, version, cmp);
    }
  }

  /** One opening alone, and one with each kind of closing. */
  lemma OneIntervalIs(a: string, b: string, version: string, cmp: Compare)
    requires a != "" && b != ""
    ensures Affects([Event(a, "", "", "")], version, cmp) <==> a == "0" || cmp(version, a) >= 0
    ensures Affects([Event(a, "", "", ""), Event("", b, "", "")], version, cmp) <==>
            (a == "0" || cmp(version, a) >= 0) && cmp(version, b) < 0
    ensures Affects([Event(a, "", "", ""), Event("", "", "", b)], version, cmp) <==>
            (a == "0" || cmp(version, a) >= 0) && cmp(version, b) < 0
    ensures Affects([Event(a, "", "", ""), Event("", "", b, "")], version, cmp) <==>
            (a == "0" || cmp(version, a) >= 0) && cmp(version, b) <= 0
  {
    hide Affects;
    var opening, x, y, z := Event(a, "", "", ""), Event("", b, "", ""), Event("", "", "", b), Event("", "", b, "");
    NoEvents(version, cmp);
    AffectsStep([], opening, version, cmp);
    assert [] + [opening] == [opening];
    AffectsStep([opening], x, version, cmp);
    AffectsStep([opening], y, version, cmp);
    AffectsStep([opening], z, version, cmp);
    assert [opening] + [x] == [opening, x] && [opening] + [y] == [opening, y] && [opening] + [z] == [opening, z];
  }

  lemma NoEvents(version: string, cmp: Compare)
    ensures !Affects([], version, cmp)
  {}

  // ----------------------------------------------------- the intervals they mean

  /** The first closing after position `k`, or the end of the list. */
  ghost function NextClosing(events: seq<Event>, k: nat): (c: nat)
    requires k < |events|
    ensures k < c <= |events|
    ensures forall j :: k < j < c ==> !Closes(events[j])
    ensures c < |events| ==> Closes(events[c])
    decreases |events| - k
  {
    if k + 1 == |events| || Closes(events[k + 1]) then k + 1 else NextClosing(events, k + 1)
  }

  /** The version is at or above the one that is introduced; every version is above "0". */
  predicate FromOn(e: Event, version: string, cmp: Compare) {
    e.introduced != "" && (e.introduced == "0" || cmp(version, e.introduced) >= 0)
  }

  /** The version is below the fix or the limit, or at most the last one affected. */
  predicate UpTo(e: Event, version: string, cmp: Compare) {
    if e.fixed != "" then cmp(version, e.fixed) < 0
    else if e.lastAffected != "" then cmp(version, e.lastAffected) <= 0
    else cmp(version, e.limit) < 0
  }

  /** The version lies in the interval opened at `k`. */
  ghost predicate InInterval(events: seq<Event>, k: nat, version: string, cmp: Compare)
    requires k < |events|
  {
    FromOn(events[k], version, cmp) &&
    var c := NextClosing(events, k);
    c == |events| || UpTo(events[c], version, cmp)
  }

  /** The version lies in the union of the intervals [introduced, fixed or limit) and
      [introduced, last_affected]. */
  ghost predicate InUnion(events: seq<Event>, version: string, cmp: Compare) {
    exists k :: 0 <= k < |events| && InInterval(events, k, version, cmp)
  }

  predicate IsBottom(e: Event) { e.introduced == "0" }

  ghost predicate NotAbove(e: Event, f: Event, cmp: Compare) {
    BoundaryOf(e).Nothing? || BoundaryOf(f).Nothing? || IsBottom(e) ||
    (!IsBottom(f) && cmp(BoundaryOf(e).at, BoundaryOf(f).at) <= 0)
  }

  ghost predicate InOrder(events: seq<Event>, cmp: Compare) {
    forall i, j :: 0 <= i < j < |events| ==> NotAbove(events[i], events[j], cmp)
  }

  /** Every version the events name is one `cmp` orders. */
  ghost predicate Named(events: seq<Event>, dom: string -> bool) {
    forall i :: 0 <= i < |events| && !BoundaryOf(events[i]).Nothing? && !IsBottom(events[i]) ==>
      dom(BoundaryOf(events[i]).at)
  }

  /** An interval that includes its end is followed by an interval that is empty there:
      `last_affected: v` and then a `fixed` or `limit` of the same v. */
  ghost predicate Cancels(events: seq<Event>, i: int, j: int, version: string, cmp: Compare) {
    && 0 <= i < j < |events|
    && BoundaryOf(events[i]).ClosesAfter? && cmp(version, BoundaryOf(events[i]).at) == 0
    && BoundaryOf(events[j]).ClosesAt? && cmp(version, BoundaryOf(events[j]).at) == 0
    && forall m :: j < m < |events| ==> !Reached(events[m], version, cmp)
  }

  ghost predicate Cancelled(events: seq<Event>, version: string, cmp: Compare) {
    exists i, j :: Cancels(events, i, j, version, cmp)
  }

  ghost function LastPassed(events: seq<Event>, version: string, cmp: Compare): (j: int)
    ensures -1 <= j < |events|
    ensures j >= 0 ==> Passed(events[j], version, cmp)
    ensures NonePassed(events, j, version, cmp)
  {
    if events == [] then -1
    else if Passed(events[|events| - 1], version, cmp) then |events| - 1
    else LastPassed(events[..|events| - 1], version, cmp)
  }

  /** A closing the version is not past is followed by one it is past, and nothing opens
      after that one. */
  ghost predicate Overtakes(events: seq<Event>, i: int, j: int, version: string, cmp: Compare) {
    && 0 <= i < j < |events|
    && Closes(events[i]) && !Passed(events[i], version, cmp)
    && Passed(events[j], version, cmp)
    && forall m :: j < m < |events| ==> !Reached(events[m], version, cmp)
  }

  ghost predicate Overtaken(events: seq<Event>, version: string, cmp: Compare) {
    exists i, j :: Overtakes(events, i, j, version, cmp)
  }

  /** For any comparator and any list, in order or not: the walk decides membership in the
      union of the intervals, except for a version that is overtaken. */
  lemma WalkIsUnionUnlessOvertaken(events: seq<Event>, version: string, cmp: Compare)
    ensures Affects(events, version, cmp) <==> InUnion(events, version, cmp) && !Overtaken(events, version, cmp)
  {
    if Affects(events, version, cmp) {
      AffectedIsInUnion(events, version, cmp);
    } else if InUnion(events, version, cmp) && !Overtaken(events, version, cmp) {
      UnionIsAffected(events, version, cmp);
    }
  }

  lemma AffectedIsInUnion(events: seq<Event>, version: string, cmp: Compare)
    requires Affects(events, version, cmp)
    ensures InUnion(events, version, cmp) && !Overtaken(events, version, cmp)
  {
    var k :| 0 <= k < |events| && Reached(events[k], version, cmp) && NonePassed(events, k, version, cmp);
    assert InInterval(events, k, version, cmp);
    forall i, j ensures !Overtakes(events, i, j, version, cmp) {
      if 0 <= i < j < |events| && Passed(events[j], version, cmp) {
        assert j < k;
      }
    }
  }

  lemma PassedLiesPastNextClosing(events: seq<Event>, k: nat, j: int, version: string, cmp: Compare)
    requires k < j < |events| && InInterval(events, k, version, cmp) && Passed(events[j], version, cmp)
    ensures NextClosing(events, k) < j && Closes(events[NextClosing(events, k)])
    ensures !Passed(events[NextClosing(events, k)], version, cmp)
  {}

  lemma UnionIsAffected(events: seq<Event>, version: string, cmp: Compare)
    requires InUnion(events, version, cmp) && !Overtaken(events, version, cmp)
    ensures Affects(events, version, cmp)
  {
    var k :| 0 <= k < |events| && InInterval(events, k, version, cmp);
    var j := LastPassed(events, version, cmp);
    if j > k {
      PassedLiesPastNextClosing(events, k, j, version, cmp);
      assert !Overtakes(events, NextClosing(events, k), j, version, cmp);
      k :| j < k < |events| && Reached(events[k], version, cmp);
    }
    assert NonePassed(events, k, version, cmp);
  }

  lemma TiedIsCancelled(events: seq<Event>, i: int, j: int, version: string, cmp: Compare)
    ensures Cancels(events, i, j, version, cmp) <==>
            Overtakes(events, i, j, version, cmp) &&
            cmp(version, BoundaryOf(events[i]).at) == 0 && cmp(version, BoundaryOf(events[j]).at) == 0
  {}

  /** On an ordered list a version is overtaken only where it ties with both closings. */
  lemma OvertakenIsCancelled(events: seq<Event>, i: int, j: int, version: string, cmp: Compare, dom: string -> bool)
    requires PreorderOn(cmp, dom) && dom(version) && Named(events, dom) && InOrder(events, cmp)
    ensures Overtakes(events, i, j, version, cmp) <==> Cancels(events, i, j, version, cmp)
  {
    if Overtakes(events, i, j, version, cmp) {
      var x, y := BoundaryOf(events[i]).at, BoundaryOf(events[j]).at;
      assert NotAbove(events[i], events[j], cmp);
      assert dom(x) && dom(y) && cmp(x, y) <= 0;
      assert cmp(y, version) == -cmp(version, y);
    }
  }

  /** On an ordered event list the walk decides membership in the union of the
      intervals, except for a version cancelled at a shared boundary. */
  lemma WalkIsUnion(events: seq<Event>, version: string, cmp: Compare, dom: string -> bool)
    requires PreorderOn(cmp, dom) && dom(version) && Named(events, dom) && InOrder(events, cmp)
    ensures Affects(events, version, cmp) <==> InUnion(events, version, cmp) && !Cancelled(events, version, cmp)
  {
    WalkIsUnionUnlessOvertaken(events, version, cmp);
    forall i, j ensures Overtakes(events, i, j, version, cmp) <==> Cancels(events, i, j, version, cmp) {
      OvertakenIsCancelled(events, i, j, version, cmp, dom);
    }
  }

  /** No `last_affected` is followed by a `fixed` or `limit` of an equal version. */
  ghost predicate NoSharedEnd(events: seq<Event>, cmp: Compare) {
    forall i, j :: 0 <= i < j < |events| && BoundaryOf(events[i]).ClosesAfter? && BoundaryOf(events[j]).ClosesAt? ==>
      cmp(BoundaryOf(events[i]).at, BoundaryOf(events[j]).at) != 0
  }

  /** The plain statement, for the lists a publisher writes: membership in the union. */
  lemma WalkIsUnionWithoutSharedEnd(events: seq<Event>, version: string, cmp: Compare, dom: string -> bool)
    requires PreorderOn(cmp, dom) && dom(version) && Named(events, dom) && InOrder(events, cmp)
    requires NoSharedEnd(events, cmp)
    ensures Affects(events, version, cmp) <==> InUnion(events, version, cmp)
  {
    WalkIsUnion(events, version, cmp, dom);
    CancelledSharesAnEnd(events, version, cmp, dom);
  }

  lemma CancelledSharesAnEnd(events: seq<Event>, version: string, cmp: Compare, dom: string -> bool)
    requires PreorderOn(cmp, dom) && dom(version) && Named(events, dom)
    ensures Cancelled(events, version, cmp) ==> !NoSharedEnd(events, cmp)
  {}

  /** [1, 2] and then the empty [2, 2): the walk drops version 2, which the first
      interval includes. The list is ordered and its openings and closings alternate. */
  lemma SharedEndDropsAVersion(v: string, w: string, cmp: Compare, dom: string -> bool)
    requires PreorderOn(cmp, dom) && dom(v) && dom(w) && cmp(v, w) < 0 && v != "" && w != "" && v != "0" && w != "0"
    ensures var events := [Event(v, "", "", ""), Event("", "", w, ""), Event(w, "", "", ""), Event("", w, "", "")];
            InOrder(events, cmp) && InUnion(events, w, cmp) && !Affects(events, w, cmp)
  {
    var events := [Event(v, "", "", ""), Event("", "", w, ""), Event(w, "", "", ""), Event("", w, "", "")];
    assert cmp(w, w) == 0 && cmp(w, v) > 0;
    assert InUnion(events, w, cmp) by {
      hide Affects;
      hide InOrder;
      assert Closes(events[1]) && NextClosing(events, 0) == 1;
      assert InInterval(events, 0, w, cmp);
    }
    assert !Affects(events, w, cmp) by {
      hide InUnion;
      hide InOrder;
      assert Passed(events[3], w, cmp);
    }
    hide Affects;
    hide InUnion;
  }

  /** Versions that tie are treated alike. */
  lemma TiesMatchAlike(events: seq<Event>, v: string, w: string, cmp: Compare, dom: string -> bool)
    requires PreorderOn(cmp, dom) && dom(v) && dom(w) && Named(events, dom) && cmp(v, w) == 0
    ensures Affects(events, v, cmp) == Affects(events, w, cmp)
  {}

  /** The last event that introduces nothing and names a fix. */
  lemma {:induction false} LastFixedIs(before: seq<Event>, e: Event, after: seq<Event>)
    requires e.introduced == "" && e.fixed != ""
    requires forall f :: f in after ==> f.introduced != "" || f.fixed == ""
    ensures LastFixed(before + [e] + after) == e.fixed
  {
    var all := before + [e] + after;
    if after == [] {
      assert all[|all| - 1] == e;
    } else {
      assert all[|all| - 1] == after[|after| - 1];
      assert all[..|all| - 1] == before + [e] + after[..|after| - 1];
      LastFixedIs(before, e, after[..|after| - 1]);
    }
  }

  lemma {:induction false} NoFixIsEmpty(events: seq<Event>)
    requires forall f :: f in events ==> f.introduced != "" || f.fixed == ""
    ensures LastFixed(events) == ""
  {
    if events != [] {
      assert events[|events| - 1] in events;
      NoFixIsEmpty(events[..|events| - 1]);
    }
  }

  // --------------------------------------------------------------- ecosystems

  /** "Family:Version" split at the first colon. */
  function SplitEcosystem(v: string): (string, string) {
    var i := Index(v, ':');
    if i >= 0 then (v[..i], v[i + 1..]) else (v, "")
  }

  predicate EcosystemMatches(entry: string, host: string) {
    if host == "" || entry == "" then false
    else if EqualFold(entry, host) then true
    else
      var (entryFamily, entryVersion) := SplitEcosystem(entry);
      var (hostFamily, hostVersion) := SplitEcosystem(host);
      EqualFold(entryFamily, hostFamily) && (entryVersion == "" || hostVersion == "")
  }

  /** The family ends at the first colon. */
  lemma FamilyEndsAtColon(family: string, version: string)
    requires ':' !in family
    ensures SplitEcosystem(family + ":" + version) == (family, version)
    ensures SplitEcosystem(family) == (family, "")
  {
    hide Index;
    CutAtFirst(family + ":" + version, family, ':', version);
  }

  lemma {:induction false} FoldKeepsColons(v: string, w: string)
    requires EqualFold(v, w)
    ensures Index(v, ':') == Index(w, ':')
  {
    assert |v| == |ToLower(v)| == |ToLower(w)| == |w|;
    forall i | 0 <= i < |v| ensures v[i] == ':' <==> w[i] == ':' {
      assert ToLower(v)[i] == ToLower(w)[i];
    }
  }

  lemma FoldedSlice(v: string, w: string, lo: nat, hi: nat)
    requires EqualFold(v, w) && lo <= hi <= |v|
    ensures |v| == |w| && EqualFold(v[lo..hi], w[lo..hi])
  {
    assert |v| == |ToLower(v)| == |ToLower(w)| == |w|;
    assert ToLower(v[lo..hi]) == ToLower(v)[lo..hi] && ToLower(w[lo..hi]) == ToLower(w)[lo..hi];
  }

  /** A match is a non-empty family in common, and the versions equal or one of them
      missing: never across families. */
  lemma MatchesWithinOneFamily(entry: string, host: string)
    ensures EcosystemMatches(entry, host) <==>
            && entry != "" && host != ""
            && EqualFold(SplitEcosystem(entry).0, SplitEcosystem(host).0)
            && (EqualFold(entry, host) || SplitEcosystem(entry).1 == "" || SplitEcosystem(host).1 == "")
  {
    if EqualFold(entry, host) {
      FoldKeepsColons(entry, host);
      var i := Index(entry, ':');
      FoldedSlice(entry, host, 0, if i >= 0 then i else |entry|);
      assert entry[..|entry|] == entry && host[..|host|] == host;
    }
  }

  lemma EcosystemMatchIsSymmetric(entry: string, host: string)
    ensures EcosystemMatches(entry, host) == EcosystemMatches(host, entry)
  {}

  // -------------------------------------------------------------- Entry.Match

  function FirstFixed(ranges: seq<Range>): string {
    if ranges == [] then ""
    else
      var f := FirstFixedEvent(ranges[0].events);
      if f != "" then f else FirstFixed(ranges[1..])
  }

  function FirstFixedEvent(events: seq<Event>): string {
    if events == [] then "" else if events[0].fixed != "" then events[0].fixed else FirstFixedEvent(events[1..])
  }

  predicate NamesNoFix(events: seq<Event>) { forall e :: e in events ==> e.fixed == "" }

  lemma {:induction false} FirstFixedEventIs(before: seq<Event>, e: Event, after: seq<Event>)
    requires NamesNoFix(before)
    ensures e.fixed != "" ==> FirstFixedEvent(before + [e] + after) == e.fixed
    ensures FirstFixedEvent(before) == ""
  {
    if before == [] {
      assert before + [e] + after == [e] + after;
    } else {
      assert before[0] in before;
      assert (before + [e] + after)[1..] == before[1..] + [e] + after;
      FirstFixedEventIs(before[1..], e, after);
    }
  }

  /** The first event of the first range that names a fix; nothing when none does. */
  lemma {:induction false} FirstFixedIs(before: seq<Range>, kind: string, head: seq<Event>, e: Event, tail: seq<Event>,
                                        after: seq<Range>)
    requires (forall r :: r in before ==> NamesNoFix(r.events)) && NamesNoFix(head)
    ensures e.fixed != "" ==> FirstFixed(before + [Range(kind, head + [e] + tail)] + after) == e.fixed
    ensures FirstFixed(before) == ""
  {
    hide NamesNoFix;
    hide FirstFixedEvent;
    var r := Range(kind, head + [e] + tail);
    FirstFixedEventIs(head, e, tail);
    if before == [] {
      assert before + [r] + after == [r] + after;
    } else {
      assert before[0] in before;
      assert (before + [r] + after)[1..] == before[1..] + [r] + after;
      FirstFixedEventIs(before[0].events, e, []);
      FirstFixedIs(before[1..], kind, head, e, tail, after);
    }
  }

  predicate Concerns(a: Affected, ecosystem: string, name: string) {
    EqualFold(a.name, name) && EcosystemMatches(a.ecosystem, ecosystem)
  }

  ghost predicate RangeHits(r: Range, version: string, cmp: Compare) {
    !EqualFold(r.kind, "GIT") && Affects(r.events, version, cmp)
  }

  /** "GIT" in any mixture of cases: a list of commits, which never hits. */
  predicate IsGit(kind: string) {
    && |kind| == 3 && (kind[0] == 'G' || kind[0] == 'g') && (kind[1] == 'I' || kind[1] == 'i')
    && (kind[2] == 'T' || kind[2] == 't')
  }

  lemma OnlyVersionRangesHit(r: Range, version: string, cmp: Compare)
    ensures RangeHits(r, version, cmp) <==> !IsGit(r.kind) && Affects(r.events, version, cmp)
  {
    hide EqualFold;
    FoldIs(r.kind, "GIT");
  }

  /** The first range that applies names the fix. */
  ghost function HitRanges(ranges: seq<Range>, version: string, cmp: Compare): Option<string> {
    if ranges == [] then None
    else if RangeHits(ranges[0], version, cmp) then Some(LastFixed(ranges[0].events))
    else HitRanges(ranges[1..], version, cmp)
  }

  ghost function HitAffected(a: Affected, version: string, cmp: Compare): Option<string> {
    if version in a.versions then Some(FirstFixed(a.ranges)) else HitRanges(a.ranges, version, cmp)
  }

  ghost function HitFirst(affected: seq<Affected>, ecosystem: string, name: string, version: string, cmp: Compare):
    Option<string>
  {
    if affected == [] then None
    else
      var hit := if Concerns(affected[0], ecosystem, name) then HitAffected(affected[0], version, cmp) else None;
      if hit.Some? then hit else HitFirst(affected[1..], ecosystem, name, version, cmp)
  }

  /** What Entry.Match answers: the fix it names, or None when the record does not
      apply. */
  ghost function MatchOf(e: Entry, ecosystem: string, name: string, version: string, cmp: Compare): Option<string> {
    if e.withdrawn != "" then None else HitFirst(e.affected, ecosystem, name, version, cmp)
  }

  method Match(e: Entry, ecosystem: string, name: string, version: string, cmp: Compare)
    returns (fixed: string, matched: bool)
    ensures MatchOf(e, ecosystem, name, version, cmp) == if matched then Some(fixed) else None
    ensures !matched ==> fixed == ""
  {
    if e.withdrawn != "" {
      return "", false;
    }
    ghost var goal := HitFirst(e.affected, ecosystem, name, version, cmp);
    assert e.affected[0..] == e.affected;
    for n := 0 to |e.affected|
      invariant HitFirst(e.affected[n..], ecosystem, name, version, cmp) == goal
    {
      var a := e.affected[n];
      assert e.affected[n..][0] == a && e.affected[n..][1..] == e.affected[n + 1..];
      if !EqualFold(a.name, name) {
        continue;
      }
      if !EcosystemMatches(a.ecosystem, ecosystem) {
        continue;
      }
      if version in a.versions {
        return FirstFixed(a.ranges), true;
      }
      var hit := MatchRanges(a.ranges, version, cmp);
      if hit.Some? {
        return hit.value, true;
      }
    }
    return "", false;
  }

  method MatchRanges(ranges: seq<Range>, version: string, cmp: Compare) returns (hit: Option<string>)
    ensures hit == HitRanges(ranges, version, cmp)
  {
    assert ranges[0..] == ranges;
    for n := 0 to |ranges|
      invariant HitRanges(ranges[n..], version, cmp) == HitRanges(ranges, version, cmp)
    {
      var r := ranges[n];
      assert ranges[n..][0] == r && ranges[n..][1..] == ranges[n + 1..];
      if EqualFold(r.kind, "GIT") {
        continue;
      }
      var affected, fix := MatchRange(r, version, cmp);
      if affected {
        return Some(fix);
      }
    }
    return None;
  }

  /** A record applies exactly when it is not withdrawn and some package of that name
      and ecosystem lists the version or has a version range that affects it. */
  lemma MatchesExactlyWhen(e: Entry, ecosystem: string, name: string, version: string, cmp: Compare)
    ensures MatchOf(e, ecosystem, name, version, cmp).Some? <==>
            e.withdrawn == "" && exists a ::
              && a in e.affected && EqualFold(a.name, name) && EcosystemMatches(a.ecosystem, ecosystem)
              && (version in a.versions ||
                  exists r :: r in a.ranges && !IsGit(r.kind) && Affects(r.events, version, cmp))
  {
    hide EqualFold;
    hide EcosystemMatches;
    hide Affects;
    hide IsGit;
    HitFirstExactlyWhen(e.affected, ecosystem, name, version, cmp);
    forall r: Range { OnlyVersionRangesHit(r, version, cmp); }
  }

  lemma {:induction false} HitRangesExactlyWhen(ranges: seq<Range>, version: string, cmp: Compare)
    ensures HitRanges(ranges, version, cmp).Some? <==> exists r :: r in ranges && RangeHits(r, version, cmp)
  {
    if ranges != [] {
      HitRangesExactlyWhen(ranges[1..], version, cmp);
      assert forall r :: r in ranges <==> r == ranges[0] || r in ranges[1..];
    }
  }

  ghost predicate Applies(a: Affected, version: string, cmp: Compare) {
    version in a.versions || exists r :: r in a.ranges && RangeHits(r, version, cmp)
  }

  lemma {:induction false} HitFirstExactlyWhen(affected: seq<Affected>, ecosystem: string, name: string,
                                               version: string, cmp: Compare)
    ensures HitFirst(affected, ecosystem, name, version, cmp).Some? <==>
            exists a :: a in affected && Concerns(a, ecosystem, name) && Applies(a, version, cmp)
  {
    if affected != [] {
      HitRangesExactlyWhen(affected[0].ranges, version, cmp);
      HitFirstExactlyWhen(affected[1..], ecosystem, name, version, cmp);
      assert forall a :: a in affected <==> a == affected[0] || a in affected[1..];
    }
  }

  lemma {:induction false} HitRangesIs(before: seq<Range>, r: Range, after: seq<Range>, version: string, cmp: Compare)
    requires forall q :: q in before ==> !RangeHits(q, version, cmp)
    requires RangeHits(r, version, cmp)
    ensures HitRanges(before + [r] + after, version, cmp) == Some(LastFixed(r.events))
  {
    var all := before + [r] + after;
    if before == [] {
      assert all[0] == r;
    } else {
      assert all[0] == before[0] && all[1..] == before[1..] + [r] + after;
      HitRangesIs(before[1..], r, after, version, cmp);
    }
  }

  /** The first package that applies decides: with the first fix any of its ranges names where
      it lists the version, and else with the last fix of its first range that hits. */
  lemma FirstHitNamesTheFix(e: Entry, before: seq<Affected>, a: Affected, after: seq<Affected>, early: seq<Range>,
                            r: Range, late: seq<Range>, ecosystem: string, name: string, version: string, cmp: Compare)
    requires e.withdrawn == "" && e.affected == before + [a] + after
    requires forall b :: b in before ==> !(Concerns(b, ecosystem, name) && Applies(b, version, cmp))
    requires EqualFold(a.name, name) && EcosystemMatches(a.ecosystem, ecosystem)
    ensures version in a.versions ==>
              MatchOf(e, ecosystem, name, version, cmp) == Some(FirstFixed(a.ranges))
    ensures version !in a.versions && a.ranges == early + [r] + late &&
            (forall q :: q in early ==> !RangeHits(q, version, cmp)) && RangeHits(r, version, cmp) ==>
              MatchOf(e, ecosystem, name, version, cmp) == Some(LastFixed(r.events))
  {
    hide EcosystemMatches;
    hide EqualFold;
    hide RangeHits;
    hide HitRanges;
    SkipOthers(before, a, after, ecosystem, name, version, cmp);
    if version !in a.versions && a.ranges == early + [r] + late &&
       (forall q :: q in early ==> !RangeHits(q, version, cmp)) && RangeHits(r, version, cmp) {
      HitRangesIs(early, r, late, version, cmp);
    }
  }

  lemma {:induction false} SkipOthers(before: seq<Affected>, a: Affected, after: seq<Affected>, ecosystem: string,
                                      name: string, version: string, cmp: Compare)
    requires forall b :: b in before ==> !(Concerns(b, ecosystem, name) && Applies(b, version, cmp))
    requires Concerns(a, ecosystem, name)
    ensures HitAffected(a, version, cmp).Some? ==>
              HitFirst(before + [a] + after, ecosystem, name, version, cmp) == HitAffected(a, version, cmp)
  {
    hide Concerns;
    var all := before + [a] + after;
    if before == [] {
      assert all[0] == a;
    } else {
      assert all[0] == before[0] && all[1..] == before[1..] + [a] + after;
      HitRangesExactlyWhen(before[0].ranges, version, cmp);
      assert before[0] in before;
      SkipOthers(before[1..], a, after, ecosystem, name, version, cmp);
    }
  }
}
