/**
 The in-memory index of an offline OSV dataset: app/vuln/offline.go, and the scan of
 it in app/vuln/collect.go. Records are filtered while they load; matching through
 the index must find what a scan of every record would.
 */
module Offline {
  import opened Text
  import opened Ordering
  import opened Osv
  import DebianVersion
  import GenericVersion
  import RpmVersion

  datatype Package = Package(name: string, version: string)

  datatype Row = Row(package: Package, entry: Entry, fixed: string)

  type Buckets = map<string, seq<Entry>>

  function BucketOf(m: Buckets, name: string): seq<Entry> { if name in m then m[name] else [] }

  // --------------------------------------------------------- what index() keeps

  /** `index` keeps the record under `name` because of this package. */
  predicate Keeps(a: Affected, name: string, wanted: set<string>, ecosystem: string) {
    && ToLower(a.name) == name && name != ""
    && (|wanted| > 0 ==> name in wanted)
    && (ecosystem != "" ==> EcosystemMatches(a.ecosystem, ecosystem))
  }

  /** The record belongs in the bucket of `name`. */
  ghost predicate Touches(e: Entry, name: string, wanted: set<string>, ecosystem: string) {
    e.withdrawn == "" && exists a :: a in e.affected && Keeps(a, name, wanted, ecosystem)
  }

  /** A record is kept for a name, in small letters, when it is not withdrawn and one of its
      packages has that name, as long as the name is wanted and the ecosystem matches, where
      these are given. */
  lemma KeptExactlyWhen(e: Entry, name: string, wanted: set<string>, ecosystem: string)
    ensures Touches(e, name, wanted, ecosystem) <==>
            && e.withdrawn == "" && name != "" && (wanted == {} || name in wanted)
            && exists a :: && a in e.affected && ToLower(a.name) == name
                           && (ecosystem == "" || EcosystemMatches(a.ecosystem, ecosystem))
  {
    hide ToLower;
    hide EcosystemMatches;
    if wanted != {} {
      assert |wanted| > 0;
    }
    forall a | a in e.affected
      ensures Keeps(a, name, wanted, ecosystem) <==>
              && ToLower(a.name) == name && name != "" && (wanted == {} || name in wanted)
              && (ecosystem == "" || EcosystemMatches(a.ecosystem, ecosystem))
    {}
  }

  /** The names `index` has seen after a prefix of the record's packages. */
  ghost function KeptNames(affected: seq<Affected>, wanted: set<string>, ecosystem: string): set<string> {
    if affected == [] then {}
    else
      var a := affected[|affected| - 1];
      KeptNames(affected[..|affected| - 1], wanted, ecosystem) +
      if Keeps(a, ToLower(a.name), wanted, ecosystem) then {ToLower(a.name)} else {}
  }

  lemma {:induction false} KeptNamesExactly(affected: seq<Affected>, name: string, wanted: set<string>, ecosystem: string)
    ensures name in KeptNames(affected, wanted, ecosystem) <==>
            exists a :: a in affected && Keeps(a, name, wanted, ecosystem)
  {
    if affected != [] {
      var a, init := affected[|affected| - 1], affected[..|affected| - 1];
      KeptNamesExactly(init, name, wanted, ecosystem);
      assert forall b :: b in affected <==> b in init || b == a;
    }
  }

  ghost function Relevant(records: seq<Entry>, name: string, wanted: set<string>, ecosystem: string): seq<Entry> {
    if records == [] then []
    else
      var last := |records| - 1;
      Relevant(records[..last], name, wanted, ecosystem) +
      if Touches(records[last], name, wanted, ecosystem) then [records[last]] else []
  }

  // ------------------------------------------------------- counting the buckets

  ghost function Total(m: Buckets): nat {
    if m == map[] then 0
    else
      var k :| k in m;
      |m[k]| + Total(m - {k})
  }

  lemma {:induction false} TotalPicksAnyKey(m: Buckets, k: string)
    requires k in m
    ensures Total(m) == |m[k]| + Total(m - {k})
    decreases |m|
  {
    var j :| j in m && Total(m) == |m[j]| + Total(m - {j});
    if j != k {
      TotalPicksAnyKey(m - {j}, k);
      TotalPicksAnyKey(m - {k}, j);
      assert m - {j} - {k} == m - {k} - {j};
    }
  }

  lemma TotalGrowsByOne(m: Buckets, k: string, e: Entry)
    ensures Total(m[k := BucketOf(m, k) + [e]]) == Total(m) + 1
  {
    var m' := m[k := BucketOf(m, k) + [e]];
    TotalPicksAnyKey(m', k);
    assert m' - {k} == m - {k};
    if k in m {
      TotalPicksAnyKey(m, k);
    } else {
      assert m - {k} == m;
    }
  }

  /** Every bucket named in `names` has grown by the record, no other has changed. */
  ghost predicate Appended(was: Buckets, now: Buckets, names: set<string>, e: Entry) {
    forall name :: BucketOf(now, name) == BucketOf(was, name) + if name in names then [e] else []
  }

  lemma AppendedOnce(was: Buckets, now: Buckets, names: set<string>, e: Entry, name: string)
    requires Appended(was, now, names, e) && name !in names
    ensures Appended(was, now[name := BucketOf(now, name) + [e]], names + {name}, e)
  {}

  // ------------------------------------------------------------------ OfflineDB

  class OfflineDB {
    var byPackage: Buckets
    var scanned: nat
    var indexed: nat

    /** Indexed is the number of records in all buckets. */
    ghost predicate Valid()
      reads this
    {
      indexed == Total(byPackage)
    }

    constructor ()
      ensures Valid() && byPackage == map[] && scanned == 0
    {
      byPackage, scanned, indexed := map[], 0, 0;
    }

    method Append(name: string, entry: Entry)
      requires Valid()
      modifies this`byPackage, this`indexed
      ensures Valid() && indexed == old(indexed) + 1
      ensures byPackage == old(byPackage)[name := BucketOf(old(byPackage), name) + [entry]]
    {
      TotalGrowsByOne(byPackage, name, entry);
      byPackage := byPackage[name := BucketOf(byPackage, name) + [entry]];
      indexed := indexed + 1;
    }

    /** Appends the record once to the bucket of every package name it is kept for. */
    method Index(entry: Entry, wanted: set<string>, ecosystem: string)
      requires Valid()
      modifies this`byPackage, this`indexed
      ensures Valid()
      ensures forall name :: BucketOf(byPackage, name) ==
                old(BucketOf(byPackage, name)) + if Touches(entry, name, wanted, ecosystem) then [entry] else []
    {
      hide Total;
      hide ToLower;
      hide EcosystemMatches;
      if entry.withdrawn != "" {
        return;
      }
      ghost var was := byPackage;
      var seen: set<string> := {};
      for n := 0 to |entry.affected|
        invariant Valid()
        invariant seen == KeptNames(entry.affected[..n], wanted, ecosystem)
        invariant Appended(was, byPackage, seen, entry)
      {
        var affected := entry.affected[n];
        assert entry.affected[..n + 1][..n] == entry.affected[..n];
        var name := ToLower(affected.name);
        if name == "" || name in seen {
          continue;
        }
        if |wanted| > 0 && name !in wanted {
          continue;
        }
        if ecosystem != "" && !EcosystemMatches(affected.ecosystem, ecosystem) {
          continue;
        }
        AppendedOnce(was, byPackage, seen, entry, name);
        seen := seen + {name};
        Append(name, entry);
      }
      assert entry.affected[..|entry.affected|] == entry.affected;
      forall name ensures name in seen <==> Touches(entry, name, wanted, ecosystem) {
        KeptNamesExactly(entry.affected, name, wanted, ecosystem);
      }
    }

    method Load(records: seq<Entry>, wanted: set<string>, ecosystem: string)
      requires Valid() && byPackage == map[] && scanned == 0
      modifies this
      ensures Valid() && scanned == |records|
      ensures forall name :: BucketOf(byPackage, name) == Relevant(records, name, wanted, ecosystem)
    {
      hide Total;
      hide Touches;
      for n := 0 to |records|
        invariant Valid() && scanned == n
        invariant forall name :: BucketOf(byPackage, name) == Relevant(records[..n], name, wanted, ecosystem)
      {
        assert records[..n + 1][..n] == records[..n];
        scanned := scanned + 1;
        Index(records[n], wanted, ecosystem);
      }
      assert records[..|records|] == records;
    }

    function Lookup(name: string): seq<Entry>
      reads this
    {
      BucketOf(byPackage, ToLower(name))
    }

    /** The rows of every package, from its own bucket alone. */
    method MatchOffline(packages: seq<Package>, ecosystem: string, cmp: Compare) returns (out: seq<Row>)
      ensures out == IndexedRows(packages, byPackage, ecosystem, cmp)
    {
      out := [];
      for n := 0 to |packages|
        invariant out == IndexedRows(packages[..n], byPackage, ecosystem, cmp)
      {
        var p := packages[n];
        assert packages[..n + 1][..n] == packages[..n];
        var bucket := Lookup(p.name);
        var before := out;
        for m := 0 to |bucket|
          invariant out == before + Hits(p, bucket[..m], ecosystem, cmp)
        {
          assert bucket[..m + 1][..m] == bucket[..m];
          var fixed, ok := Match(bucket[m], ecosystem, p.name, p.version, cmp);
          if ok {
            out := out + [Row(p, bucket[m], fixed)];
          }
        }
        assert bucket[..|bucket|] == bucket;
      }
      assert packages[..|packages|] == packages;
    }
  }

  /** The rows one package gets from a list of records, in the order of the list. */
  ghost function Hits(p: Package, records: seq<Entry>, ecosystem: string, cmp: Compare): seq<Row> {
    if records == [] then []
    else
      var last := |records| - 1;
      var hit := MatchOf(records[last], ecosystem, p.name, p.version, cmp);
      Hits(p, records[..last], ecosystem, cmp) + if hit.Some? then [Row(p, records[last], hit.value)] else []
  }

  ghost function IndexedRows(packages: seq<Package>, m: Buckets, ecosystem: string, cmp: Compare): seq<Row> {
    if packages == [] then []
    else
      var p := packages[|packages| - 1];
      IndexedRows(packages[..|packages| - 1], m, ecosystem, cmp) + Hits(p, BucketOf(m, ToLower(p.name)), ecosystem, cmp)
  }

  /** The same question without an index: every record against every package. */
  ghost function ScannedRows(packages: seq<Package>, records: seq<Entry>, ecosystem: string, cmp: Compare): seq<Row> {
    if packages == [] then []
    else
      var last := |packages| - 1;
      ScannedRows(packages[..last], records, ecosystem, cmp) + Hits(packages[last], records, ecosystem, cmp)
  }

  // ------------------------------------------------------- filtering is lossless

  /** What matches a named package was kept for it. */
  lemma MatchedIsKept(e: Entry, p: Package, wanted: set<string>, ecosystem: string, cmp: Compare)
    requires p.name != "" && ToLower(p.name) in wanted
    requires MatchOf(e, ecosystem, p.name, p.version, cmp).Some?
    ensures Touches(e, ToLower(p.name), wanted, ecosystem)
  {
    MatchesExactlyWhen(e, ecosystem, p.name, p.version, cmp);
    var a :| a in e.affected && EqualFold(a.name, p.name) && EcosystemMatches(a.ecosystem, ecosystem);
    assert Keeps(a, ToLower(p.name), wanted, ecosystem);
  }

  lemma {:induction false} NamedHitsAreKept(p: Package, records: seq<Entry>, wanted: set<string>, ecosystem: string,
                                            cmp: Compare)
    requires p.name != "" && ToLower(p.name) in wanted
    ensures Hits(p, Relevant(records, ToLower(p.name), wanted, ecosystem), ecosystem, cmp) ==
            Hits(p, records, ecosystem, cmp)
  {
    if records != [] {
      var name, e, init := ToLower(p.name), records[|records| - 1], records[..|records| - 1];
      NamedHitsAreKept(p, init, wanted, ecosystem, cmp);
      var kept := Relevant(init, name, wanted, ecosystem);
      if Touches(e, name, wanted, ecosystem) {
        assert (kept + [e])[..|kept|] == kept;
      } else {
        assert kept + [] == kept;
        if MatchOf(e, ecosystem, p.name, p.version, cmp).Some? {
          MatchedIsKept(e, p, wanted, ecosystem, cmp);
        }
      }
    }
  }

  /** Nothing is ever kept for a package without a name. */
  lemma {:induction false} NamelessBucketIsEmpty(records: seq<Entry>, wanted: set<string>, ecosystem: string)
    ensures Relevant(records, "", wanted, ecosystem) == []
  {
    if records != [] {
      NamelessBucketIsEmpty(records[..|records| - 1], wanted, ecosystem);
    }
  }

  ghost predicate NamelessHit(packages: seq<Package>, records: seq<Entry>, ecosystem: string, cmp: Compare) {
    exists p :: p in packages && p.name == "" && Hits(p, records, ecosystem, cmp) != []
  }

  /** A record that lists a version of a package without a name is one. */
  lemma NamelessHitOccurs(version: string, ecosystem: string, cmp: Compare)
    requires ecosystem != ""
    ensures var e := Entry("A-1", "", [Affected(ecosystem, "", [], [version])]);
            NamelessHit([Package("", version)], [e], ecosystem, cmp)
  {
    var a := Affected(ecosystem, "", [], [version]);
    var e, p := Entry("A-1", "", [a]), Package("", version);
    assert a in e.affected && version in a.versions && EqualFold(a.name, "") && EcosystemMatches(a.ecosystem, ecosystem);
    MatchesExactlyWhen(e, ecosystem, "", version, cmp);
    assert [e][..0] == [] && p in [p];
    assert |Hits(p, [e], ecosystem, cmp)| == 1;
  }

  /** The rows found through a loaded index are those of the plain scan, in the same
      order, exactly when no record matches a package without a name. */
  lemma {:induction false} FilteringIsLossless(packages: seq<Package>, records: seq<Entry>, wanted: set<string>,
                                               m: Buckets, ecosystem: string, cmp: Compare)
    requires forall p :: p in packages ==> ToLower(p.name) in wanted
    requires forall name :: BucketOf(m, name) == Relevant(records, name, wanted, ecosystem)
    ensures IndexedRows(packages, m, ecosystem, cmp) == ScannedRows(packages, records, ecosystem, cmp) <==>
            !NamelessHit(packages, records, ecosystem, cmp)
    ensures |IndexedRows(packages, m, ecosystem, cmp)| <= |ScannedRows(packages, records, ecosystem, cmp)|
  {
    if packages != [] {
      var p, init := packages[|packages| - 1], packages[..|packages| - 1];
      FilteringIsLossless(init, records, wanted, m, ecosystem, cmp);
      assert forall q :: q in packages <==> q in init || q == p;
      var x, y := IndexedRows(init, m, ecosystem, cmp), ScannedRows(init, records, ecosystem, cmp);
      var u := Hits(p, BucketOf(m, ToLower(p.name)), ecosystem, cmp);
      var v := Hits(p, records, ecosystem, cmp);
      if p.name == "" {
        NamelessBucketIsEmpty(records, wanted, ecosystem);
        assert u == [];
      } else {
        assert ToLower(p.name) != "";
        NamedHitsAreKept(p, records, wanted, ecosystem, cmp);
        assert u == v;
      }
      SplitEqual(x, u, y, v);
    }
  }

  function WithNames(packages: seq<Package>): seq<Package> {
    if packages == [] then []
    else
      var p := packages[|packages| - 1];
      WithNames(packages[..|packages| - 1]) + if p.name == "" then [] else [p]
  }

  /** Whether or not such a package is hit, the index finds what a scan for the packages
      with a name finds. */
  lemma {:induction false} IndexScansNamed(packages: seq<Package>, records: seq<Entry>, wanted: set<string>, m: Buckets,
                                           ecosystem: string, cmp: Compare)
    requires forall p :: p in packages ==> ToLower(p.name) in wanted
    requires forall name :: BucketOf(m, name) == Relevant(records, name, wanted, ecosystem)
    ensures IndexedRows(packages, m, ecosystem, cmp) == ScannedRows(WithNames(packages), records, ecosystem, cmp)
  {
    if packages != [] {
      var p, init := packages[|packages| - 1], packages[..|packages| - 1];
      IndexScansNamed(init, records, wanted, m, ecosystem, cmp);
      if p.name == "" {
        NamelessBucketIsEmpty(records, wanted, ecosystem);
        assert Hits(p, BucketOf(m, ToLower(p.name)), ecosystem, cmp) == [];
        assert WithNames(packages) == WithNames(init);
      } else {
        assert ToLower(p.name) != "";
        NamedHitsAreKept(p, records, wanted, ecosystem, cmp);
        assert (WithNames(init) + [p])[..|WithNames(init)|] == WithNames(init);
      }
    }
  }

  lemma SplitEqual<T>(x: seq<T>, u: seq<T>, y: seq<T>, v: seq<T>)
    requires |x| <= |y| && |u| <= |v|
    ensures x + u == y + v <==> x == y && u == v
  {
    if x + u == y + v {
      assert |x| == |y|;
      assert x == (x + u)[..|x|] && y == (y + v)[..|x|];
      assert u == (x + u)[|x|..] && v == (y + v)[|x|..];
    }
  }

  /** On a Debian host: the ranges of a record hold exactly the versions dpkg puts
      inside one of its intervals, shared ends apart. */
  lemma DebianRanges(events: seq<Event>, version: string)
    requires DebianVersion.HasDecimalEpoch(version)
    requires Named(events, DebianVersion.HasDecimalEpoch) && InOrder(events, DebianVersion.DebianOrder)
    ensures Affects(events, version, DebianVersion.DebianOrder) <==>
            InUnion(events, version, DebianVersion.DebianOrder) && !Cancelled(events, version, DebianVersion.DebianOrder)
  {
    DebianVersion.DebianIsPreorder();
    WalkIsUnion(events, version, DebianVersion.DebianOrder, DebianVersion.HasDecimalEpoch);
  }

  /** On an rpm host, as long as the version and the events all carry a release. */
  lemma RpmRanges(events: seq<Event>, version: string)
    requires RpmVersion.HasRelease(version)
    requires Named(events, RpmVersion.HasRelease) && InOrder(events, RpmVersion.RpmOrder)
    ensures Affects(events, version, RpmVersion.RpmOrder) <==>
            InUnion(events, version, RpmVersion.RpmOrder) && !Cancelled(events, version, RpmVersion.RpmOrder)
  {
    RpmVersion.RpmOrderIsPreorder();
    WalkIsUnion(events, version, RpmVersion.RpmOrder, RpmVersion.HasRelease);
  }

  /** On an rpm host, for a list written without releases, whatever release the installed
      version carries. */
  lemma RpmRangesWithoutReleases(events: seq<Event>, version: string)
    requires RpmVersion.HasDecimalEpoch(version)
    requires Named(events, RpmVersion.LacksRelease) && InOrder(events, RpmVersion.RpmOrder)
    ensures Affects(events, version, RpmVersion.RpmOrder) <==>
            InUnion(events, version, RpmVersion.RpmOrder) && !Cancelled(events, version, RpmVersion.RpmOrder)
  {
    hide Overtakes;
    hide Cancels;
    WalkIsUnionUnlessOvertaken(events, version, RpmVersion.RpmOrder);
    forall i, j
      ensures Overtakes(events, i, j, version, RpmVersion.RpmOrder) <==>
              Cancels(events, i, j, version, RpmVersion.RpmOrder)
    {
      OvertakenWithoutReleases(events, i, j, version);
    }
  }

  lemma OvertakenWithoutReleases(events: seq<Event>, i: int, j: int, version: string)
    requires RpmVersion.HasDecimalEpoch(version)
    requires Named(events, RpmVersion.LacksRelease) && InOrder(events, RpmVersion.RpmOrder)
    ensures Overtakes(events, i, j, version, RpmVersion.RpmOrder) <==>
            Cancels(events, i, j, version, RpmVersion.RpmOrder)
  {
    hide RpmVersion.RpmOrder;
    hide RpmVersion.BaseOrder;
    hide RpmVersion.LacksRelease;
    hide RpmVersion.HasDecimalEpoch;
    hide Cancels;
    TiedIsCancelled(events, i, j, version, RpmVersion.RpmOrder);
    if Overtakes(events, i, j, version, RpmVersion.RpmOrder) {
      LackingIsDecimal(events);
      OvertakenTiesInVersion(events, i, j, version);
      RpmVersion.BaseIsRefined(version, BoundaryOf(events[i]).at);
      RpmVersion.BaseIsRefined(version, BoundaryOf(events[j]).at);
    }
  }

  lemma LackingIsDecimal(events: seq<Event>)
    requires Named(events, RpmVersion.LacksRelease)
    ensures Named(events, RpmVersion.HasDecimalEpoch)
  {
    hide RpmVersion.HasDecimalEpoch;
  }

  /** On any ordered list a version is overtaken only by closings of its own epoch and
      version: only releases can be out of step. */
  lemma OvertakenTiesInVersion(events: seq<Event>, i: int, j: int, version: string)
    requires RpmVersion.HasDecimalEpoch(version)
    requires Named(events, RpmVersion.HasDecimalEpoch) && InOrder(events, RpmVersion.RpmOrder)
    requires Overtakes(events, i, j, version, RpmVersion.RpmOrder)
    ensures RpmVersion.BaseOrder(version, BoundaryOf(events[i]).at) == 0
    ensures RpmVersion.BaseOrder(version, BoundaryOf(events[j]).at) == 0
  {
    hide RpmVersion.RpmOrder;
    hide RpmVersion.BaseOrder;
    hide RpmVersion.HasDecimalEpoch;
    var x, y := BoundaryOf(events[i]).at, BoundaryOf(events[j]).at;
    assert NotAbove(events[i], events[j], RpmVersion.RpmOrder);
    RpmVersion.BaseIsRefined(version, x);
    RpmVersion.BaseIsRefined(x, y);
    RpmVersion.BaseIsRefined(version, y);
    RpmVersion.BaseFlips(version, y);
    RpmVersion.BaseFlips(version, x);
    RpmVersion.BaseTransitive(version, x, y);
    RpmVersion.BaseTransitive(x, y, version);
  }

  /** A closing of the version's own epoch and version that it is not past, and a later
      one of them that it is past. */
  ghost predicate OutOfStep(events: seq<Event>, i: int, j: int, version: string) {
    && Overtakes(events, i, j, version, RpmVersion.RpmOrder)
    && RpmVersion.BaseOrder(version, BoundaryOf(events[i]).at) == 0
    && RpmVersion.BaseOrder(version, BoundaryOf(events[j]).at) == 0
  }

  /** Two closings name the same epoch and version. */
  ghost predicate ClosesOneVersionTwice(events: seq<Event>) {
    exists i, j :: 0 <= i < j < |events| && Closes(events[i]) && Closes(events[j]) &&
      RpmVersion.BaseOrder(BoundaryOf(events[i]).at, BoundaryOf(events[j]).at) == 0
  }

  /** On an rpm host, for every ordered list, with, without and with some releases: the
      walk is the union except where two closings of the installed epoch and version are
      out of step, and so wherever no two closings share theirs. */
  lemma RpmRangesWithAnyReleases(events: seq<Event>, version: string)
    requires RpmVersion.HasDecimalEpoch(version)
    requires Named(events, RpmVersion.HasDecimalEpoch) && InOrder(events, RpmVersion.RpmOrder)
    ensures Affects(events, version, RpmVersion.RpmOrder) <==>
            InUnion(events, version, RpmVersion.RpmOrder) && !exists i, j :: OutOfStep(events, i, j, version)
    ensures !ClosesOneVersionTwice(events) ==>
              (Affects(events, version, RpmVersion.RpmOrder) <==> InUnion(events, version, RpmVersion.RpmOrder))
  {
    hide RpmVersion.RpmOrder;
    hide RpmVersion.BaseOrder;
    hide RpmVersion.HasDecimalEpoch;
    WalkIsUnionUnlessOvertaken(events, version, RpmVersion.RpmOrder);
    forall i, j | Overtakes(events, i, j, version, RpmVersion.RpmOrder)
      ensures OutOfStep(events, i, j, version) && ClosesOneVersionTwice(events)
    {
      OvertakenTiesInVersion(events, i, j, version);
      var x, y := BoundaryOf(events[i]).at, BoundaryOf(events[j]).at;
      RpmVersion.BaseFlips(version, x);
      RpmVersion.BaseFlips(version, y);
      RpmVersion.BaseTransitive(x, version, y);
      RpmVersion.BaseTransitive(y, version, x);
      RpmVersion.BaseFlips(x, y);
    }
  }

  /** last_affected 1, then [1-1, 1-2): the installed 1-3 is dropped, although no release
      is past last_affected 1. The list is ordered, its openings and closings alternate,
      and no end is shared. */
  lemma MixedReleasesDropAVersion(x: string, a: string, b: string, v: string)
    requires x == "1" && a == "1-1" && b == "1-2" && v == "1-3"
    ensures var events := [Event("0", "", "", ""), Event("", "", x, ""), Event(a, "", "", ""), Event("", b, "", "")];
            && InOrder(events, RpmVersion.RpmOrder) && InUnion(events, v, RpmVersion.RpmOrder)
            && !Affects(events, v, RpmVersion.RpmOrder) && !Cancelled(events, v, RpmVersion.RpmOrder)
  {
    hide RpmVersion.RpmOrder;
    RpmVersion.OneDigitReleases(a, x, b, "1", "1", "2");
    RpmVersion.OneDigitReleases(v, x, a, "1", "3", "1");
    RpmVersion.OneDigitReleases(v, x, b, "1", "3", "2");
    MixedEndsDropAVersion(x, a, b, v, RpmVersion.RpmOrder);
  }

  lemma MixedEndsDropAVersion(x: string, a: string, b: string, v: string, cmp: Compare)
    requires x != "" && a != "" && b != "" && x != "0" && a != "0" && b != "0"
    requires cmp(x, a) == cmp(x, b) == cmp(v, x) == 0 && cmp(a, b) < 0 && cmp(v, b) > 0
    ensures var events := [Event("0", "", "", ""), Event("", "", x, ""), Event(a, "", "", ""), Event("", b, "", "")];
            InOrder(events, cmp) && InUnion(events, v, cmp) && !Affects(events, v, cmp) && !Cancelled(events, v, cmp)
  {
    var events := [Event("0", "", "", ""), Event("", "", x, ""), Event(a, "", "", ""), Event("", b, "", "")];
    assert Closes(events[1]) && NextClosing(events, 0) == 1;
    assert InInterval(events, 0, v, cmp);
    assert Passed(events[3], v, cmp);
  }

  /** On any other host, for every version and every event list. */
  lemma GenericRanges(events: seq<Event>, version: string)
    requires InOrder(events, GenericVersion.Generic)
    ensures Affects(events, version, GenericVersion.Generic) <==>
            InUnion(events, version, GenericVersion.Generic) && !Cancelled(events, version, GenericVersion.Generic)
  {
    GenericVersion.GenericIsPreorder();
    WalkIsUnion(events, version, GenericVersion.Generic, (s: string) => true);
  }

  /** The offline feed of one collection: the names wanted, the dataset loaded for
      them, every package looked up in it. */
  method CollectOffline(records: seq<Entry>, packages: seq<Package>, ecosystem: string, cmp: Compare)
    returns (rows: seq<Row>)
    ensures ecosystem == "" ==> rows == []
    ensures ecosystem != "" ==> rows == ScannedRows(WithNames(packages), records, ecosystem, cmp)
    ensures ecosystem != "" ==>
              (rows == ScannedRows(packages, records, ecosystem, cmp) <==>
               !NamelessHit(packages, records, ecosystem, cmp))
  {
    if ecosystem == "" {
      return [];
    }
    var wanted: set<string> := {};
    for n := 0 to |packages|
      invariant forall p :: p in packages[..n] ==> ToLower(p.name) in wanted
    {
      assert packages[..n + 1] == packages[..n] + [packages[n]];
      wanted := wanted + {ToLower(packages[n].name)};
    }
    assert packages[..|packages|] == packages;
    var db := new OfflineDB();
    db.Load(records, wanted, ecosystem);
    rows := db.MatchOffline(packages, ecosystem, cmp);
    IndexScansNamed(packages, records, wanted, db.byPackage, ecosystem, cmp);
    FilteringIsLossless(packages, records, wanted, db.byPackage, ecosystem, cmp);
  }
}
