/**
 What `docker compose up <service>…` starts: selectServices of app/audit/plan.go.
 */
module ServiceSelection {
  import opened Text
  import opened Ordering

  datatype Service = Service(name: string, dependsOn: seq<string>)

  class LaunchPlan {
    var services: seq<string> // named on the planned command line
    var started: seq<string>  // what that starts

    constructor (services: seq<string>)
      ensures this.services == services && started == []
    {
      this.services, started := services, [];
    }
  }

  class Manifest {
    var services: seq<Service>

    constructor (services: seq<Service>)
      ensures this.services == services
    {
      this.services := services;
    }
  }

  function Names(services: seq<Service>): seq<string> {
    seq(|services|, k requires 0 <= k < |services| => services[k].name)
  }

  type Table = map<string, Service>

  /** By name; of two services of one name the last counts. */
  function TableOf(services: seq<Service>): (m: Table)
    ensures forall n :: n in m <==> exists k :: 0 <= k < |services| && services[k].name == n
    ensures forall n :: n in m ==> m[n].name == n
  {
    if services == [] then map[]
    else
      var last := services[|services| - 1];
      TableOf(services[..|services| - 1])[last.name := last]
  }

  /** The last service of a name is the one the table has. */
  lemma {:induction false} LastOfANameCounts(before: seq<Service>, s: Service, after: seq<Service>)
    requires forall t :: t in after ==> t.name != s.name
    ensures var m := TableOf(before + [s] + after); s.name in m && m[s.name] == s
  {
    hide TableOf;
    if after == [] {
      assert before + [s] + after == before + [s];
      TableOfMore(before, s);
    } else {
      var last := |after| - 1;
      var rest := before + [s] + after[..last];
      assert before + [s] + after == rest + [after[last]];
      LastOfANameCounts(before, s, after[..last]);
      TableOfMore(rest, after[last]);
    }
  }

  lemma TableOfMore(services: seq<Service>, s: Service)
    ensures TableOf(services + [s]) == TableOf(services)[s.name := s]
  {
    assert (services + [s])[..|services|] == services;
  }

  // ------------------------------------------------------- the dependency closure

  /** The set contains what its declared members depend on. */
  ghost predicate ClosedUnder(m: Table, s: set<string>) {
    forall n, d :: n in s && n in m && d in m[n].dependsOn ==> d in s
  }

  ghost predicate Includes(s: set<string>, names: seq<string>) { forall n :: n in names ==> n in s }

  /** In every closed set that includes what was asked for. */
  ghost predicate Reachable(m: Table, asked: seq<string>, name: string) {
    forall s: set<string> :: Includes(s, asked) && ClosedUnder(m, s) ==> name in s
  }

  /** The closure of what was asked for, when every name of it is declared. */
  ghost predicate IsClosure(m: Table, asked: seq<string>, s: set<string>) {
    s <= m.Keys && forall n :: n in s <==> Reachable(m, asked, n)
  }

  lemma DependencyIsReachable(m: Table, asked: seq<string>, name: string, d: string)
    requires Reachable(m, asked, name) && name in m && d in m[name].dependsOn
    ensures Reachable(m, asked, d)
  {}

  /** Declared services that have not been visited yet. */
  ghost function Left(m: Table, wanted: set<string>): set<string> { m.Keys - wanted }

  /** The queue of names still to visit, first come first served. A name that is not
      declared stops it. */
  method Close(m: Table, asked: seq<string>) returns (wanted: set<string>, missing: Option<string>)
    ensures missing.None? ==> IsClosure(m, asked, wanted)
    ensures missing.Some? ==> Reachable(m, asked, missing.value) && missing.value !in m
  {
    wanted := {};
    var queue := asked;
    while |queue| > 0
      invariant wanted <= m.Keys
      invariant forall n :: n in wanted || n in queue ==> Reachable(m, asked, n)
      invariant forall n :: n in asked ==> n in wanted || n in queue
      invariant forall n, d :: n in wanted && d in m[n].dependsOn ==> d in wanted || d in queue
      decreases Left(m, wanted), |queue|
    {
      var name := queue[0];
      ghost var before := queue;
      queue := queue[1..];
      assert forall n :: n in before <==> n == name || n in queue;
      if name in wanted {
        continue;
      }
      if name !in m {
        return wanted, Some(name);
      }
      assert Left(m, wanted + {name}) < Left(m, wanted) by {
        assert name in Left(m, wanted);
      }
      wanted := wanted + {name};
      forall d | d in m[name].dependsOn ensures Reachable(m, asked, d) {
        DependencyIsReachable(m, asked, name, d);
      }
      queue := queue + m[name].dependsOn;
    }
    missing := None;
    forall n ensures n in wanted <==> Reachable(m, asked, n) {
      if Reachable(m, asked, n) {
        assert Includes(wanted, asked) && ClosedUnder(m, wanted);
      }
    }
  }

  // ---------------------------------------------------------- what the plan keeps

  function Keep(services: seq<Service>, wanted: set<string>): seq<Service> {
    if services == [] then []
    else
      var last := services[|services| - 1];
      Keep(services[..|services| - 1], wanted) + if last.name in wanted then [last] else []
  }

  method BuildTable(services: seq<Service>) returns (byName: Table)
    ensures byName == TableOf(services)
  {
    byName := map[];
    for n := 0 to |services|
      invariant byName == TableOf(services[..n])
    {
      assert services[..n + 1][..n] == services[..n];
      byName := byName[services[n].name := services[n]];
    }
    assert services[..|services|] == services;
  }

  method AppendNames(started: seq<string>, services: seq<Service>) returns (out: seq<string>)
    ensures out == started + Names(services)
  {
    out := started;
    for n := 0 to |services|
      invariant out == started + Names(services)[..n]
    {
      out := out + [services[n].name];
    }
  }

  method KeepWanted(started: seq<string>, services: seq<Service>, wanted: set<string>)
    returns (kept: seq<Service>, out: seq<string>)
    ensures kept == Keep(services, wanted) && out == started + Names(kept)
  {
    kept, out := [], started;
    assert Names([]) == [];
    for n := 0 to |services|
      invariant kept == Keep(services[..n], wanted) && out == started + Names(kept)
    {
      assert services[..n + 1][..n] == services[..n];
      if services[n].name in wanted {
        assert Names(kept + [services[n]]) == Names(kept) + [services[n].name];
        kept := kept + [services[n]];
        out := out + [services[n].name];
      }
    }
    assert services[..|services|] == services;
  }

  /** Narrows the manifest to the closure of the services asked for, in their order, and
      names it in the plan, sorted. A reachable name that is not declared is an error,
      and leaves both as they were. */
  method SelectServices(plan: LaunchPlan, parsed: Manifest) returns (missing: Option<string>)
    modifies plan, parsed
    ensures plan.services == old(plan.services)
    ensures old(plan.services) == [] ==>
              && missing.None?
              && parsed.services == old(parsed.services)
              && plan.started == StableSort(CompareStrings, old(plan.started) + Names(parsed.services))
    ensures missing.Some? ==>
              && Reachable(TableOf(old(parsed.services)), old(plan.services), missing.value)
              && missing.value !in TableOf(old(parsed.services))
              && parsed.services == old(parsed.services) && plan.started == old(plan.started)
    ensures missing.None? && old(plan.services) != [] ==>
              exists wanted ::
                && IsClosure(TableOf(old(parsed.services)), old(plan.services), wanted)
                && parsed.services == Keep(old(parsed.services), wanted)
                && plan.started == StableSort(CompareStrings, old(plan.started) + Names(parsed.services))
  {
    var byName := BuildTable(parsed.services);
    missing := None;
    if |plan.services| == 0 {
      var started := AppendNames(plan.started, parsed.services);
      plan.started := StableSort(CompareStrings, started);
      return;
    }
    var wanted;
    wanted, missing := Close(byName, plan.services);
    if missing.Some? {
      return;
    }
    var kept, started := KeepWanted(plan.started, parsed.services, wanted);
    parsed.services := kept;
    plan.started := StableSort(CompareStrings, started);
  }

  // ----------------------------------------------------------- what that comes to

  lemma ClosureIsLeast(m: Table, asked: seq<string>, wanted: set<string>, s: set<string>)
    requires IsClosure(m, asked, wanted)
    ensures Includes(wanted, asked) && ClosedUnder(m, wanted)
    ensures Includes(s, asked) && ClosedUnder(m, s) ==> wanted <= s
  {}

  /** The selection fails exactly when some reachable name is not declared. */
  lemma FailsExactlyWhen(m: Table, asked: seq<string>)
    ensures (exists wanted :: IsClosure(m, asked, wanted)) <==> forall n :: Reachable(m, asked, n) ==> n in m
  {
    if forall n :: Reachable(m, asked, n) ==> n in m {
      var wanted := set n | n in m.Keys && Reachable(m, asked, n);
      assert IsClosure(m, asked, wanted);
    }
  }

  /** Every service of the closure is kept, and no other. */
  lemma {:induction false} KeptAreWanted(services: seq<Service>, wanted: set<string>, s: Service)
    ensures s in Keep(services, wanted) <==> s in services && s.name in wanted
    ensures |Keep(services, wanted)| <= |services|
  {
    if services != [] {
      KeptAreWanted(services[..|services| - 1], wanted, s);
      assert forall x :: x in services <==> x in services[..|services| - 1] || x == services[|services| - 1];
    }
  }

  /** In the order they are declared. */
  lemma {:induction false} KeptInOrder(xs: seq<Service>, ys: seq<Service>, wanted: set<string>)
    ensures Keep(xs + ys, wanted) == Keep(xs, wanted) + Keep(ys, wanted)
  {
    if ys == [] {
      assert xs + ys == xs;
    } else {
      var all, n := xs + ys, |ys| - 1;
      assert all[..|all| - 1] == xs + ys[..n] && all[|all| - 1] == ys[n];
      KeptInOrder(xs, ys[..n], wanted);
    }
  }

  /** What is started is the sorted list of the names kept. */
  lemma StartedIsSorted(names: seq<string>)
    ensures Sorted(CompareStrings, StableSort(CompareStrings, names))
    ensures multiset(StableSort(CompareStrings, names)) == multiset(names)
  {
    StringsArePreordered();
    StableSortIsStable(CompareStrings, names, "");
  }
}
