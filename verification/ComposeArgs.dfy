/**
 The `docker compose config` command of a planned run (app/audit/plan.go), against the
 entries of the published list that may admit it (app/run/commands.go).
 */
module ComposeArgs {
  import opened Text
  import opened Allowlist

  datatype Plan = Plan(
    projectDirectory: string,
    files: seq<string>,
    envFiles: seq<string>,
    profiles: seq<string>,
    projectName: string)

  datatype Pair = Pair(flag: string, value: string)

  const COMPOSE: string := "compose"
  const FILE: string := "--file"
  const ENV_FILE: string := "--env-file"
  const PROFILE: string := "--profile"
  const PROJECT_NAME: string := "--project-name"
  const PROJECT_DIRECTORY: string := "--project-directory"
  const CONFIG: string := "config"
  const FORMAT: string := "--format"
  const JSON: string := "json"
  const NO_ENV: string := "--no-env-resolution"

  function WithFlag(flag: string, values: seq<string>): seq<Pair> {
    if values == [] then [] else WithFlag(flag, values[..|values| - 1]) + [Pair(flag, values[|values| - 1])]
  }

  /** The flags of a plan: its directory, then its lists as given, then its name if it has one. */
  function PairsOf(p: Plan): seq<Pair> {
    [Pair(PROJECT_DIRECTORY, p.projectDirectory)] + WithFlag(FILE, p.files) + WithFlag(ENV_FILE, p.envFiles) +
    WithFlag(PROFILE, p.profiles) + if p.projectName != "" then [Pair(PROJECT_NAME, p.projectName)] else []
  }

  function Flatten(ps: seq<Pair>): seq<string> {
    if ps == [] then [] else [ps[0].flag, ps[0].value] + Flatten(ps[1..])
  }

  function Ending(noEnvResolution: bool): seq<string> {
    [CONFIG, FORMAT, JSON] + if noEnvResolution then [NO_ENV] else []
  }

  function ArgsOf(p: Plan, noEnvResolution: bool): seq<string> {
    [COMPOSE] + Flatten(PairsOf(p)) + Ending(noEnvResolution)
  }

  /** The flag before each of the values. */
  function EachAfter(flag: string, values: seq<string>): seq<string> {
    seq(2 * |values|, i requires 0 <= i < 2 * |values| => if i % 2 == 0 then flag else values[i / 2])
  }

  /** The whole command, word by word. */
  lemma CommandIs(p: Plan, noEnvResolution: bool)
    ensures ArgsOf(p, noEnvResolution) ==
            ["compose", "--project-directory", p.projectDirectory] +
            EachAfter("--file", p.files) + EachAfter("--env-file", p.envFiles) + EachAfter("--profile", p.profiles) +
            (if p.projectName != "" then ["--project-name", p.projectName] else []) +
            ["config", "--format", "json"] + (if noEnvResolution then ["--no-env-resolution"] else [])
  {
    hide Flatten;
    hide WithFlag;
    var first := [Pair(PROJECT_DIRECTORY, p.projectDirectory)];
    var files, envs := WithFlag(FILE, p.files), WithFlag(ENV_FILE, p.envFiles);
    var profiles := WithFlag(PROFILE, p.profiles);
    var last := if p.projectName != "" then [Pair(PROJECT_NAME, p.projectName)] else [];
    FlagIsRepeated(FILE, p.files);
    FlagIsRepeated(ENV_FILE, p.envFiles);
    FlagIsRepeated(PROFILE, p.profiles);
    FlattenPlus(first + files + envs + profiles, last);
    FlattenPlus(first + files + envs, profiles);
    FlattenPlus(first + files, envs);
    FlattenPlus(first, files);
    FewPairs(PROJECT_DIRECTORY, p.projectDirectory);
    FewPairs(PROJECT_NAME, p.projectName);
  }

  lemma FewPairs(flag: string, value: string)
    ensures Flatten([Pair(flag, value)]) == [flag, value] && Flatten([]) == []
  {
    assert Flatten([Pair(flag, value)]) == [flag, value] + Flatten([]);
  }

  lemma {:induction false} FlagIsRepeated(flag: string, values: seq<string>)
    ensures Flatten(WithFlag(flag, values)) == EachAfter(flag, values)
  {
    if values != [] {
      var n := |values| - 1;
      FlagIsRepeated(flag, values[..n]);
      FlattenSnoc(WithFlag(flag, values[..n]), Pair(flag, values[n]));
      assert EachAfter(flag, values) == EachAfter(flag, values[..n]) + [flag, values[n]];
    }
  }

  lemma {:induction false} FlattenSnoc(ps: seq<Pair>, p: Pair)
    ensures Flatten(ps + [p]) == Flatten(ps) + [p.flag, p.value]
  {
    if ps == [] {
      assert ps + [p] == [p] && Flatten([p]) == [p.flag, p.value] + Flatten([]);
    } else {
      assert (ps + [p])[1..] == ps[1..] + [p];
      FlattenSnoc(ps[1..], p);
    }
  }

  lemma {:induction false} FlattenPlus(ps: seq<Pair>, qs: seq<Pair>)
    ensures Flatten(ps + qs) == Flatten(ps) + Flatten(qs)
  {
    if ps == [] {
      assert ps + qs == qs;
    } else {
      assert (ps + qs)[1..] == ps[1..] + qs;
      FlattenPlus(ps[1..], qs);
    }
  }

  method AppendFlags(args: seq<string>, ghost done: seq<Pair>, flag: string, values: seq<string>)
    returns (out: seq<string>)
    requires args == [COMPOSE] + Flatten(done)
    ensures out == [COMPOSE] + Flatten(done + WithFlag(flag, values))
  {
    out := args;
    assert done + [] == done;
    for n := 0 to |values|
      invariant out == [COMPOSE] + Flatten(done + WithFlag(flag, values[..n]))
    {
      assert values[..n + 1][..n] == values[..n];
      ghost var ps, p := done + WithFlag(flag, values[..n]), Pair(flag, values[n]);
      FlattenSnoc(ps, p);
      assert done + WithFlag(flag, values[..n + 1]) == ps + [p];
      out := out + [flag, values[n]];
    }
    assert values[..|values|] == values;
  }

  method ComposeConfigArgs(p: Plan, noEnvResolution: bool) returns (args: seq<string>)
    ensures args == ArgsOf(p, noEnvResolution)
  {
    args := [COMPOSE, PROJECT_DIRECTORY, p.projectDirectory];
    ghost var first := [Pair(PROJECT_DIRECTORY, p.projectDirectory)];
    assert Flatten(first) == [PROJECT_DIRECTORY, p.projectDirectory] + Flatten([]);
    args := AppendFlags(args, first, FILE, p.files);
    args := AppendFlags(args, first + WithFlag(FILE, p.files), ENV_FILE, p.envFiles);
    ghost var done := first + WithFlag(FILE, p.files) + WithFlag(ENV_FILE, p.envFiles);
    args := AppendFlags(args, done, PROFILE, p.profiles);
    done := done + WithFlag(PROFILE, p.profiles);
    if p.projectName != "" {
      FlattenSnoc(done, Pair(PROJECT_NAME, p.projectName));
      args := args + [PROJECT_NAME, p.projectName];
    } else {
      assert done + [] == done;
    }
    args := args + [CONFIG, FORMAT, JSON];
    if noEnvResolution {
      args := args + [NO_ENV];
    }
  }

  // -------------------------------------------------------- the published entries

  const COMPOSE_OPTIONS: map<string, string> :=
    map[FILE := "path", ENV_FILE := "path", PROFILE := "name", PROJECT_NAME := "name", PROJECT_DIRECTORY := "path"]

  const VERSION_SPEC := Spec("docker", [COMPOSE, "version", "--short"], 0, map[])
  const CONFIG_SPEC := Spec("docker", [COMPOSE, OPTIONS, CONFIG, FORMAT, JSON, NO_ENV], 64, COMPOSE_OPTIONS)
  const OLD_CONFIG_SPEC := Spec("docker", [COMPOSE, OPTIONS, CONFIG, FORMAT, JSON], 64, COMPOSE_OPTIONS)
  const HASH_SPEC := Spec("docker", [COMPOSE, OPTIONS, CONFIG, "--hash", "*"], 64, COMPOSE_OPTIONS)

  /** The first spec of the list that admits the command. */
  function Allowed(specs: seq<Spec>, binary: string, argv: seq<string>): Option<Spec> {
    if specs == [] then None
    else if specs[0].binary == binary && Greedy(specs[0], Tokens(specs[0].args), argv) then Some(specs[0])
    else Allowed(specs[1..], binary, argv)
  }

  method FindAllowed(specs: seq<Spec>, binary: string, argv: seq<string>) returns (spec: Option<Spec>)
    ensures spec == Allowed(specs, binary, argv)
  {
    assert specs[0..] == specs;
    for n := 0 to |specs|
      invariant Allowed(specs[n..], binary, argv) == Allowed(specs, binary, argv)
    {
      assert specs[n..][1..] == specs[n + 1..];
      if specs[n].binary != binary {
        continue;
      }
      var ok := Matches(specs[n], argv);
      if ok {
        return Some(specs[n]);
      }
    }
    return None;
  }

  /** The other entries: another binary, or another docker subcommand. */
  predicate IsOther(s: Spec) {
    s.binary != "docker" || (s.args != [] && s.args[0] != "" && s.args[0][0] != '<' && s.args[0] != COMPOSE)
  }

  lemma PlainWordIsLiteral(w: string)
    requires w != "" && w[0] != '<'
    ensures TokenOf(w) == Literal(w)
  {}

  lemma OtherRefuses(s: Spec, argv: seq<string>)
    requires IsOther(s) && s.binary == "docker" && argv != [] && argv[0] == COMPOSE
    ensures !Greedy(s, Tokens(s.args), argv)
  {}

  lemma {:induction false} AllowedInside(before: seq<Spec>, middle: seq<Spec>, after: seq<Spec>, argv: seq<string>)
    requires (forall s :: s in before ==> IsOther(s)) && (forall s :: s in after ==> IsOther(s))
    requires argv != [] && argv[0] == COMPOSE
    ensures Allowed(before + middle + after, "docker", argv) == Allowed(middle, "docker", argv)
  {
    var all := before + middle + after;
    if before != [] {
      assert all[0] == before[0] && all[1..] == before[1..] + middle + after;
      AllowedInside(before[1..], middle, after, argv);
      if before[0].binary == "docker" { OtherRefuses(before[0], argv); }
    } else if middle != [] {
      assert all[0] == middle[0] && all[1..] == [] + middle[1..] + after;
      AllowedInside([], middle[1..], after, argv);
    } else if after != [] {
      assert all == after && all[1..] == [] + [] + after[1..];
      AllowedInside([], [], after[1..], argv);
      if after[0].binary == "docker" { OtherRefuses(after[0], argv); }
    }
  }

  // ------------------------------------------------------------------ the theorem

  predicate KnownFlags(s: Spec, ps: seq<Pair>) { forall i :: 0 <= i < |ps| ==> ps[i].flag in s.options }

  predicate AllFit(s: Spec, ps: seq<Pair>) { forall i :: 0 <= i < |ps| ==> IsPair(s, ps[i].flag, ps[i].value) }

  /** Generated pairs are taken one by one, whatever their values look like. */
  lemma {:induction false} GeneratedPairsAreTaken(s: Spec, ps: seq<Pair>, tail: seq<string>, left: nat)
    requires KnownFlags(s, ps) && tail != [] && tail[0] !in s.options
    ensures TakePairs(s, Flatten(ps) + tail, left) == if AllFit(s, ps) && |ps| <= left then Some(tail) else None
  {
    var argv := Flatten(ps) + tail;
    if ps == [] {
      assert argv == tail;
    } else {
      assert argv[0] == ps[0].flag && argv[1] == ps[0].value && argv[2..] == Flatten(ps[1..]) + tail;
      assert AllFit(s, ps) <==> IsPair(s, ps[0].flag, ps[0].value) && AllFit(s, ps[1..]) by {
        if IsPair(s, ps[0].flag, ps[0].value) && AllFit(s, ps[1..]) {
          forall i | 0 <= i < |ps| ensures IsPair(s, ps[i].flag, ps[i].value) {
            if i > 0 { assert ps[1..][i - 1] == ps[i]; }
          }
        }
      }
      if left > 0 { GeneratedPairsAreTaken(s, ps[1..], tail, left - 1); }
    }
  }

  predicate FitsAll(kind: string, values: seq<string>) { forall i :: 0 <= i < |values| ==> Fits(kind, values[i]) }

  /** Every path and every name of the plan is one the allowlist lets through, and there
      are no more than 64 flags. */
  predicate Admissible(p: Plan) {
    && Fits("path", p.projectDirectory)
    && FitsAll("path", p.files) && FitsAll("path", p.envFiles) && FitsAll("name", p.profiles)
    && (p.projectName != "" ==> Fits("name", p.projectName))
    && 1 + |p.files| + |p.envFiles| + |p.profiles| + (if p.projectName != "" then 1 else 0) <= 64
  }

  predicate HasOptions(s: Spec) { s.options == COMPOSE_OPTIONS && s.maxRepeat == 64 }

  lemma {:induction false} WithFlagFits(s: Spec, flag: string, values: seq<string>)
    requires HasOptions(s) && flag in COMPOSE_OPTIONS
    ensures |WithFlag(flag, values)| == |values| && KnownFlags(s, WithFlag(flag, values))
    ensures AllFit(s, WithFlag(flag, values)) <==> FitsAll(COMPOSE_OPTIONS[flag], values)
  {
    if values != [] {
      var init, last := values[..|values| - 1], values[|values| - 1];
      WithFlagFits(s, flag, init);
      AllFitPlus(s, WithFlag(flag, init), [Pair(flag, last)]);
      OneFits(s, Pair(flag, last));
      FitsAllSnoc(COMPOSE_OPTIONS[flag], init, last);
      assert values == init + [last];
    }
  }

  lemma OneFits(s: Spec, p: Pair)
    ensures AllFit(s, [p]) <==> IsPair(s, p.flag, p.value)
  {
    assert [p][0] == p;
  }

  lemma FitsAllSnoc(kind: string, init: seq<string>, last: string)
    ensures FitsAll(kind, init + [last]) <==> FitsAll(kind, init) && Fits(kind, last)
  {
    var all := init + [last];
    assert all[|init|] == last;
    assert forall i :: 0 <= i < |init| ==> all[i] == init[i];
  }

  lemma AllFitPlus(s: Spec, ps: seq<Pair>, qs: seq<Pair>)
    ensures AllFit(s, ps + qs) <==> AllFit(s, ps) && AllFit(s, qs)
    ensures KnownFlags(s, ps + qs) <==> KnownFlags(s, ps) && KnownFlags(s, qs)
  {
    var all := ps + qs;
    if AllFit(s, all) {
      forall i | 0 <= i < |qs| ensures IsPair(s, qs[i].flag, qs[i].value) { assert all[|ps| + i] == qs[i]; }
      forall i | 0 <= i < |ps| ensures IsPair(s, ps[i].flag, ps[i].value) { assert all[i] == ps[i]; }
    }
    if KnownFlags(s, all) {
      forall i | 0 <= i < |qs| ensures qs[i].flag in s.options { assert all[|ps| + i] == qs[i]; }
      forall i | 0 <= i < |ps| ensures ps[i].flag in s.options { assert all[i] == ps[i]; }
    }
  }

  lemma PlanPairsFit(s: Spec, p: Plan)
    requires HasOptions(s)
    ensures KnownFlags(s, PairsOf(p))
    ensures AllFit(s, PairsOf(p)) && |PairsOf(p)| <= 64 <==> Admissible(p)
  {
    var first := [Pair(PROJECT_DIRECTORY, p.projectDirectory)];
    var files, envs := WithFlag(FILE, p.files), WithFlag(ENV_FILE, p.envFiles);
    var profiles := WithFlag(PROFILE, p.profiles);
    var last := if p.projectName != "" then [Pair(PROJECT_NAME, p.projectName)] else [];
    WithFlagFits(s, FILE, p.files);
    WithFlagFits(s, ENV_FILE, p.envFiles);
    WithFlagFits(s, PROFILE, p.profiles);
    AllFitPlus(s, first, files);
    AllFitPlus(s, first + files, envs);
    AllFitPlus(s, first + files + envs, profiles);
    AllFitPlus(s, first + files + envs + profiles, last);
    assert AllFit(s, first) <==> Fits("path", p.projectDirectory) by {
      assert AllFit(s, first) ==> IsPair(s, first[0].flag, first[0].value);
    }
    assert p.projectName != "" ==> (AllFit(s, last) <==> Fits("name", p.projectName)) by {
      assert p.projectName != "" && AllFit(s, last) ==> IsPair(s, last[0].flag, last[0].value);
    }
  }

  /** A `compose <options> <words>` spec takes the generated command exactly when the
      flags are admissible and the words are its ending. */
  lemma ConfigSpecAccepts(s: Spec, words: seq<string>, p: Plan, noEnv: bool)
    requires HasOptions(s) && s.args == [COMPOSE, OPTIONS] + words
    requires forall i :: 0 <= i < |words| ==> words[i] != "" && words[i][0] != '<'
    ensures Greedy(s, Tokens(s.args), ArgsOf(p, noEnv)) <==> Admissible(p) && words == Ending(noEnv)
  {
    hide Greedy;
    hide Tokens;
    hide TakePairs;
    hide Flatten;
    hide PairsOf;
    hide Admissible;
    hide AllFit;
    var argv, ending := ArgsOf(p, noEnv), Ending(noEnv);
    var pairs := Flatten(PairsOf(p)) + ending;
    assert s.args == [COMPOSE] + ([OPTIONS] + words) && argv == [COMPOSE] + pairs;
    LiteralPasses(s, COMPOSE, [OPTIONS] + words, pairs);
    OptionsPass(s, words, pairs);
    PlanPairsFit(s, p);
    GeneratedPairsAreTaken(s, PairsOf(p), ending, 64);
    WordsAreMatched(s, words, ending);
  }

  lemma LiteralPasses(s: Spec, word: string, args: seq<string>, argv: seq<string>)
    requires word != "" && word[0] != '<'
    ensures Greedy(s, Tokens([word] + args), [word] + argv) == Greedy(s, Tokens(args), argv)
  {
    PlainWordIsLiteral(word);
    assert ([word] + args)[1..] == args && ([word] + argv)[1..] == argv;
  }

  lemma OptionsPass(s: Spec, args: seq<string>, argv: seq<string>)
    ensures var rest := TakePairs(s, argv, s.Max());
            Greedy(s, Tokens([OPTIONS] + args), argv) == (rest.Some? && Greedy(s, Tokens(args), rest.value))
  {}

  lemma {:induction false} WordsAreMatched(s: Spec, words: seq<string>, argv: seq<string>)
    requires forall i :: 0 <= i < |words| ==> words[i] != "" && words[i][0] != '<'
    ensures Greedy(s, Tokens(words), argv) <==> words == argv
  {
    if words != [] {
      PlainWordIsLiteral(words[0]);
      if argv != [] {
        WordsAreMatched(s, words[1..], argv[1..]);
        assert words == [words[0]] + words[1..] && argv == [argv[0]] + argv[1..];
      }
    }
  }

  lemma OwnEntriesDecide(p: Plan, noEnv: bool)
    ensures var argv := ArgsOf(p, noEnv);
            && !Greedy(VERSION_SPEC, Tokens(VERSION_SPEC.args), argv)
            && (Greedy(CONFIG_SPEC, Tokens(CONFIG_SPEC.args), argv) <==> Admissible(p) && noEnv)
            && (Greedy(OLD_CONFIG_SPEC, Tokens(OLD_CONFIG_SPEC.args), argv) <==> Admissible(p) && !noEnv)
            && !Greedy(HASH_SPEC, Tokens(HASH_SPEC.args), argv)
  {
    hide Greedy;
    hide Tokens;
    hide ArgsOf;
    hide Admissible;
    VersionRefuses(p, noEnv);
    var new_, older, hash := [CONFIG, FORMAT, JSON, NO_ENV], [CONFIG, FORMAT, JSON], [CONFIG, "--hash", "*"];
    assert new_ == Ending(true) && older == Ending(false) && |new_| != |older|;
    assert hash[1] != Ending(noEnv)[1];
    ConfigSpecAccepts(CONFIG_SPEC, new_, p, noEnv);
    ConfigSpecAccepts(OLD_CONFIG_SPEC, older, p, noEnv);
    ConfigSpecAccepts(HASH_SPEC, hash, p, noEnv);
  }

  lemma AllowedOfFour(a: Spec, b: Spec, c: Spec, d: Spec, argv: seq<string>)
    requires a.binary == b.binary == c.binary == d.binary == "docker"
    requires !Greedy(a, Tokens(a.args), argv) && !Greedy(d, Tokens(d.args), argv)
    ensures Allowed([a, b, c, d], "docker", argv) ==
            if Greedy(b, Tokens(b.args), argv) then Some(b)
            else if Greedy(c, Tokens(c.args), argv) then Some(c) else None
  {
    assert [a, b, c, d] == [a] + [b, c, d] && [b, c, d] == [b] + [c, d] && [c, d] == [c] + [d] && [d] == [d] + [];
    AllowedFirst(a, [b, c, d], argv);
    AllowedFirst(b, [c, d], argv);
    AllowedFirst(c, [d], argv);
    AllowedFirst(d, [], argv);
  }

  lemma AllowedFirst(s: Spec, rest: seq<Spec>, argv: seq<string>)
    requires s.binary == "docker"
    ensures Allowed([s] + rest, "docker", argv) ==
            if Greedy(s, Tokens(s.args), argv) then Some(s) else Allowed(rest, "docker", argv)
  {}

  /** With the published list, whatever its other entries, the generated command is
      admitted exactly when the plan's paths and names are, by its own entry. */
  lemma GeneratedCommandIsAllowedExactlyWhen(before: seq<Spec>, after: seq<Spec>, p: Plan, noEnv: bool)
    requires (forall s :: s in before ==> IsOther(s)) && (forall s :: s in after ==> IsOther(s))
    ensures var own := [VERSION_SPEC, CONFIG_SPEC, OLD_CONFIG_SPEC, HASH_SPEC];
            var fits := && Fits("path", p.projectDirectory)
                        && (forall i :: 0 <= i < |p.files| ==> Fits("path", p.files[i]))
                        && (forall i :: 0 <= i < |p.envFiles| ==> Fits("path", p.envFiles[i]))
                        && (forall i :: 0 <= i < |p.profiles| ==> Fits("name", p.profiles[i]))
                        && (p.projectName != "" ==> Fits("name", p.projectName));
            var flags := 1 + |p.files| + |p.envFiles| + |p.profiles| + if p.projectName != "" then 1 else 0;
            Allowed(before + own + after, "docker", ArgsOf(p, noEnv)) ==
            if !fits || flags > 64 then None else if noEnv then Some(CONFIG_SPEC) else Some(OLD_CONFIG_SPEC)
  {
    hide Allowed;
    hide Flatten;
    hide Fits;
    hide Greedy;
    hide Tokens;
    AllowedInside(before, [VERSION_SPEC, CONFIG_SPEC, OLD_CONFIG_SPEC, HASH_SPEC], after, ArgsOf(p, noEnv));
    OwnEntriesDecide(p, noEnv);
    AllowedOfFour(VERSION_SPEC, CONFIG_SPEC, OLD_CONFIG_SPEC, HASH_SPEC, ArgsOf(p, noEnv));
  }

  lemma VersionRefuses(p: Plan, noEnv: bool)
    ensures !Greedy(VERSION_SPEC, Tokens(VERSION_SPEC.args), ArgsOf(p, noEnv))
  {
    var words := VERSION_SPEC.args;
    WordsAreMatched(VERSION_SPEC, words, ArgsOf(p, noEnv));
    assert ArgsOf(p, noEnv)[1] == PROJECT_DIRECTORY;
  }

  /** The entries with options are free of the ambiguity a greedy matcher fears. */
  lemma {:induction false} PlainWordsAreUnambiguous(s: Spec, words: seq<string>)
    requires forall i :: 0 <= i < |words| ==> words[i] != "" && words[i][0] != '<'
    ensures Unambiguous(s, Tokens(words))
  {
    if words != [] {
      PlainWordIsLiteral(words[0]);
      PlainWordsAreUnambiguous(s, words[1..]);
    }
  }

  lemma TokensOfEntry(words: seq<string>)
    ensures var args := [COMPOSE, OPTIONS] + words;
            Tokens(args) == [Literal(COMPOSE)] + ([Options] + Tokens(words))
  {}

  lemma EntryIsUnambiguous(s: Spec, tail: seq<Token>)
    requires Unambiguous(s, tail) && tail != [] && tail[0].Literal? && tail[0].text !in s.options
    ensures Unambiguous(s, [Literal(COMPOSE)] + ([Options] + tail))
  {}

  lemma EntryIsExact(s: Spec, words: seq<string>, argv: seq<string>)
    requires HasOptions(s) && s.args == [COMPOSE, OPTIONS] + words && words != [] && words[0] == CONFIG
    requires forall i :: 0 <= i < |words| ==> words[i] != "" && words[i][0] != '<'
    ensures Greedy(s, Tokens(s.args), argv) <==> InLanguage(s, Tokens(s.args), argv)
  {
    PlainWordIsLiteral(CONFIG);
    PlainWordsAreUnambiguous(s, words);
    TokensOfEntry(words);
    EntryIsUnambiguous(s, Tokens(words));
    GreedyIsExact(s, Tokens(s.args), argv);
  }
}
