/**
 The command allowlist (app/run/allowlist.go) and the `docker compose` invocation it
 has to admit (app/audit/plan.go, app/run/commands.go).
 */
module Allowlist {
  import opened Text

  // -------------------------------------------------------- argument classes

  predicate InClass(c: char, extra: string) { IsLetter(c) || IsDigit(c) || c in extra }

  predicate AllInClass(s: string, extra: string) { forall i | 0 <= i < |s| :: InClass(s[i], extra) }

  predicate IsWordOf(s: string, extra: string, max: nat) { 1 <= |s| <= max && AllInClass(s, extra) }

  const KINDS: set<string> := {"unit", "suite", "path", "container", "image", "user", "name"}

  /** argPatterns: the class of one free-form argument. */
  predicate Fits(kind: string, s: string) {
    match kind
    case "unit" => IsWordOf(s, "@:._\\-", 255)
    case "suite" => IsWordOf(s, "._-", 64)
    case "path" => s != "" && s[0] == '/' && |s| <= 1001 && AllInClass(s[1..], "@:+,%._/-")
    case "container" => IsWordOf(s, "_.-", 128) && InClass(s[0], "")
    case "image" => IsWordOf(s, "_.:/@-", 256) && InClass(s[0], "")
    case "user" => IsWordOf(s, "._-", 64)
    case "name" => IsWordOf(s, "@+._-", 128)
    case _ => false
  }

  /** What a shell would give a meaning to. */
  const UNSAFE: string := " \"';`$"

  predicate IsPlain(s: string) { forall i | 0 <= i < |s| :: s[i] !in UNSAFE }

  /** A class nobody declared is matched by nothing. */
  lemma OnlyKnownKindsFit(kind: string, s: string)
    ensures Fits(kind, s) ==> kind in KINDS
  {}

  lemma ClassIsPlain(s: string, extra: string)
    requires AllInClass(s, extra) && IsPlain(extra)
    ensures IsPlain(s)
  {
    forall i | 0 <= i < |s| ensures s[i] !in UNSAFE {
      if s[i] in extra {
        var k :| 0 <= k < |extra| && extra[k] == s[i];
      } else {
        assert IsLetter(s[i]) || IsDigit(s[i]);
      }
    }
  }

  /** Whatever the class, none of the unsafe characters can occur. */
  lemma FittingIsPlain(kind: string, s: string)
    requires Fits(kind, s)
    ensures IsPlain(s)
  {
    match kind
    case "unit" => ClassIsPlain(s, "@:._\\-");
    case "suite" => ClassIsPlain(s, "._-");
    case "path" =>
      ClassIsPlain(s[1..], "@:+,%._/-");
      assert s == [s[0]] + s[1..];
    case "container" => ClassIsPlain(s, "_.-");
    case "image" => ClassIsPlain(s, "_.:/@-");
    case "user" => ClassIsPlain(s, "._-");
    case "name" => ClassIsPlain(s, "@+._-");
    case _ =>
  }

  // ------------------------------------------- what each class admits, by character codes

  predicate IsAlphanumeric(n: int) { IsLowerCode(n) || IsUpperCode(n) || IsDigitCode(n) }

  /** Letters, digits and the listed codes. */
  predicate IsMadeOf(s: string, codes: set<int>) {
    forall i :: 0 <= i < |s| ==> IsAlphanumeric(s[i] as int) || s[i] as int in codes
  }

  /** What each class admits, and no more: a unit also @ : . _ - and the backslash, a suite and
      an account also . _ -, an absolute path also @ : + , % . _ / - behind its slash. */
  lemma HostClassesAdmit(s: string)
    ensures Fits("unit", s) <==> 1 <= |s| <= 255 && IsMadeOf(s, {45, 46, 58, 64, 92, 95})
    ensures Fits("suite", s) <==> 1 <= |s| <= 64 && IsMadeOf(s, {45, 46, 95})
    ensures Fits("user", s) <==> 1 <= |s| <= 64 && IsMadeOf(s, {45, 46, 95})
    ensures Fits("path", s) <==>
              s != "" && s[0] as int == 47 && |s| <= 1001 && IsMadeOf(s[1..], {37, 43, 44, 45, 46, 47, 58, 64, 95})
  {}

  /** A container also . _ - and an image also . : / @ _ - behind a letter or digit, a name also
      @ + . _ -. */
  lemma NameClassesAdmit(s: string)
    ensures Fits("container", s) <==> 1 <= |s| <= 128 && IsMadeOf(s, {45, 46, 95}) && IsAlphanumeric(s[0] as int)
    ensures Fits("image", s) <==>
              1 <= |s| <= 256 && IsMadeOf(s, {45, 46, 47, 58, 64, 95}) && IsAlphanumeric(s[0] as int)
    ensures Fits("name", s) <==> 1 <= |s| <= 128 && IsMadeOf(s, {43, 45, 46, 64, 95})
  {}

  // --------------------------------------------------------------------- specs

  datatype Spec = Spec(binary: string, args: seq<string>, maxRepeat: int, options: map<string, string>) {
    function Max(): nat { if maxRepeat <= 0 then 256 else maxRepeat }
  }

  const OPTIONS: string := "<options>"

  /** `placeholder`: `<kind>` and `<kind>...`, as the kind and whether it repeats. */
  function Placeholder(token: string): Option<(string, bool)> {
    var repeat := HasSuffix(token, "...");
    var trimmed := if repeat then token[..|token| - 3] else token;
    if !HasPrefix(trimmed, "<") || !HasSuffix(trimmed, ">") then None
    else
      assert trimmed[0] == '<' && trimmed[|trimmed| - 1] == '>';
      Some((trimmed[1..|trimmed| - 1], repeat))
  }

  datatype Token = Options | Literal(text: string) | One(kind: string) | Many(kind: string)

  function TokenOf(want: string): Token {
    if want == OPTIONS then Options
    else
      var p := Placeholder(want);
      if p.None? then Literal(want) else if p.value.1 then Many(p.value.0) else One(p.value.0)
  }

  lemma SinglePlaceholder(kind: string)
    ensures Placeholder("<" + kind + ">") == Some((kind, false))
  {
    var one := "<" + kind + ">";
    assert one[1..|one| - 1] == kind;
    assert one[|one| - 1] == '>';
    assert "..."[2] == '.';
  }

  lemma RepeatedPlaceholder(kind: string)
    ensures Placeholder("<" + kind + ">" + "...") == Some((kind, true))
  {
    var one := "<" + kind + ">";
    var many := one + "...";
    assert many[|one|..] == "..." && many[..|one|] == one;
    assert one[1..|one| - 1] == kind && one[|one| - 1] == '>';
  }

  /** `<kind>` stands for one argument of its class, `<kind>...` for one or more. */
  lemma PlaceholdersAreRead(kind: string)
    requires kind != "options"
    ensures TokenOf("<" + kind + ">") == One(kind) && TokenOf("<" + kind + ">" + "...") == Many(kind)
  {
    hide Placeholder;
    SinglePlaceholder(kind);
    RepeatedPlaceholder(kind);
    SinglePlaceholder("options");
    assert "<" + "options" + ">" == OPTIONS;
  }

  function Tokens(args: seq<string>): seq<Token> {
    if args == [] then [] else [TokenOf(args[0])] + Tokens(args[1..])
  }

  // ----------------------------------------------------- what a spec describes

  predicate IsPair(s: Spec, flag: string, value: string) { flag in s.options && Fits(s.options[flag], value) }

  ghost predicate ArePairs(s: Spec, argv: seq<string>, n: nat) {
    2 * n <= |argv| && forall i :: 0 <= i < n ==> IsPair(s, argv[2 * i], argv[2 * i + 1])
  }

  /** The argument vectors a token list stands for, without saying how to find out. */
  ghost predicate InLanguage(s: Spec, tokens: seq<Token>, argv: seq<string>)
    decreases |tokens|
  {
    if tokens == [] then argv == []
    else match tokens[0]
      case Literal(text) => argv != [] && argv[0] == text && InLanguage(s, tokens[1..], argv[1..])
      case One(kind) => argv != [] && Fits(kind, argv[0]) && InLanguage(s, tokens[1..], argv[1..])
      case Many(kind) =>
        exists n :: 1 <= n <= |argv| && n <= s.Max() &&
          (forall i :: 0 <= i < n ==> Fits(kind, argv[i])) && InLanguage(s, tokens[1..], argv[n..])
      case Options =>
        exists n: nat :: n <= s.Max() && ArePairs(s, argv, n) && InLanguage(s, tokens[1..], argv[2 * n..])
  }

  // ------------------------------------------------------------ what matches does

  /** Pairs are taken for as long as the next argument is a flag. */
  function TakePairs(s: Spec, argv: seq<string>, left: nat): Option<seq<string>>
    decreases |argv|
  {
    if |argv| < 2 || argv[0] !in s.options then Some(argv)
    else if !Fits(s.options[argv[0]], argv[1]) || left == 0 then None
    else TakePairs(s, argv[2..], left - 1)
  }

  predicate Greedy(s: Spec, tokens: seq<Token>, argv: seq<string>)
    decreases |tokens|
  {
    if tokens == [] then argv == []
    else match tokens[0]
      case Literal(text) => argv != [] && argv[0] == text && Greedy(s, tokens[1..], argv[1..])
      case One(kind) => argv != [] && Fits(kind, argv[0]) && Greedy(s, tokens[1..], argv[1..])
      case Many(kind) => 1 <= |argv| <= s.Max() && forall i :: 0 <= i < |argv| ==> Fits(kind, argv[i])
      case Options =>
        var rest := TakePairs(s, argv, s.Max());
        rest.Some? && Greedy(s, tokens[1..], rest.value)
  }

  /** The option pairs at `at`: where they end, or None when one is refused. */
  method MatchPairs(s: Spec, argv: seq<string>, at: nat) returns (end: Option<nat>)
    requires at <= |argv|
    ensures var rest := TakePairs(s, argv[at..], s.Max());
            end.Some? == rest.Some? && (end.Some? ==> end.value <= |argv| && argv[end.value..] == rest.value)
  {
    var i, pairs := at, 0;
    ghost var goal := TakePairs(s, argv[at..], s.Max());
    while i + 1 < |argv|
      invariant at <= i <= |argv| && 0 <= pairs <= s.Max()
      invariant TakePairs(s, argv[i..], s.Max() - pairs) == goal
    {
      assert argv[i..][2..] == argv[i + 2..];
      if argv[i] !in s.options {
        break;
      }
      if !Fits(s.options[argv[i]], argv[i + 1]) {
        return None;
      }
      i := i + 2;
      pairs := pairs + 1;
      if pairs > s.Max() {
        return None;
      }
    }
    return Some(i);
  }

  method Matches(s: Spec, argv: seq<string>) returns (ok: bool)
    ensures ok == Greedy(s, Tokens(s.args), argv)
  {
    hide Fits;
    hide TokenOf;
    hide TakePairs;
    var at := 0;
    assert s.args[0..] == s.args && argv[0..] == argv;
    for n := 0 to |s.args|
      invariant 0 <= at <= |argv|
      invariant Greedy(s, Tokens(s.args[n..]), argv[at..]) == Greedy(s, Tokens(s.args), argv)
    {
      TokensStep(s.args, n);
      match TokenOf(s.args[n]) {
        case Options =>
          var end := MatchPairs(s, argv, at);
          if end.None? {
            return false;
          }
          at := end.value;
        case Literal(want) =>
          if at >= |argv| || argv[at] != want {
            return false;
          }
          assert argv[at..][1..] == argv[at + 1..];
          at := at + 1;
        case One(kind) =>
          if at >= |argv| || !Fits(kind, argv[at]) {
            return false;
          }
          assert argv[at..][1..] == argv[at + 1..];
          at := at + 1;
        case Many(kind) =>
          ok := MatchRest(s, kind, argv[at..]);
          return;
      }
    }
    return at == |argv|;
  }

  lemma TokensStep(args: seq<string>, n: nat)
    requires n < |args|
    ensures Tokens(args[n..]) != [] && Tokens(args[n..])[0] == TokenOf(args[n])
    ensures Tokens(args[n..])[1..] == Tokens(args[n + 1..])
  {}

  method MatchRest(s: Spec, kind: string, rest: seq<string>) returns (ok: bool)
    ensures ok == (1 <= |rest| <= s.Max() && forall i :: 0 <= i < |rest| ==> Fits(kind, rest[i]))
  {
    if |rest| == 0 || |rest| > s.Max() {
      return false;
    }
    for i := 0 to |rest|
      invariant forall k :: 0 <= k < i ==> Fits(kind, rest[k])
    {
      if !Fits(kind, rest[i]) {
        return false;
      }
    }
    return true;
  }

  // --------------------------------------------------------- greedy is exact

  /** A repeat stands last, and what follows the options is a literal that is no flag. */
  ghost predicate Unambiguous(s: Spec, tokens: seq<Token>) {
    tokens != [] ==>
      && (tokens[0].Many? ==> |tokens| == 1)
      && (tokens[0].Options? && |tokens| > 1 ==> tokens[1].Literal? && tokens[1].text !in s.options)
      && Unambiguous(s, tokens[1..])
  }

  lemma {:induction false} TakenArePairs(s: Spec, argv: seq<string>, left: nat) returns (n: nat)
    requires TakePairs(s, argv, left).Some?
    ensures n <= left && ArePairs(s, argv, n) && TakePairs(s, argv, left).value == argv[2 * n..]
    decreases |argv|
  {
    if |argv| < 2 || argv[0] !in s.options {
      n := 0;
    } else {
      var m := TakenArePairs(s, argv[2..], left - 1);
      n := m + 1;
      forall i | 0 <= i < n ensures IsPair(s, argv[2 * i], argv[2 * i + 1]) {
        if i > 0 {
          assert argv[2..][2 * (i - 1)] == argv[2 * i] && argv[2..][2 * (i - 1) + 1] == argv[2 * i + 1];
        }
      }
      assert argv[2..][2 * m..] == argv[2 * n..];
    }
  }

  /** Pairs that end where no flag stands are exactly the ones taken. */
  lemma {:induction false} PairsAreTaken(s: Spec, argv: seq<string>, n: nat, left: nat)
    requires ArePairs(s, argv, n) && n <= left
    requires |argv| < 2 * n + 2 || argv[2 * n] !in s.options
    ensures TakePairs(s, argv, left) == Some(argv[2 * n..])
    decreases n
  {
    if n > 0 {
      assert IsPair(s, argv[2 * 0], argv[2 * 0 + 1]);
      forall i | 0 <= i < n - 1 ensures IsPair(s, argv[2..][2 * i], argv[2..][2 * i + 1]) {
        assert IsPair(s, argv[2 * (i + 1)], argv[2 * (i + 1) + 1]);
      }
      PairsAreTaken(s, argv[2..], n - 1, left - 1);
      assert argv[2..][2 * (n - 1)..] == argv[2 * n..];
    }
  }

  /** The greedy matcher accepts exactly what the spec describes. */
  lemma {:induction false} GreedyIsExact(s: Spec, tokens: seq<Token>, argv: seq<string>)
    requires Unambiguous(s, tokens)
    ensures Greedy(s, tokens, argv) <==> InLanguage(s, tokens, argv)
    decreases |tokens|
  {
    if tokens != [] {
      match tokens[0]
      case Literal(_) =>
        if argv != [] { GreedyIsExact(s, tokens[1..], argv[1..]); }
      case One(_) =>
        if argv != [] { GreedyIsExact(s, tokens[1..], argv[1..]); }
      case Many(kind) =>
        assert argv[|argv|..] == [];
        forall n | 1 <= n <= |argv| && InLanguage(s, tokens[1..], argv[n..]) ensures n == |argv| {
          assert tokens[1..] == [];
        }
        if Greedy(s, tokens, argv) {
          assert InLanguage(s, tokens[1..], argv[|argv|..]);
        }
      case Options =>
        OptionsAreExact(s, tokens, argv);
    }
  }

  lemma {:induction false} OptionsAreExact(s: Spec, tokens: seq<Token>, argv: seq<string>)
    requires tokens != [] && tokens[0].Options? && Unambiguous(s, tokens)
    ensures Greedy(s, tokens, argv) <==> InLanguage(s, tokens, argv)
    decreases |tokens|, 0
  {
    var rest := TakePairs(s, argv, s.Max());
    if Greedy(s, tokens, argv) {
      var n := TakenArePairs(s, argv, s.Max());
      GreedyIsExact(s, tokens[1..], rest.value);
    }
    if InLanguage(s, tokens, argv) {
      var n: nat :| n <= s.Max() && ArePairs(s, argv, n) && InLanguage(s, tokens[1..], argv[2 * n..]);
      PairsAreTaken(s, argv, n, s.Max());
      GreedyIsExact(s, tokens[1..], argv[2 * n..]);
    }
  }

  /** Every argument of an accepted command is written in the spec, or is one of its
      flags, or is free of what a shell would give a meaning to. */
  lemma {:induction false} AcceptedIsPlainOrPublished(s: Spec, tokens: seq<Token>, argv: seq<string>, i: nat)
    requires Greedy(s, tokens, argv) && i < |argv|
    ensures Literal(argv[i]) in tokens || argv[i] in s.options || IsPlain(argv[i])
    decreases |tokens|
  {
    match tokens[0]
    case Literal(_) =>
      if i > 0 { AcceptedIsPlainOrPublished(s, tokens[1..], argv[1..], i - 1); }
    case One(kind) =>
      if i > 0 { AcceptedIsPlainOrPublished(s, tokens[1..], argv[1..], i - 1); } else { FittingIsPlain(kind, argv[0]); }
    case Many(kind) =>
      FittingIsPlain(kind, argv[i]);
    case Options =>
      var n := TakenArePairs(s, argv, s.Max());
      if i < 2 * n {
        PairIsPlainOrFlag(s, argv, n, i);
      } else {
        AcceptedIsPlainOrPublished(s, tokens[1..], argv[2 * n..], i - 2 * n);
      }
  }

  lemma PairIsPlainOrFlag(s: Spec, argv: seq<string>, n: nat, i: nat)
    requires ArePairs(s, argv, n) && i < 2 * n
    ensures argv[i] in s.options || IsPlain(argv[i])
  {
    var k := i / 2;
    assert IsPair(s, argv[2 * k], argv[2 * k + 1]);
    if i == 2 * k + 1 { FittingIsPlain(s.options[argv[2 * k]], argv[i]); }
  }

  function Repeated(flag: string, value: string, n: nat): (argv: seq<string>)
    ensures |argv| == 2 * n
    ensures forall i :: 0 <= i < n ==> argv[2 * i] == flag && argv[2 * i + 1] == value
  {
    seq(2 * n, i requires 0 <= i => if i % 2 == 0 then flag else value)
  }

  /** A repeat takes one argument of its class or more, at most as many as the spec says and
      256 where it says nothing; `n` option pairs are taken up to the same number. */
  lemma RepeatsAreBounded(s: Spec, kind: string, argv: seq<string>, flag: string, value: string, n: nat)
    requires IsPair(s, flag, value)
    ensures var most := if s.maxRepeat <= 0 then 256 else s.maxRepeat;
            && (Greedy(s, [Many(kind)], argv) <==> 1 <= |argv| <= most && forall i :: 0 <= i < |argv| ==> Fits(kind, argv[i]))
            && (Greedy(s, [Options], Repeated(flag, value, n)) <==> n <= most)
  {
    hide Fits;
    var pairs := Repeated(flag, value, n);
    if n <= s.Max() {
      PairsAreTaken(s, pairs, n, s.Max());
      assert pairs[2 * n..] == [];
    } else if Greedy(s, [Options], pairs) {
      var m := TakenArePairs(s, pairs, s.Max());
    }
  }

  // ------------------------------------- a flag where the subcommand should stand

  function FlagTokens(flag: string, rest: seq<Token>): seq<Token> { [Options, Literal(flag)] + rest }

  lemma FlagTokensAre(flag: string, rest: seq<Token>)
    ensures var tokens := FlagTokens(flag, rest);
            tokens[0] == Options && tokens[1..] == [Literal(flag)] + rest && tokens[1..][1..] == rest
  {}

  /** On no arguments at all the two readings agree, whatever the spec. */
  lemma {:induction false} GreedyOnNothing(s: Spec, tokens: seq<Token>)
    ensures Greedy(s, tokens, []) <==> InLanguage(s, tokens, [])
  {
    if tokens != [] && tokens[0].Options? {
      GreedyOnNothing(s, tokens[1..]);
      var none: seq<string> := [];
      assert none[2 * 0..] == none && ArePairs(s, none, 0);
      assert TakePairs(s, none, s.Max()) == Some(none);
    }
  }

  lemma {:induction false} TakenEndsAtNoFlag(s: Spec, argv: seq<string>, left: nat)
    requires TakePairs(s, argv, left).Some?
    ensures var rest := TakePairs(s, argv, left).value; |rest| < 2 || rest[0] !in s.options
    decreases |argv|
  {
    if |argv| >= 2 && argv[0] in s.options { TakenEndsAtNoFlag(s, argv[2..], left - 1); }
  }

  /** What is accepted is pairs and then the flag, alone: the rest gets nothing. */
  lemma AcceptedEndsWithFlag(s: Spec, flag: string, rest: seq<Token>, argv: seq<string>) returns (n: nat)
    requires flag in s.options && Greedy(s, FlagTokens(flag, rest), argv)
    ensures n <= s.Max() && ArePairs(s, argv, n) && |argv| == 2 * n + 1 && argv[2 * n] == flag
    ensures InLanguage(s, FlagTokens(flag, rest), argv)
  {
    FlagTokensAre(flag, rest);
    var left := TakePairs(s, argv, s.Max());
    TakenEndsAtNoFlag(s, argv, s.Max());
    n := TakenArePairs(s, argv, s.Max());
    var end := argv[2 * n..];
    assert end == left.value && end[0] == flag && |end| == 1;
    GreedyOnNothing(s, rest);
    assert InLanguage(s, [Literal(flag)] + rest, end) by { FlagAloneIsRead(s, flag, rest, end[1..]); }
  }

  lemma FlagAloneIsRead(s: Spec, flag: string, rest: seq<Token>, w: seq<string>)
    ensures InLanguage(s, [Literal(flag)] + rest, [flag] + w) <==> InLanguage(s, rest, w)
    ensures Greedy(s, [Literal(flag)] + rest, [flag] + w) <==> Greedy(s, rest, w)
  {
    assert ([Literal(flag)] + rest)[1..] == rest && ([flag] + w)[1..] == w;
  }

  /** Pairs, the flag and anything the rest describes is a command of the spec. */
  lemma PairsThenFlag(s: Spec, flag: string, rest: seq<Token>, argv: seq<string>, n: nat, w: seq<string>)
    requires n <= s.Max() && ArePairs(s, argv, n) && argv[2 * n..] == [flag] + w && InLanguage(s, rest, w)
    ensures InLanguage(s, FlagTokens(flag, rest), argv)
  {
    FlagTokensAre(flag, rest);
    FlagAloneIsRead(s, flag, rest, w);
  }

  /** A command of the spec that goes on after the flag is refused, or becomes so once
      enough pairs are put before it. */
  lemma FlagAfterOptionsIsRefused(s: Spec, flag: string, rest: seq<Token>, w: seq<string>) returns (argv: seq<string>)
    requires flag in s.options && w != [] && InLanguage(s, rest, w)
    ensures InLanguage(s, FlagTokens(flag, rest), argv) && !Greedy(s, FlagTokens(flag, rest), argv)
  {
    argv := [flag] + w;
    assert argv[2 * 0..] == argv && ArePairs(s, argv, 0);
    PairsThenFlag(s, flag, rest, argv, 0, w);
    if Greedy(s, FlagTokens(flag, rest), argv) {
      var k := AcceptedEndsWithFlag(s, flag, rest, argv);
      assert k >= 1 && IsPair(s, argv[2 * 0], argv[2 * 0 + 1]);
      var pairs := Repeated(flag, w[0], s.Max());
      argv := pairs + ([flag] + w);
      forall i | 0 <= i < s.Max() ensures IsPair(s, argv[2 * i], argv[2 * i + 1]) {
        assert argv[2 * i] == pairs[2 * i] && argv[2 * i + 1] == pairs[2 * i + 1];
      }
      PairsThenFlag(s, flag, rest, argv, s.Max(), w);
      if Greedy(s, FlagTokens(flag, rest), argv) {
        var m := AcceptedEndsWithFlag(s, flag, rest, argv);
      }
    }
  }

  ghost predicate IsExact(s: Spec, tokens: seq<Token>) {
    forall argv :: Greedy(s, tokens, argv) <==> InLanguage(s, tokens, argv)
  }

  ghost predicate TakesNothing(s: Spec, tokens: seq<Token>) { forall w :: InLanguage(s, tokens, w) ==> w == [] }

  lemma NothingAfterFlagIsAccepted(s: Spec, flag: string, rest: seq<Token>, argv: seq<string>)
    requires flag in s.options && TakesNothing(s, rest)
    requires InLanguage(s, FlagTokens(flag, rest), argv)
    ensures Greedy(s, FlagTokens(flag, rest), argv)
  {
    FlagTokensAre(flag, rest);
    var n: nat :| n <= s.Max() && ArePairs(s, argv, n) && InLanguage(s, [Literal(flag)] + rest, argv[2 * n..]);
    var end := argv[2 * n..];
    assert end == [flag] + end[1..];
    FlagAloneIsRead(s, flag, rest, end[1..]);
    PairsAreTaken(s, argv, n, s.Max());
    GreedyOnNothing(s, rest);
  }

  /** Where the literal after the options is a flag itself, the matcher is exact if and
      only if what follows that literal admits no argument. */
  lemma FlagAfterOptionsIsExactWhen(s: Spec, flag: string, rest: seq<Token>)
    requires flag in s.options
    ensures IsExact(s, FlagTokens(flag, rest)) <==> TakesNothing(s, rest)
  {
    var tokens := FlagTokens(flag, rest);
    if TakesNothing(s, rest) {
      forall argv ensures Greedy(s, tokens, argv) <==> InLanguage(s, tokens, argv) {
        if Greedy(s, tokens, argv) {
          var n := AcceptedEndsWithFlag(s, flag, rest, argv);
        } else if InLanguage(s, tokens, argv) {
          NothingAfterFlagIsAccepted(s, flag, rest, argv);
        }
      }
    } else {
      var w :| InLanguage(s, rest, w) && w != [];
      var argv := FlagAfterOptionsIsRefused(s, flag, rest, w);
      assert !(Greedy(s, tokens, argv) <==> InLanguage(s, tokens, argv));
    }
  }
}
