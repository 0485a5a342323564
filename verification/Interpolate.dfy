/**
 Compose variable interpolation (Compose Specification, "Interpolation"), as
 app/collect/manifest/interpolate.go does it.

 Every text is the printed form of exactly one well-formed template; `substitute`
 returns what that template means, and reports every reference it leaves in place.
 */
module Interpolate {
  import opened Text

  /** The process environment first, then the `.env` file. */
  datatype Environment = Environment(process: map<string, string>, dotenv: map<string, string>) {
    function Lookup(name: string): Option<string> {
      if name in process then Some(process[name])
      else if name in dotenv then Some(dotenv[name])
      else None
    }
  }

  datatype Trouble = Unterminated | Unresolved | NotAReference | Required | UnknownOperator

  /** A reference that was left in the text, and the literal that was left. */
  datatype Warning = Warning(trouble: Trouble, literal: string)

  class Warner {
    var warnings: seq<Warning>

    constructor ()
      ensures warnings == []
    {
      warnings := [];
    }

    method Add(w: Warning)
      modifies this
      ensures warnings == old(warnings) + [w]
    {
      warnings := warnings + [w];
    }
  }

  // --------------------------------------------------------- names and braces

  predicate IsNameStart(c: char) { c == '_' || IsLetter(c) }

  predicate IsNameChar(c: char) { IsNameStart(c) || IsDigit(c) }

  function NameChars(s: string): (n: nat)
    ensures n <= |s|
  {
    if s == [] || !IsNameChar(s[0]) then 0 else 1 + NameChars(s[1..])
  }

  /** The variable name `s` starts with, or "". */
  function NameOf(s: string): (name: string)
    ensures name <= s
  {
    if s == [] || !IsNameStart(s[0]) then "" else s[..NameChars(s)]
  }

  predicate IsName(s: string) { s != [] && IsNameStart(s[0]) && forall c :: c in s ==> IsNameChar(c) }

  lemma {:induction false} NameEnds(name: string, rest: string)
    requires forall c :: c in name ==> IsNameChar(c)
    requires rest == [] || !IsNameChar(rest[0])
    ensures NameChars(name + rest) == |name|
  {
    if name == [] {
      assert name + rest == rest;
    } else {
      assert (name + rest)[1..] == name[1..] + rest;
      NameEnds(name[1..], rest);
    }
  }

  lemma {:induction false} NameOfIsName(s: string)
    ensures NameOf(s) != "" ==> IsName(NameOf(s))
    ensures var n := NameChars(s); n < |s| ==> !IsNameChar(s[n])
    ensures forall c :: c in s[..NameChars(s)] ==> IsNameChar(c)
  {
    if s != [] && IsNameChar(s[0]) {
      NameOfIsName(s[1..]);
      assert s[..NameChars(s)] == [s[0]] + s[1..][..NameChars(s[1..])];
    }
  }

  /** The position of the '}' that closes the `depth` braces open before `s`, or -1. */
  function CloseAt(s: string, depth: nat): (k: int)
    requires depth > 0
    ensures -1 <= k < |s| && (k >= 0 ==> s[k] == '}')
  {
    if s == [] then -1
    else if s[0] == '}' && depth == 1 then 0
    else
      var k := CloseAt(s[1..], if s[0] == '{' then depth + 1 else if s[0] == '}' then depth - 1 else depth);
      if k < 0 then -1 else k + 1
  }

  function Depth(s: string): int {
    if s == [] then 0 else (if s[0] == '{' then 1 else if s[0] == '}' then -1 else 0) + Depth(s[1..])
  }

  /** Started at depth `from`, no prefix of `s` returns to depth 0. */
  ghost predicate StaysOpen(s: string, from: int) {
    forall i :: 0 <= i <= |s| ==> from + Depth(s[..i]) > 0
  }

  ghost predicate Balanced(s: string) { Depth(s) == 0 && StaysOpen(s, 1) }

  lemma StaysOpenStep(s: string, from: int)
    requires s != []
    ensures StaysOpen(s, from) <==> from > 0 && StaysOpen(s[1..], from + Depth(s[..1]))
    ensures StaysOpen(s, from) ==> from + Depth(s[..1]) > 0
  {
    forall i | 0 <= i < |s| ensures Depth(s[..i + 1]) == Depth(s[..1]) + Depth(s[1..][..i]) {
      assert s[..i + 1][1..] == s[1..][..i];
    }
    assert s[..0] == [];
    if from > 0 && StaysOpen(s[1..], from + Depth(s[..1])) {
      forall i | 0 <= i <= |s| ensures from + Depth(s[..i]) > 0 {
        if i > 0 { assert from + Depth(s[..1]) + Depth(s[1..][..i - 1]) > 0; }
      }
    }
    if StaysOpen(s, from) {
      assert from + Depth(s[..0]) > 0;
      forall i | 0 <= i < |s| ensures from + Depth(s[..1]) + Depth(s[1..][..i]) > 0 {
        assert from + Depth(s[..i + 1]) > 0;
      }
    }
  }

  /** Balanced text is skipped: the brace after it closes. */
  lemma {:induction false} OpenTextIsSkipped(s: string, rest: string, depth: nat)
    requires depth > 0 && StaysOpen(s, depth)
    ensures depth + Depth(s) > 0
    ensures var k := CloseAt(rest, depth + Depth(s));
            CloseAt(s + rest, depth) == if k < 0 then -1 else |s| + k
  {
    hide StaysOpen;
    if s == [] {
      assert s + rest == rest;
    } else {
      StaysOpenStep(s, depth);
      assert s[..1][1..] == [];
      assert s[1..][..0] == [];
      OpenTextIsSkipped(s[1..], rest, depth + Depth(s[..1]));
      assert (s + rest)[1..] == s[1..] + rest;
    }
  }

  /** What a closing brace closes is open all along. */
  lemma {:induction false} ClosedTextIsOpen(s: string, depth: nat)
    requires depth > 0 && CloseAt(s, depth) >= 0
    ensures StaysOpen(s[..CloseAt(s, depth)], depth) && depth + Depth(s[..CloseAt(s, depth)]) == 1
  {
    var k := CloseAt(s, depth);
    if k == 0 {
      assert s[..0] == [];
    } else {
      var d := if s[0] == '{' then depth + 1 else if s[0] == '}' then depth - 1 else depth;
      ClosedTextIsOpen(s[1..], d);
      assert s[..k][1..] == s[1..][..k - 1];
      assert s[..k][..1] == s[..1] && s[..1][1..] == [];
      StaysOpenStep(s[..k], depth);
    }
  }

  // ------------------------------------------------------------- the templates

  datatype Operator = DefaultIfEmpty | DefaultIfUnset | AlternateIfFull | AlternateIfSet

  datatype Template = End | Then(head: Piece, tail: Template)

  datatype Piece =
    | Literal(c: char)
    | Dollar              // a '$' that starts nothing
    | Escape              // "$$"
    | Plain(name: string) // "$NAME"
    | Braced(body: Body)  // "${...}"
    | Unclosed(rest: string)

  datatype Body =
    | Bare(name: string)
    | Applied(name: string, op: Operator, arg: Template)
    | Demanded(name: string, orEmpty: bool, message: string)
    | Opaque(text: string)

  function OperatorText(op: Operator): string {
    match op
    case DefaultIfEmpty => ":-"
    case DefaultIfUnset => "-"
    case AlternateIfFull => ":+"
    case AlternateIfSet => "+"
  }

  function Print(t: Template): string {
    match t
    case End => ""
    case Then(p, rest) => PrintPiece(p) + Print(rest)
  }

  function PrintPiece(p: Piece): string {
    match p
    case Literal(c) => [c]
    case Dollar => "$"
    case Escape => "$$"
    case Plain(name) => "$" + name
    case Braced(body) => "${" + PrintBody(body) + "}"
    case Unclosed(rest) => "${" + rest
  }

  function PrintBody(b: Body): string {
    match b
    case Bare(name) => name
    case Applied(name, op, arg) => name + (OperatorText(op) + Print(arg))
    case Demanded(name, orEmpty, message) => name + ((if orEmpty then ":?" else "?") + message)
    case Opaque(text) => text
  }

  /** Whether an operator this parser knows starts the text after the name. */
  predicate KnownOperator(s: string) {
    s == "" || s[0] in "-+?" || (|s| > 1 && s[0] == ':' && s[1] in "-+?")
  }

  ghost predicate WellFormed(t: Template) {
    match t
    case End => true
    case Then(p, rest) => WellFormed(rest) && PieceFits(p, Print(rest)) && (p.Unclosed? ==> rest == End)
  }

  /** The piece is in the form its kind is read from, before the text `next`. */
  ghost predicate PieceFits(p: Piece, next: string) {
    match p
    case Literal(c) => c != '$'
    case Dollar => next == "" || (next[0] != '$' && next[0] != '{' && !IsNameStart(next[0]))
    case Escape => true
    case Plain(name) => IsName(name) && (next == "" || !IsNameChar(next[0]))
    case Braced(body) => Balanced(PrintBody(body)) && BodyFits(body)
    case Unclosed(rest) => CloseAt(rest, 1) < 0
  }

  ghost predicate BodyFits(b: Body) {
    match b
    case Bare(name) => IsName(name)
    case Applied(name, _, arg) => IsName(name) && WellFormed(arg)
    case Demanded(name, _, _) => IsName(name)
    case Opaque(text) => NameOf(text) == "" || !KnownOperator(text[|NameOf(text)|..])
  }

  // ------------------------------------------------------------- what they mean

  datatype Expansion = Expansion(text: string, warnings: seq<Warning>) {
    function Plus(e: Expansion): Expansion { Expansion(text + e.text, warnings + e.warnings) }
  }

  function Value(s: string): Expansion { Expansion(s, []) }

  /** Left exactly as written, and reported. */
  function Left(trouble: Trouble, literal: string): Expansion { Expansion(literal, [Warning(trouble, literal)]) }

  function Denote(t: Template, env: Environment): Expansion {
    match t
    case End => Value("")
    case Then(p, rest) => DenotePiece(p, env).Plus(Denote(rest, env))
  }

  function DenotePiece(p: Piece, env: Environment): Expansion {
    match p
    case Literal(c) => Value([c])
    case Dollar => Value("$")
    case Escape => Value("$")
    case Plain(name) =>
      var v := env.Lookup(name);
      if v.Some? then Value(v.value) else Left(Unresolved, "$" + name)
    case Braced(body) => DenoteBody(body, env)
    case Unclosed(rest) => Left(Unterminated, "${" + rest)
  }

  function DenoteBody(b: Body, env: Environment): Expansion {
    var literal := "${" + PrintBody(b) + "}";
    match b
    case Bare(name) =>
      var v := env.Lookup(name);
      if v.Some? then Value(v.value) else Left(Unresolved, literal)
    case Applied(name, op, arg) =>
      var v := env.Lookup(name);
      (match op
       case DefaultIfEmpty => if v.None? || v.value == "" then Denote(arg, env) else Value(v.value)
       case DefaultIfUnset => if v.None? then Denote(arg, env) else Value(v.value)
       case AlternateIfFull => if v.Some? && v.value != "" then Denote(arg, env) else Value("")
       case AlternateIfSet => if v.Some? then Denote(arg, env) else Value(""))
    case Demanded(name, orEmpty, _) =>
      var v := env.Lookup(name);
      if v.None? || (orEmpty && v.value == "") then Left(Required, literal) else Value(v.value)
    case Opaque(text) => Left(if NameOf(text) == "" then NotAReference else UnknownOperator, literal)
  }

  // ------------------------------------------------------ reading a text as one

  function Parse(text: string): Template
    decreases |text|, 2
  {
    if text == "" then End
    else if text[0] != '$' then Then(Literal(text[0]), Parse(text[1..]))
    else ParseDollar(text[1..])
  }

  /** What follows a '$'. */
  function ParseDollar(rest: string): Template
    decreases |rest|, 4
  {
    if rest != "" && rest[0] == '$' then Then(Escape, Parse(rest[1..]))
    else if rest != "" && rest[0] == '{' then ParseBraces(rest[1..])
    else ParseName(rest)
  }

  function ParseName(rest: string): Template
    decreases |rest|, 3
  {
    var name := NameOf(rest);
    if name == "" then Then(Dollar, Parse(rest)) else Then(Plain(name), Parse(rest[|name|..]))
  }

  /** What follows a "${". */
  function ParseBraces(rest: string): Template
    decreases |rest|, 3
  {
    var k := CloseAt(rest, 1);
    if k < 0 then Then(Unclosed(rest), End)
    else Then(Braced(ParseBody(rest[..k])), Parse(rest[k + 1..]))
  }

  function ParseBody(body: string): Body
    decreases |body|, 1
  {
    var name := NameOf(body);
    if name == "" then Opaque(body)
    else
      var b := ParseOperator(name, body[|name|..]);
      if b.None? then Opaque(body) else b.value
  }

  /** What follows the name: nothing, or one of the operators. */
  function ParseOperator(name: string, rest: string): Option<Body>
    decreases |rest|, 0
  {
    if rest == "" then Some(Bare(name))
    else if HasPrefix(rest, ":-") then Some(Applied(name, DefaultIfEmpty, Parse(rest[2..])))
    else if HasPrefix(rest, "-") then Some(Applied(name, DefaultIfUnset, Parse(rest[1..])))
    else if HasPrefix(rest, ":+") then Some(Applied(name, AlternateIfFull, Parse(rest[2..])))
    else if HasPrefix(rest, "+") then Some(Applied(name, AlternateIfSet, Parse(rest[1..])))
    else if HasPrefix(rest, ":?") then Some(Demanded(name, true, rest[2..]))
    else if HasPrefix(rest, "?") then Some(Demanded(name, false, rest[1..]))
    else None
  }

  lemma PrefixSplits(p: string, s: string)
    requires HasPrefix(s, p)
    ensures s == p + s[|p|..]
  {}

  lemma DollarThen(rest: string)
    ensures Parse("$" + rest) == ParseDollar(rest)
  {}

  lemma BraceThen(rest: string)
    ensures Parse("${" + rest) == ParseBraces(rest)
  {}

  /** Every text is the printed form of a well-formed template. */
  lemma {:induction false} PrintUndoesParse(text: string)
    ensures Print(Parse(text)) == text && WellFormed(Parse(text))
    decreases |text|, 2
  {
    if text == "" {
    } else if text[0] != '$' {
      PrintUndoesParse(text[1..]);
    } else {
      var rest := text[1..];
      assert text == "$" + rest;
      if rest != "" && rest[0] == '$' {
        PrintUndoesParse(rest[1..]);
        assert text == "$$" + rest[1..];
      } else if rest != "" && rest[0] == '{' {
        PrintBracesUndoesParse(rest[1..]);
        assert text == "${" + rest[1..];
      } else {
        PrintNameUndoesParse(rest);
      }
    }
  }

  lemma {:induction false} PrintBracesUndoesParse(rest: string)
    ensures Print(ParseBraces(rest)) == "${" + rest && WellFormed(ParseBraces(rest))
    decreases |rest|, 3
  {
    hide Parse;
    hide ParseBody;
    hide Print;
    hide PrintBody;
    hide BodyFits;
    var k := CloseAt(rest, 1);
    if k < 0 {
      UnclosedPrints(rest);
    } else {
      var body, tail := rest[..k], rest[k + 1..];
      ClosedTextIsOpen(rest, 1);
      PrintBodyUndoesParse(body);
      PrintUndoesParse(tail);
      BracedPrints(ParseBody(body), Parse(tail), body, tail);
      assert rest == body + "}" + tail;
    }
  }

  lemma UnclosedPrints(rest: string)
    ensures Print(Then(Unclosed(rest), End)) == "${" + rest
  {}

  lemma BracedPrints(b: Body, t: Template, body: string, tail: string)
    requires PrintBody(b) == body && Print(t) == tail
    ensures Print(Then(Braced(b), t)) == "${" + (body + "}" + tail)
  {}

  lemma {:induction false} PrintNameUndoesParse(rest: string)
    requires rest == "" || (rest[0] != '$' && rest[0] != '{')
    ensures Print(ParseName(rest)) == "$" + rest && WellFormed(ParseName(rest))
    decreases |rest|, 3
  {
    var name := NameOf(rest);
    NameOfIsName(rest);
    PrefixSplits(name, rest);
    PrintUndoesParse(rest[|name|..]);
    PlainPrints(name, Parse(rest[|name|..]), rest[|name|..]);
  }

  lemma PlainPrints(name: string, t: Template, tail: string)
    requires Print(t) == tail
    ensures Print(Then(Plain(name), t)) == "$" + (name + tail)
    ensures Print(Then(Dollar, t)) == "$" + tail
  {}

  lemma {:induction false} PrintBodyUndoesParse(body: string)
    ensures PrintBody(ParseBody(body)) == body && BodyFits(ParseBody(body))
    decreases |body|, 1
  {
    NameOfIsName(body);
    var name := NameOf(body);
    if name != "" {
      PrefixSplits(name, body);
      PrintOperatorUndoesParse(name, body[|name|..]);
    }
  }

  lemma {:induction false} PrintOperatorUndoesParse(name: string, rest: string)
    requires IsName(name)
    ensures var b := ParseOperator(name, rest);
            if b.None? then !KnownOperator(rest) else PrintBody(b.value) == name + rest && BodyFits(b.value)
    decreases |rest|, 0
  {
    var p := if HasPrefix(rest, ":-") then ":-" else if HasPrefix(rest, "-") then "-"
             else if HasPrefix(rest, ":+") then ":+" else if HasPrefix(rest, "+") then "+"
             else if HasPrefix(rest, ":?") then ":?" else if HasPrefix(rest, "?") then "?" else "";
    PrefixSplits(p, rest);
    if p != "" {
      PrintUndoesParse(rest[|p|..]);
    }
  }

  /** A well-formed template is the only one its printed form can be read as. */
  lemma {:induction false} ParseUndoesPrint(t: Template)
    requires WellFormed(t)
    ensures Parse(Print(t)) == t
    decreases t
  {
    match t
    case End =>
    case Then(p, rest) =>
      ParseUndoesPrint(rest);
      if p.Braced? {
        ParseUndoesPrintBody(p.body);
      }
      PieceThen(p, Print(rest), rest);
  }

  lemma PieceThen(p: Piece, next: string, rest: Template)
    requires PieceFits(p, next) && Parse(next) == rest
    requires p.Braced? ==> ParseBody(PrintBody(p.body)) == p.body
    requires p.Unclosed? ==> next == "" && rest == End
    ensures Parse(PrintPiece(p) + next) == Then(p, rest)
  {
    hide Parse;
    hide ParseBody;
    hide PrintBody;
    hide CloseAt;
    hide Balanced;
    hide BodyFits;
    match p
    case Literal(c) =>
      LiteralThen(c, next);
    case Dollar =>
      LoneDollarThen(next);
    case Escape =>
      EscapeThen(next);
    case Plain(name) =>
      PlainThen(name, next);
    case Braced(b) =>
      BracedThen(PrintBody(b), next);
    case Unclosed(tail) =>
      UnclosedThen(tail);
      assert PrintPiece(p) + "" == PrintPiece(p);
  }

  lemma LiteralThen(c: char, next: string)
    requires c != '$'
    ensures Parse([c] + next) == Then(Literal(c), Parse(next))
  {}

  lemma LoneDollarThen(next: string)
    requires next == "" || (next[0] != '$' && next[0] != '{' && !IsNameStart(next[0]))
    ensures Parse("$" + next) == Then(Dollar, Parse(next))
  {
    DollarThen(next);
  }

  lemma EscapeThen(next: string)
    ensures Parse("$$" + next) == Then(Escape, Parse(next))
  {}

  lemma UnclosedThen(tail: string)
    requires CloseAt(tail, 1) < 0
    ensures Parse("${" + tail) == Then(Unclosed(tail), End)
  {
    hide Parse;
    BraceThen(tail);
  }

  lemma PlainThen(name: string, next: string)
    requires IsName(name) && (next == "" || !IsNameChar(next[0]))
    ensures Parse("$" + name + next) == Then(Plain(name), Parse(next))
  {
    hide Parse;
    hide NameChars;
    NameThen(name, next);
    DollarThen(name + next);
    assert "$" + name + next == "$" + (name + next);
  }

  lemma NameThen(name: string, next: string)
    requires IsName(name) && (next == "" || !IsNameChar(next[0]))
    ensures NameOf(name + next) == name && (name + next)[|name|..] == next
  {
    NameEnds(name, next);
    assert (name + next)[0] == name[0] && (name + next)[..|name|] == name;
  }

  lemma BracedThen(body: string, next: string)
    requires Balanced(body)
    ensures Parse("${" + body + "}" + next) == Then(Braced(ParseBody(body)), Parse(next))
  {
    hide Parse;
    hide ParseBody;
    hide StaysOpen;
    var rest := "}" + next;
    var inside := body + rest;
    assert rest[0] == '}' && CloseAt(rest, 1) == 0;
    OpenTextIsSkipped(body, rest, 1);
    assert inside[..|body|] == body && inside[|body| + 1..] == next;
    BraceThen(inside);
    assert "${" + body + "}" + next == "${" + inside;
  }

  lemma OperatorThen(name: string, op: Operator, s: string)
    ensures ParseOperator(name, OperatorText(op) + s) == Some(Applied(name, op, Parse(s)))
    ensures !IsNameChar((OperatorText(op) + s)[0])
  {
    hide Parse;
    var rest := OperatorText(op) + s;
    assert rest[|OperatorText(op)|..] == s;
    assert rest[0] == OperatorText(op)[0] && (|OperatorText(op)| == 2 ==> rest[1] == OperatorText(op)[1]);
  }

  lemma DemandThen(name: string, orEmpty: bool, s: string)
    ensures var mark := if orEmpty then ":?" else "?";
            ParseOperator(name, mark + s) == Some(Demanded(name, orEmpty, s)) && !IsNameChar((mark + s)[0])
  {
    hide Parse;
    var mark := if orEmpty then ":?" else "?";
    var rest := mark + s;
    assert rest[|mark|..] == s && rest[0] == mark[0] && (orEmpty ==> rest[1] == '?');
  }

  lemma {:induction false} ParseUndoesPrintBody(b: Body)
    requires BodyFits(b)
    ensures ParseBody(PrintBody(b)) == b
    decreases b
  {
    match b
    case Bare(name) =>
      NameThen(name, "");
      assert name + "" == name;
    case Applied(name, op, arg) =>
      OperatorThen(name, op, Print(arg));
      NameThen(name, OperatorText(op) + Print(arg));
      ParseUndoesPrint(arg);
    case Demanded(name, orEmpty, message) =>
      DemandThen(name, orEmpty, message);
      NameThen(name, (if orEmpty then ":?" else "?") + message);
    case Opaque(text) =>
  }

  // ------------------------------------------------------------- substitution

  /** What substituting a text returns and reports. */
  function Subst(text: string, env: Environment): Expansion { Denote(Parse(text), env) }

  /** On the printed form of a template, substitution returns what the template means. */
  lemma SubstDenotes(t: Template, env: Environment)
    requires WellFormed(t)
    ensures Subst(Print(t), env) == Denote(t, env)
  {
    ParseUndoesPrint(t);
  }

  /** Every '$' written twice. */
  function Escaped(s: string): string {
    if s == "" then "" else (if s[0] == '$' then "$$" else [s[0]]) + Escaped(s[1..])
  }

  /** Escaped text comes back as it was, whatever it contains and whatever is set. */
  lemma {:induction false} EscapedIsRestored(s: string, env: Environment)
    ensures Subst(Escaped(s), env) == Value(s)
  {
    hide Parse;
    if s == "" {
      EmptyParses();
    } else {
      var rest := Escaped(s[1..]);
      EscapedIsRestored(s[1..], env);
      if s[0] == '$' {
        EscapeThen(rest);
        assert Escaped(s) == "$$" + rest;
      } else {
        LiteralThen(s[0], rest);
        assert Escaped(s) == [s[0]] + rest;
      }
      var p := if s[0] == '$' then Escape else Literal(s[0]);
      assert DenotePiece(p, env) == Value([s[0]]);
      assert Denote(Then(p, Parse(rest)), env) == Value([s[0]]).Plus(Value(s[1..]));
      assert s == [s[0]] + s[1..];
    }
  }

  ghost predicate Within(part: string, whole: string) {
    exists before, after :: before + part + after == whole
  }

  lemma WithinSide(part: string, left: string, right: string)
    ensures Within(part, left) || Within(part, right) ==> Within(part, left + right)
    ensures Within(part, part)
  {
    assert "" + part + "" == part;
    if Within(part, left) {
      var b, a :| b + part + a == left;
      assert b + part + (a + right) == left + right;
    } else if Within(part, right) {
      var b, a :| b + part + a == right;
      assert (left + b) + part + a == left + right;
    }
  }

  /** A reference that is reported stands in the result byte for byte as it stood in the
      text: it is never quietly dropped. */
  lemma ReportedIsLeftAsWritten(text: string, env: Environment, w: Warning)
    requires w in Subst(text, env).warnings
    ensures Within(w.literal, Subst(text, env).text) && Within(w.literal, text)
  {
    PrintUndoesParse(text);
    LeftInTemplate(Parse(text), env, w);
  }

  lemma {:induction false} LeftInTemplate(t: Template, env: Environment, w: Warning)
    requires w in Denote(t, env).warnings
    ensures Within(w.literal, Denote(t, env).text) && Within(w.literal, Print(t))
    decreases t
  {
    if t.Then? {
      var d, e := DenotePiece(t.head, env), Denote(t.tail, env);
      if w in d.warnings {
        LeftInPiece(t.head, env, w);
      } else {
        LeftInTemplate(t.tail, env, w);
      }
      WithinSide(w.literal, d.text, e.text);
      WithinSide(w.literal, PrintPiece(t.head), Print(t.tail));
    }
  }

  lemma {:induction false} LeftInPiece(p: Piece, env: Environment, w: Warning)
    requires w in DenotePiece(p, env).warnings
    ensures Within(w.literal, DenotePiece(p, env).text) && Within(w.literal, PrintPiece(p))
    decreases p
  {
    WithinSide(w.literal, "", "");
    if p.Braced? && p.body.Applied? && w in Denote(p.body.arg, env).warnings {
      var b := p.body;
      LeftInTemplate(b.arg, env, w);
      WithinSide(w.literal, OperatorText(b.op), Print(b.arg));
      WithinSide(w.literal, b.name, OperatorText(b.op) + Print(b.arg));
      WithinSide(w.literal, "${", PrintBody(b));
      WithinSide(w.literal, "${" + PrintBody(b), "}");
    }
  }

  method ScanName(text: string) returns (name: string)
    ensures name == NameOf(text)
  {
    if text == "" || !IsNameStart(text[0]) {
      return "";
    }
    var i := 1;
    while i < |text| && IsNameChar(text[i])
      invariant 1 <= i <= |text| && NameChars(text) == i + NameChars(text[i..])
    {
      assert text[i..][1..] == text[i + 1..];
      i := i + 1;
    }
    return text[..i];
  }

  method ClosingBrace(text: string, open: nat) returns (end: int)
    requires open < |text| && text[open] == '{'
    ensures var k := CloseAt(text[open + 1..], 1); end == if k < 0 then -1 else open + 1 + k
  {
    var depth := 0;
    ghost var k := CloseAt(text[open + 1..], 1);
    for i := open to |text|
      invariant i == open ==> depth == 0
      invariant i > open ==> depth > 0
      invariant i > open ==> var j := CloseAt(text[i..], depth); (if k < 0 then -1 else open + 1 + k) ==
                                                                 if j < 0 then -1 else i + j
    {
      assert text[i..][1..] == text[i + 1..];
      match text[i] {
        case '{' =>
          depth := depth + 1;
        case '}' =>
          depth := depth - 1;
          if depth == 0 {
            return i;
          }
        case _ =>
      }
    }
    return -1;
  }

  /** `e` is what the text from `i` on expands to, once `part` and the warnings `ws` of
      its first piece are put before the rest from `next` on. */
  ghost predicate Continues(text: string, i: nat, next: nat, env: Environment, part: string, ws: seq<Warning>)
    requires i <= |text| && next <= |text|
  {
    Subst(text[i..], env) == Expansion(part, ws).Plus(Subst(text[next..], env))
  }

  lemma PieceContinues(text: string, i: nat, next: nat, p: Piece, env: Environment)
    requires i <= next <= |text| && Parse(text[i..]) == Then(p, Parse(text[next..]))
    ensures var e := DenotePiece(p, env); Continues(text, i, next, env, e.text, e.warnings)
  {}

  lemma LiteralContinues(text: string, i: nat, env: Environment)
    requires i < |text|
    ensures text[i] != '$' ==> Continues(text, i, i + 1, env, [text[i]], [])
    ensures i + 1 < |text| && text[i] == text[i + 1] == '$' ==> Continues(text, i, i + 2, env, "$", [])
  {
    var rest := text[i..];
    if text[i] != '$' {
      assert rest[1..] == text[i + 1..];
      PieceContinues(text, i, i + 1, Literal(text[i]), env);
    } else if i + 1 < |text| && text[i + 1] == '$' {
      assert rest[1..][1..] == text[i + 2..];
      PieceContinues(text, i, i + 2, Escape, env);
    }
  }

  lemma BracesAt(text: string, i: nat)
    requires i + 1 < |text| && text[i] == '$' && text[i + 1] == '{'
    ensures Parse(text[i..]) == ParseBraces(text[i + 2..])
  {}

  lemma BracedContinues(text: string, i: nat, env: Environment)
    requires i + 1 < |text| && text[i] == '$' && text[i + 1] == '{' && CloseAt(text[i + 2..], 1) >= 0
    ensures var k := CloseAt(text[i + 2..], 1);
            var e := DenoteBody(ParseBody(text[i + 2..i + 2 + k]), env);
            Continues(text, i, i + k + 3, env, e.text, e.warnings)
  {
    hide Parse;
    hide ParseBody;
    hide Denote;
    hide DenoteBody;
    hide CloseAt;
    var rest := text[i + 2..];
    var k := CloseAt(rest, 1);
    BracesAt(text, i);
    assert rest[..k] == text[i + 2..i + 2 + k];
    assert rest[k + 1..] == text[i + k + 3..];
    PieceContinues(text, i, i + k + 3, Braced(ParseBody(rest[..k])), env);
  }

  lemma UnclosedContinues(text: string, i: nat, env: Environment)
    requires i + 1 < |text| && text[i] == '$' && text[i + 1] == '{' && CloseAt(text[i + 2..], 1) < 0
    ensures Continues(text, i, |text|, env, text[i..], [Warning(Unterminated, text[i..])])
  {
    hide Parse;
    hide Denote;
    hide CloseAt;
    BracesAt(text, i);
    EmptyParses();
    assert text[|text|..] == "";
    assert text[i..] == "${" + text[i + 2..];
    PieceContinues(text, i, |text|, Unclosed(text[i + 2..]), env);
  }

  lemma EmptyParses()
    ensures Parse("") == End
  {}

  lemma PlainContinues(text: string, i: nat, env: Environment)
    requires i < |text| && text[i] == '$' && (i + 1 < |text| ==> text[i + 1] != '$' && text[i + 1] != '{')
    ensures var name := NameOf(text[i + 1..]);
            var e := if name == "" then Value("$") else DenotePiece(Plain(name), env);
            i + 1 + |name| <= |text| && Continues(text, i, i + 1 + |name|, env, e.text, e.warnings)
  {
    var rest := text[i + 1..];
    var name := NameOf(rest);
    hide Parse;
    hide Denote;
    hide NameChars;
    assert text[i..] == "$" + rest;
    DollarThen(rest);
    assert rest[|name|..] == text[i + 1 + |name|..];
    PieceContinues(text, i, i + 1 + |name|, if name == "" then Dollar else Plain(name), env);
  }

  /** One turn of the loop: the text from `i` up to `next` is worth `part`. */
  method SubstituteNext(text: string, i: nat, env: Environment, w: Warner) returns (part: string, next: nat)
    requires i < |text|
    modifies w
    ensures i < next <= |text| && old(w.warnings) <= w.warnings
    ensures Continues(text, i, next, env, part, w.warnings[|old(w.warnings)|..])
    decreases |text|, 1
  {
    if text[i] != '$' {
      LiteralContinues(text, i, env);
      return [text[i]], i + 1;
    }
    if i + 1 < |text| && text[i + 1] == '$' {
      LiteralContinues(text, i, env);
      return "$", i + 2;
    }
    if i + 1 < |text| && text[i + 1] == '{' {
      part, next := SubstituteBraced(text, i, env, w);
      return;
    }
    PlainContinues(text, i, env);
    var name := ScanName(text[i + 1..]);
    if name == "" {
      return "$", i + 1;
    }
    part := SubstituteName(name, env, w);
    next := i + 1 + |name|;
  }

  method SubstituteBraced(text: string, i: nat, env: Environment, w: Warner) returns (part: string, next: nat)
    requires i + 1 < |text| && text[i] == '$' && text[i + 1] == '{'
    modifies w
    ensures i < next <= |text| && old(w.warnings) <= w.warnings
    ensures Continues(text, i, next, env, part, w.warnings[|old(w.warnings)|..])
    decreases |text|, 0
  {
    hide Parse;
    hide ParseBody;
    hide Denote;
    hide DenoteBody;
    hide CloseAt;
    var end := ClosingBrace(text, i + 1);
    if end < 0 {
      UnclosedContinues(text, i, env);
      w.Add(Warning(Unterminated, text[i..]));
      return text[i..], |text|;
    }
    BracedContinues(text, i, env);
    part := ExpandBraced(text[i + 2..end], env, w);
    next := end + 1;
  }

  method SubstituteName(name: string, env: Environment, w: Warner) returns (part: string)
    modifies w
    ensures var e := DenotePiece(Plain(name), env);
            part == e.text && w.warnings == old(w.warnings) + e.warnings
  {
    var value := env.Lookup(name);
    if value.Some? {
      return value.value;
    }
    w.Add(Warning(Unresolved, "$" + name));
    return "$" + name;
  }

  method Substitute(text: string, env: Environment, w: Warner) returns (out: string)
    modifies w
    ensures out == Subst(text, env).text
    ensures w.warnings == old(w.warnings) + Subst(text, env).warnings
    decreases |text|, 2
  {
    hide Parse;
    hide Denote;
    out := "";
    var i := 0;
    ghost var whole, told := Subst(text, env), [];
    assert text[0..] == text;
    while i < |text|
      invariant 0 <= i <= |text| && w.warnings == old(w.warnings) + told
      invariant Expansion(out, told).Plus(Subst(text[i..], env)) == whole
    {
      ghost var before := w.warnings;
      var part, next := SubstituteNext(text, i, env, w);
      ghost var ws := w.warnings[|before|..];
      assert w.warnings == before + ws;
      PlusIsAssociative(Expansion(out, told), Expansion(part, ws), Subst(text[next..], env));
      out, told := out + part, told + ws;
      i := next;
    }
    assert text[|text|..] == "";
    EmptyMeansNothing(env);
  }

  lemma EmptyMeansNothing(env: Environment)
    ensures Subst("", env) == Value("")
  {}

  lemma PlusIsAssociative(d: Expansion, e: Expansion, f: Expansion)
    ensures d.Plus(e).Plus(f) == d.Plus(e.Plus(f))
  {}

  /** What an operator makes of a variable, given the body it was read as. */
  method Apply(name: string, operator: string, literal: string, env: Environment, w: Warner) returns (out: string)
    requires operator != ""
    requires var b := ParseOperator(name, operator); b.Some? ==> "${" + PrintBody(b.value) + "}" == literal
    modifies w
    ensures var b := ParseOperator(name, operator);
            var e := if b.Some? then DenoteBody(b.value, env) else Left(UnknownOperator, literal);
            out == e.text && w.warnings == old(w.warnings) + e.warnings
    decreases |operator|, 3
  {
    var v := env.Lookup(name);
    var isSet, value := v.Some?, if v.Some? then v.value else "";
    if HasPrefix(operator, ":-") {
      if !isSet || value == "" {
        out := Substitute(operator[2..], env, w);
        return;
      }
      return value;
    } else if HasPrefix(operator, "-") {
      if !isSet {
        out := Substitute(operator[1..], env, w);
        return;
      }
      return value;
    } else if HasPrefix(operator, ":+") {
      if isSet && value != "" {
        out := Substitute(operator[2..], env, w);
        return;
      }
      return "";
    } else if HasPrefix(operator, "+") {
      if isSet {
        out := Substitute(operator[1..], env, w);
        return;
      }
      return "";
    } else if HasPrefix(operator, ":?") || HasPrefix(operator, "?") {
      if !isSet || (value == "" && HasPrefix(operator, ":?")) {
        w.Add(Warning(Required, literal));
        return literal;
      }
      return value;
    }
    w.Add(Warning(UnknownOperator, literal));
    return literal;
  }

  method ExpandBraced(body: string, env: Environment, w: Warner) returns (out: string)
    modifies w
    ensures out == DenoteBody(ParseBody(body), env).text
    ensures w.warnings == old(w.warnings) + DenoteBody(ParseBody(body), env).warnings
    decreases |body|, 4
  {
    var literal := "${" + body + "}";
    PrintBodyUndoesParse(body);
    var name := ScanName(body);
    if name == "" {
      w.Add(Warning(NotAReference, literal));
      return literal;
    }
    var operator := body[|name|..];
    if operator == "" {
      var v := env.Lookup(name);
      if v.None? {
        w.Add(Warning(Unresolved, literal));
        return literal;
      }
      return v.value;
    }
    out := Apply(name, operator, literal, env, w);
  }

  // ------------------------------------------------- what a text becomes, in its own terms

  /** A letter, a digit or an underscore (code 95). */
  predicate IsNameCode(n: int) { IsLowerCode(n) || IsUpperCode(n) || IsDigitCode(n) || n == 95 }

  /** A letter or an underscore, then letters, digits and underscores. */
  predicate IsVariable(name: string) {
    name != "" && !IsDigitCode(name[0] as int) && forall i :: 0 <= i < |name| ==> IsNameCode(name[i] as int)
  }

  lemma VariablesAreNames(name: string)
    ensures IsVariable(name) <==> IsName(name)
  {
    forall i | 0 <= i < |name| ensures IsNameChar(name[i]) <==> IsNameCode(name[i] as int) {
      ClassesAre(name[i]);
    }
    if IsName(name) {
      forall i | 0 <= i < |name| ensures IsNameChar(name[i]) {
        assert name[i] in name;
      }
    }
  }

  /** The process environment comes first, the `.env` file where it has nothing. */
  lemma ProcessComesFirst(name: string, env: Environment)
    ensures name in env.process ==> env.Lookup(name) == Some(env.process[name])
    ensures name !in env.process && name in env.dotenv ==> env.Lookup(name) == Some(env.dotenv[name])
    ensures name !in env.process && name !in env.dotenv ==> env.Lookup(name) == None
  {}

  /** The variable as the environments have it, written out; None where neither has it. */
  ghost predicate Reads(env: Environment, name: string, value: Option<string>) {
    if name in env.process then value == Some(env.process[name])
    else if name in env.dotenv then value == Some(env.dotenv[name])
    else value == None
  }

  /** The result of a text that starts with a reference: the text and the reports of the
      reference, then those of what follows. */
  ghost predicate Becomes(text: string, next: string, env: Environment, part: string, warnings: seq<Warning>) {
    && Subst(text, env).text == part + Subst(next, env).text
    && Subst(text, env).warnings == warnings + Subst(next, env).warnings
  }

  /** What a text becomes is what its first piece means, then what the rest becomes. */
  lemma PieceBecomes(text: string, p: Piece, next: string, env: Environment)
    requires Parse(text) == Then(p, Parse(next))
    ensures var e := DenotePiece(p, env); Becomes(text, next, env, e.text, e.warnings)
  {}

  lemma {:induction false} BraceFree(x: string, s: string, from: int)
    requires from > 0 && '{' !in x && '}' !in x
    ensures Depth(x + s) == Depth(s) && (StaysOpen(x + s, from) <==> StaysOpen(s, from))
  {
    hide StaysOpen;
    if x == "" {
      assert x + s == s;
    } else {
      var t := x + s;
      assert t[0] in x && t[1..] == x[1..] + s;
      BraceFree(x[1..], s, from);
      assert t[..1][1..] == "";
      StaysOpenStep(t, from);
    }
  }

  lemma Bracing(x: string, s: string)
    requires '{' !in x && '}' !in x && Balanced(s)
    ensures Balanced(x + s)
  {
    BraceFree(x, s, 1);
  }

  /** Text without braces is balanced, and so is a braced text between two balanced ones. */
  lemma NoBracesBalance(s: string)
    requires '{' !in s && '}' !in s
    ensures Balanced(s)
  {
    BraceFree(s, "", 1);
    assert s + "" == s && Balanced("");
  }

  lemma NameHasNoBraces(name: string)
    requires IsVariable(name)
    ensures '{' !in name && '}' !in name && '$' !in name && ':' !in name
  {}

  /** A braced reference, read as the body it is. */
  lemma BodyBecomes(body: string, b: Body, next: string, env: Environment)
    requires Balanced(body) && ParseBody(body) == b
    ensures var e := DenoteBody(b, env); Becomes("${" + body + "}" + next, next, env, e.text, e.warnings)
  {
    hide ParseBody;
    hide Parse;
    hide Balanced;
    hide DenoteBody;
    BracedThen(body, next);
    PieceBecomes("${" + body + "}" + next, Braced(b), next, env);
  }

  lemma AppliedBody(name: string, op: Operator, s: string)
    requires IsVariable(name) && Balanced(s)
    ensures var body := name + OperatorText(op) + s;
            Balanced(body) && ParseBody(body) == Applied(name, op, Parse(s))
  {
    hide Parse;
    hide Balanced;
    VariablesAreNames(name);
    NameHasNoBraces(name);
    assert name + OperatorText(op) + s == name + (OperatorText(op) + s);
    OperatorThen(name, op, s);
    NameThen(name, OperatorText(op) + s);
    Bracing(OperatorText(op), s);
    Bracing(name, OperatorText(op) + s);
  }

  lemma DemandedBody(name: string, orEmpty: bool, s: string)
    requires IsVariable(name) && Balanced(s)
    ensures var body := name + (if orEmpty then ":?" else "?") + s;
            Balanced(body) && ParseBody(body) == Demanded(name, orEmpty, s)
  {
    hide Balanced;
    var mark := if orEmpty then ":?" else "?";
    VariablesAreNames(name);
    NameHasNoBraces(name);
    assert name + mark + s == name + (mark + s);
    DemandThen(name, orEmpty, s);
    NameThen(name, mark + s);
    Bracing(mark, s);
    Bracing(name, mark + s);
  }

  /** The two defaults: `:-` for a variable that is unset or empty, `-` for one that is
      unset. What stands after the operator is substituted in its turn. */
  lemma DefaultsAre(name: string, s: string, next: string, env: Environment, value: Option<string>)
    requires IsVariable(name) && Balanced(s) && Reads(env, name, value)
    ensures var text := "${" + name + ":-" + s + "}" + next;
            if value.Some? && value.value != "" then Becomes(text, next, env, value.value, [])
            else Becomes(text, next, env, Subst(s, env).text, Subst(s, env).warnings)
    ensures var text := "${" + name + "-" + s + "}" + next;
            if value.Some? then Becomes(text, next, env, value.value, [])
            else Becomes(text, next, env, Subst(s, env).text, Subst(s, env).warnings)
  {
    hide Parse;
    hide ParseBody;
    hide Balanced;
    hide Becomes;
    hide Denote;
    AppliedBody(name, DefaultIfEmpty, s);
    AppliedBody(name, DefaultIfUnset, s);
    assert "${" + (name + ":-" + s) + "}" + next == "${" + name + ":-" + s + "}" + next;
    assert "${" + (name + "-" + s) + "}" + next == "${" + name + "-" + s + "}" + next;
    BodyBecomes(name + ":-" + s, Applied(name, DefaultIfEmpty, Parse(s)), next, env);
    BodyBecomes(name + "-" + s, Applied(name, DefaultIfUnset, Parse(s)), next, env);
  }

  /** The two alternates: `:+` for a variable that is set and not empty, `+` for one that
      is set; nothing otherwise. */
  lemma AlternatesAre(name: string, s: string, next: string, env: Environment, value: Option<string>)
    requires IsVariable(name) && Balanced(s) && Reads(env, name, value)
    ensures var text := "${" + name + ":+" + s + "}" + next;
            if value.Some? && value.value != "" then Becomes(text, next, env, Subst(s, env).text, Subst(s, env).warnings)
            else Becomes(text, next, env, "", [])
    ensures var text := "${" + name + "+" + s + "}" + next;
            if value.Some? then Becomes(text, next, env, Subst(s, env).text, Subst(s, env).warnings)
            else Becomes(text, next, env, "", [])
  {
    hide Parse;
    hide ParseBody;
    hide Balanced;
    hide Becomes;
    hide Denote;
    AppliedBody(name, AlternateIfFull, s);
    AppliedBody(name, AlternateIfSet, s);
    assert "${" + (name + ":+" + s) + "}" + next == "${" + name + ":+" + s + "}" + next;
    assert "${" + (name + "+" + s) + "}" + next == "${" + name + "+" + s + "}" + next;
    BodyBecomes(name + ":+" + s, Applied(name, AlternateIfFull, Parse(s)), next, env);
    BodyBecomes(name + "+" + s, Applied(name, AlternateIfSet, Parse(s)), next, env);
  }

  /** The two demands: `:?` for a value that is not empty, `?` for any value. What is
      missing is left as written and reported. */
  lemma DemandsAre(name: string, s: string, next: string, env: Environment, value: Option<string>)
    requires IsVariable(name) && Balanced(s) && Reads(env, name, value)
    ensures var left := "${" + name + ":?" + s + "}";
            if value.Some? && value.value != "" then Becomes(left + next, next, env, value.value, [])
            else Becomes(left + next, next, env, left, [Warning(Required, left)])
    ensures var left := "${" + name + "?" + s + "}";
            if value.Some? then Becomes(left + next, next, env, value.value, [])
            else Becomes(left + next, next, env, left, [Warning(Required, left)])
  {
    hide Parse;
    hide ParseBody;
    hide Balanced;
    hide Becomes;
    DemandIs(name, true, s, next, env);
    DemandIs(name, false, s, next, env);
  }

  lemma DemandIs(name: string, orEmpty: bool, s: string, next: string, env: Environment)
    requires IsVariable(name) && Balanced(s)
    ensures var left := "${" + name + (if orEmpty then ":?" else "?") + s + "}";
            var v := env.Lookup(name);
            if v.Some? && (orEmpty ==> v.value != "") then Becomes(left + next, next, env, v.value, [])
            else Becomes(left + next, next, env, left, [Warning(Required, left)])
  {
    hide Parse;
    hide ParseBody;
    hide Balanced;
    hide Becomes;
    var mark := if orEmpty then ":?" else "?";
    var body := name + mark + s;
    DemandedBody(name, orEmpty, s);
    assert PrintBody(Demanded(name, orEmpty, s)) == body;
    assert "${" + body + "}" == "${" + name + mark + s + "}";
    BodyBecomes(body, Demanded(name, orEmpty, s), next, env);
  }

  /** A bare reference, with and without braces. */
  lemma ReferencesAre(name: string, next: string, env: Environment, value: Option<string>)
    requires IsVariable(name) && Reads(env, name, value)
    ensures var left := "${" + name + "}";
            if value.Some? then Becomes(left + next, next, env, value.value, [])
            else Becomes(left + next, next, env, left, [Warning(Unresolved, left)])
    ensures next == "" || !IsNameCode(next[0] as int) ==>
              if value.Some? then Becomes("$" + name + next, next, env, value.value, [])
              else Becomes("$" + name + next, next, env, "$" + name, [Warning(Unresolved, "$" + name)])
  {
    hide Parse;
    hide ParseBody;
    hide Balanced;
    hide Becomes;
    VariablesAreNames(name);
    NameHasNoBraces(name);
    NameThen(name, "");
    assert name + "" == name;
    NoBracesBalance(name);
    BareBody(name);
    BodyBecomes(name, Bare(name), next, env);
    if next == "" || !IsNameCode(next[0] as int) {
      PlainThen(name, next);
      PieceBecomes("$" + name + next, Plain(name), next, env);
    }
  }

  lemma BareBody(name: string)
    requires NameOf(name) == name && name != ""
    ensures ParseBody(name) == Bare(name)
  {}

  lemma UnclosedBecomes(text: string, rest: string, env: Environment)
    requires Parse(text) == Then(Unclosed(rest), End)
    ensures Subst(text, env) == Expansion("${" + rest, [Warning(Unterminated, "${" + rest)])
  {
    var left := Left(Unterminated, "${" + rest);
    assert Denote(End, env) == Value("");
    assert left.text + "" == left.text && left.warnings + [] == left.warnings;
    assert Denote(Then(Unclosed(rest), End), env) == left.Plus(Value(""));
  }

  /** Everything else: other characters stand for themselves, `$$` for a dollar sign, and
      a dollar sign that starts nothing for itself; what cannot be read is left and
      reported. */
  lemma OtherTextIs(c: char, next: string, env: Environment)
    ensures c != '$' ==> Becomes([c] + next, next, env, [c], [])
    ensures Becomes("$$" + next, next, env, "$", [])
    ensures next == "" || (next[0] != '$' && next[0] != '{' && (IsDigitCode(next[0] as int) || !IsNameCode(next[0] as int))) ==>
              Becomes("$" + next, next, env, "$", [])
    ensures CloseAt(next, 1) < 0 ==>
              Subst("${" + next, env) == Expansion("${" + next, [Warning(Unterminated, "${" + next)])
    ensures Subst("", env) == Expansion("", [])
  {
    hide Parse;
    hide CloseAt;
    hide Becomes;
    EmptyParses();
    if c != '$' {
      LiteralThen(c, next);
      PieceBecomes([c] + next, Literal(c), next, env);
    }
    EscapeThen(next);
    PieceBecomes("$$" + next, Escape, next, env);
    if next == "" || (next[0] != '$' && next[0] != '{' && !IsNameStart(next[0])) {
      LoneDollarThen(next);
      PieceBecomes("$" + next, Dollar, next, env);
    }
    if CloseAt(next, 1) < 0 {
      UnclosedThen(next);
      UnclosedBecomes("${" + next, next, env);
    }
  }

  /** Braces around what is no name, or a name with no known operator behind it. */
  lemma OddReferencesAre(name: string, s: string, next: string, env: Environment)
    requires Balanced(name + s) && (name == "" || IsVariable(name))
    requires s != "" && (IsDigitCode(s[0] as int) ==> name == "")
    requires !IsLowerCode(s[0] as int) && !IsUpperCode(s[0] as int) && s[0] as int != 95
    requires name != "" ==> s[0] !in "-+?" && (s[0] == ':' && |s| > 1 ==> s[1] !in "-+?")
    ensures var left := "${" + (name + s) + "}";
            Becomes(left + next, next, env, left, [Warning(if name == "" then NotAReference else UnknownOperator, left)])
  {
    hide Parse;
    hide ParseBody;
    hide Balanced;
    hide Becomes;
    OddBody(name, s);
    BodyBecomes(name + s, Opaque(name + s), next, env);
  }

  lemma OddBody(name: string, s: string)
    requires name == "" || IsVariable(name)
    requires s != "" && (IsDigitCode(s[0] as int) ==> name == "")
    requires !IsLowerCode(s[0] as int) && !IsUpperCode(s[0] as int) && s[0] as int != 95
    requires name != "" ==> s[0] !in "-+?" && (s[0] == ':' && |s| > 1 ==> s[1] !in "-+?")
    ensures ParseBody(name + s) == Opaque(name + s) && NameOf(name + s) == name
  {
    hide Parse;
    hide IsVariable;
    if name != "" {
      VariablesAreNames(name);
      NameThen(name, s);
    } else {
      assert name + s == s;
    }
  }

  /** A default inside a default: `${A:-${B:-s}}`. */
  lemma NestedDefaultIs(a: string, b: string, s: string, env: Environment)
    requires IsVariable(a) && IsVariable(b) && Reads(env, a, None) && Reads(env, b, None)
    requires '{' !in s && '}' !in s && '$' !in s
    ensures Subst("${" + a + ":-" + ("${" + b + ":-" + s + "}") + "}", env) == Expansion(s, [])
  {
    hide Parse;
    hide Balanced;
    var inner := "${" + b + ":-" + s + "}";
    NoBracesBalance(s);
    BracedIsBalanced(b, s);
    DefaultsAre(b, s, "", env, None);
    DefaultsAre(a, inner, "", env, None);
    OtherTextIs('x', "", env);
    PlainTextIs(s, env);
    assert inner + "" == inner;
    assert "${" + a + ":-" + inner + "}" + "" == "${" + a + ":-" + inner + "}";
  }

  lemma BracedIsBalanced(b: string, s: string)
    requires IsVariable(b) && '{' !in s && '}' !in s
    ensures Balanced("${" + b + ":-" + s + "}")
  {
    var inside := b + ":-" + s;
    NameHasNoBraces(b);
    hide StaysOpen;
    var t := inside + "}";
    assert t[|inside|..] == "}";
    BraceFree(inside, "}", 2);
    assert StaysOpen("}", 2) by { ClosingStaysOpen(); }
    var u := "{" + t;
    assert u[1..] == t && u[..1][1..] == "";
    StaysOpenStep(u, 1);
    BraceFree("$", u, 1);
    assert "$" + u == "${" + b + ":-" + s + "}";
  }

  lemma ClosingStaysOpen()
    ensures StaysOpen("}", 2) && Depth("}") == -1
  {
    assert "}"[..0] == "" && "}"[..1] == "}" && "}"[1..] == "";
  }

  /** A text without dollar signs is left alone. */
  lemma {:induction false} PlainTextIs(s: string, env: Environment)
    requires '$' !in s
    ensures Subst(s, env) == Expansion(s, [])
  {
    hide Parse;
    OtherTextIs('x', "", env);
    if s != "" {
      assert s == [s[0]] + s[1..];
      PlainTextIs(s[1..], env);
      OtherTextIs(s[0], s[1..], env);
    }
  }
}
