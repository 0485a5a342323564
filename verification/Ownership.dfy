/**
 The planned run and the host it meets, and whose an existing container is:
 app/witness/preflight.go (Input, sameProject) and app/witness/ownership.go.
 */
module Ownership {
  import opened Text
  import opened PortSpec
  import opened PortMatch
  import opened Findings

  datatype Service = Service(name: string, networkMode: string, ports: seq<PortMapping>, expose: seq<int>)

  datatype Container = Container(
    name: string,
    state: string,
    ports: seq<PortMapping>,
    networks: seq<string>,
    project: string,
    service: string,
    workingDir: string,
    configHash: string,
    oneOff: bool,
    labelled: bool)

  datatype Plan = Plan(
    projectDirectory: string,
    removeOrphans: bool,
    forceRecreate: bool,
    noRecreate: bool,
    configHashes: map<string, string>)

  /** What the port rules look at. `parse` is net.ParseIP, `clean` filepath.Clean. */
  datatype Input = Input(
    project: string,
    services: seq<Service>,
    containers: seq<Container>,
    sockets: seq<Socket>,
    hasRuntime: bool,
    observations: seq<Observation>,
    stack: Stack,
    portsUnchecked: bool,
    plan: Option<Plan>,
    parse: AddressParser,
    clean: string -> string)

  const CONTAINERS: string := "containers"

  // ------------------------------------------------------------------- projects

  predicate IsProjectChar(c: char) { 'a' <= c <= 'z' || IsDigit(c) || c == '_' || c == '-' }

  function Keep(s: string): string {
    if s == "" then "" else (if IsProjectChar(s[0]) then [s[0]] else "") + Keep(s[1..])
  }

  /** Compose's own normalisation: lower case, and only [a-z0-9_-]. */
  function NormaliseProject(name: string): string { Keep(ToLower(name)) }

  predicate SameProject(inp: Input, project: string) {
    inp.project != "" && project != "" && EqualFold(NormaliseProject(inp.project), NormaliseProject(project))
  }

  lemma {:induction false} KeepIsLegal(s: string)
    ensures forall c :: c in Keep(s) ==> IsProjectChar(c)
    ensures forall c :: c in Keep(s) ==> c in s
  {
    if s != "" { KeepIsLegal(s[1..]); }
  }

  lemma {:induction false} LegalIsKept(s: string)
    requires forall c :: c in s ==> IsProjectChar(c)
    ensures Keep(s) == s && ToLower(s) == s
  {
    if s != "" {
      assert s[0] in s;
      LegalIsKept(s[1..]);
      assert s == [s[0]] + s[1..];
      forall i | 0 <= i < |s| ensures ToLower(s)[i] == s[i] { assert s[i] in s; }
    }
  }

  lemma NormalisedTwice(name: string)
    ensures NormaliseProject(NormaliseProject(name)) == NormaliseProject(name)
    ensures ToLower(NormaliseProject(name)) == NormaliseProject(name)
  {
    KeepIsLegal(ToLower(name));
    LegalIsKept(NormaliseProject(name));
  }

  /** Two names are of one project exactly when both are given and normalise alike. */
  lemma SameProjectExactlyWhen(inp: Input, project: string)
    ensures SameProject(inp, project) <==>
            inp.project != "" && project != "" && NormaliseProject(inp.project) == NormaliseProject(project)
  {
    NormalisedTwice(inp.project);
    NormalisedTwice(project);
  }

  /** A lower-case letter, a digit, an underscore (95) or a hyphen (45). */
  predicate IsProjectCode(n: int) { IsLowerCode(n) || IsDigitCode(n) || n == 95 || n == 45 }

  lemma {:induction false} KeepJoin(s: string, t: string)
    ensures Keep(s + t) == Keep(s) + Keep(t)
  {
    hide IsProjectChar;
    if s == "" {
      assert s + t == t;
    } else {
      var first := if IsProjectChar(s[0]) then [s[0]] else "";
      assert (s + t)[0] == s[0] && (s + t)[1..] == s[1..] + t;
      KeepJoin(s[1..], t);
      assert first + (Keep(s[1..]) + Keep(t)) == (first + Keep(s[1..])) + Keep(t);
    }
  }

  /** What becomes of every character of a name: the legal ones stay, capitals become small
      letters, and all others go. */
  lemma NormalisedIs(before: string, c: char, after: string)
    ensures NormaliseProject(before + [c] + after) ==
            NormaliseProject(before) +
            (if IsProjectCode(c as int) then [c] else if IsUpperCode(c as int) then [(c as int + 32) as char] else "") +
            NormaliseProject(after)
    ensures NormaliseProject("") == ""
  {
    hide Keep;
    ClassesAre(c);
    ClassesAre(ToLowerChar(c));
    assert ToLower(before + [c] + after) == ToLower(before) + [ToLowerChar(c)] + ToLower(after);
    KeepJoin(ToLower(before) + [ToLowerChar(c)], ToLower(after));
    KeepJoin(ToLower(before), [ToLowerChar(c)]);
    KeepOne(ToLowerChar(c));
    assert ToLower("") == "";
    KeepNothing();
  }

  lemma KeepOne(c: char)
    ensures Keep([c]) == if IsProjectChar(c) then [c] else ""
  {
    assert [c][1..] == "";
  }

  lemma KeepNothing()
    ensures Keep("") == ""
  {}

  predicate IsProjectName(name: string) { forall i :: 0 <= i < |name| ==> IsProjectCode(name[i] as int) }

  lemma ProjectNamesAreKept(name: string)
    requires IsProjectName(name)
    ensures NormaliseProject(name) == name
  {
    forall c | c in name ensures IsProjectChar(c) {
      ClassesAre(c);
    }
    LegalIsKept(name);
  }

  /** Two names of lower-case letters, digits, underscores and hyphens are of one project
      exactly when they are equal and not empty: s1 is not s2. */
  lemma ProjectNamesAreCompared(inp: Input, project: string)
    requires IsProjectName(inp.project) && IsProjectName(project)
    ensures SameProject(inp, project) <==> inp.project == project != ""
  {
    SameProjectExactlyWhen(inp, project);
    ProjectNamesAreKept(inp.project);
    ProjectNamesAreKept(project);
  }

  /** Names without a single legal character would be taken for one project. No audited
      name is one of them: see AuditedNameIsLegal. */
  lemma {:induction false} IllegalNamesAreOneProject(inp: Input, project: string)
    requires inp.project != "" && project != ""
    requires forall c :: c in ToLower(inp.project) + ToLower(project) ==> !IsProjectChar(c)
    ensures SameProject(inp, project)
  {
    IllegalIsDropped(ToLower(inp.project));
    IllegalIsDropped(ToLower(project));
  }

  lemma {:induction false} IllegalIsDropped(s: string)
    requires forall c :: c in s ==> !IsProjectChar(c)
    ensures Keep(s) == ""
  {
    if s != "" { IllegalIsDropped(s[1..]); }
  }

  function NormaliseName(name: string): string { Keep(ToLower(TrimSpace(name))) }

  /** The name of the planned run, by Compose's precedence: the flag, the environment, the
      name a file declares, the directory; Compose's own answer where it resolved the plan. */
  function PlanName(requested: string, environment: string, declared: string, directory: string,
                    composed: string): string
  {
    if composed != "" then composed
    else if requested != "" then NormaliseName(requested)
    else if TrimSpace(environment) != "" then NormaliseName(environment)
    else if declared != "" then NormaliseName(declared)
    else NormaliseName(directory)
  }

  /** The project the audit runs for: the plan's name, else the Compose file's directory. */
  function ProjectName(planName: string, directory: string): string {
    if planName != "" then planName else NormaliseName(directory)
  }

  /** Compose's order: its own answer, the flag, COMPOSE_PROJECT_NAME, the name in the file, the
      directory; all but its own answer normalised, without the spaces around them. The
      directory of the Compose file stands in where there is no plan. */
  lemma PrecedenceIs(requested: string, environment: string, declared: string, directory: string, composed: string,
                     fileDirectory: string)
    ensures var name := PlanName(requested, environment, declared, directory, composed);
            && (composed != "" ==> name == composed)
            && (composed == "" && requested != "" ==> name == NormaliseProject(TrimSpace(requested)))
            && (composed == "" && requested == "" && TrimSpace(environment) != "" ==>
                  name == NormaliseProject(TrimSpace(environment)))
            && (composed == "" && requested == "" && TrimSpace(environment) == "" && declared != "" ==>
                  name == NormaliseProject(TrimSpace(declared)))
            && (composed == "" && requested == "" && TrimSpace(environment) == "" && declared == "" ==>
                  name == NormaliseProject(TrimSpace(directory)))
            && (name != "" ==> ProjectName(name, fileDirectory) == name)
            && (name == "" ==> ProjectName(name, fileDirectory) == NormaliseProject(TrimSpace(fileDirectory)))
  {
    hide Keep;
  }

  predicate IsLegalName(name: string) { forall c :: c in name ==> IsProjectChar(c) }

  /** Whatever was asked for, the audited name has legal characters only, as Compose's own
      names do. */
  lemma AuditedNameIsLegal(requested: string, environment: string, declared: string, directory: string,
                           composed: string, fileDirectory: string)
    requires IsLegalName(composed)
    ensures IsLegalName(ProjectName(PlanName(requested, environment, declared, directory, composed), fileDirectory))
  {
    forall name: string ensures IsLegalName(NormaliseName(name)) { KeepIsLegal(ToLower(TrimSpace(name))); }
  }

  /** For such a name, a label is of the project exactly when it normalises to it; so no
      label without a legal character is. */
  lemma AuditedProjectExactlyWhen(inp: Input, project: string)
    requires IsLegalName(inp.project)
    ensures SameProject(inp, project) <==> inp.project != "" && NormaliseProject(project) == inp.project
    ensures (forall c :: c in ToLower(project) ==> !IsProjectChar(c)) ==> !SameProject(inp, project)
  {
    LegalIsKept(inp.project);
    SameProjectExactlyWhen(inp, project);
    if forall c :: c in ToLower(project) ==> !IsProjectChar(c) { IllegalIsDropped(ToLower(project)); }
    if project == "" { assert NormaliseProject(project) == ""; }
  }

  function PlanDirectory(inp: Input): string { if inp.plan.Some? then inp.plan.value.projectDirectory else "" }

  predicate SameDirectory(inp: Input, dir: string) {
    PlanDirectory(inp) != "" && dir != "" && inp.clean(PlanDirectory(inp)) == inp.clean(dir)
  }

  predicate DifferentDirectory(inp: Input, dir: string) {
    PlanDirectory(inp) != "" && dir != "" && inp.clean(PlanDirectory(inp)) != inp.clean(dir)
  }

  /** Without a service label the container counts as planned. */
  predicate PlannedService(inp: Input, service: string) {
    service == "" || exists s :: s in inp.services && s.name == service
  }

  // ------------------------------------------------------------------ ownership

  datatype OwnerKind =
    | OwnService | OwnOrphan | OwnOneOff | OtherCheckout | RenamedProject | ForeignProject | Unmanaged | Unlabelled

  /** What the change list says `up` does to a container. */
  datatype Action =
    | LeftUnread | LeftAlone | TakenOver | LeftRunning | Removed
    | Replaced | ForceRecreated | KeptByFlag | Uncompared | KeptUnchanged | Changed

  datatype Owner = Owner(kind: OwnerKind, released: bool, action: Action)

  predicate RemovesOrphans(inp: Input) { inp.plan.Some? && inp.plan.value.removeOrphans }

  /** Kept when its configuration is unchanged, recreated otherwise, by the configuration
      hash; the flags come first. */
  function ComposeAction(inp: Input, c: Container): Action {
    if inp.plan.None? then Replaced
    else
      var plan := inp.plan.value;
      if plan.forceRecreate then ForceRecreated
      else if plan.noRecreate then KeptByFlag
      else if c.service !in plan.configHashes || c.configHash == "" then Uncompared
      else if plan.configHashes[c.service] == c.configHash then KeptUnchanged
      else Changed
  }

  function OwnerOf(inp: Input, c: Container): Owner {
    if !c.labelled && c.project == "" && c.service == "" then Owner(Unlabelled, false, LeftUnread)
    else if c.project == "" then Owner(Unmanaged, false, LeftAlone)
    else
      var same := SameProject(inp, c.project);
      if same && c.oneOff then Owner(OwnOneOff, false, LeftAlone)
      else if same && DifferentDirectory(inp, c.workingDir) then Owner(OtherCheckout, true, TakenOver)
      else if same && !PlannedService(inp, c.service) then
        if RemovesOrphans(inp) then Owner(OwnOrphan, true, Removed) else Owner(OwnOrphan, false, LeftRunning)
      else if same then Owner(OwnService, true, ComposeAction(inp, c))
      else if SameDirectory(inp, c.workingDir) then Owner(RenamedProject, false, LeftAlone)
      else Owner(ForeignProject, false, LeftAlone)
  }

  predicate Released(inp: Input, c: Container) { OwnerOf(inp, c).released }

  /** What the rule takes the run to stop before it binds: a container of this project that
      is no one-off run, and is without a service, planned, of another checkout, or an orphan
      to be removed. */
  lemma ReleasedExactlyWhen(inp: Input, c: Container)
    ensures Released(inp, c) <==>
            && SameProject(inp, c.project)
            && !c.oneOff
            && (|| c.service == ""
                || (exists s :: s in inp.services && s.name == c.service)
                || (&& inp.plan.Some? && inp.plan.value.projectDirectory != "" && c.workingDir != ""
                    && inp.clean(inp.plan.value.projectDirectory) != inp.clean(c.workingDir))
                || (inp.plan.Some? && inp.plan.value.removeOrphans))
  {}

  /** The kinds of this project's own containers are given to them and to no others: a
      one-off run, then another checkout, then an orphan, then a service of the plan. */
  lemma OwnKindsExactlyWhen(inp: Input, c: Container)
    ensures OwnerOf(inp, c).kind in {OwnService, OwnOrphan, OwnOneOff, OtherCheckout} <==> SameProject(inp, c.project)
    ensures SameProject(inp, c.project) ==>
              var elsewhere := inp.plan.Some? && inp.plan.value.projectDirectory != "" && c.workingDir != "" &&
                               inp.clean(inp.plan.value.projectDirectory) != inp.clean(c.workingDir);
              var planned := c.service == "" || exists s :: s in inp.services && s.name == c.service;
              && (OwnerOf(inp, c).kind == OwnOneOff <==> c.oneOff)
              && (OwnerOf(inp, c).kind == OtherCheckout <==> !c.oneOff && elsewhere)
              && (OwnerOf(inp, c).kind == OwnOrphan <==> !c.oneOff && !elsewhere && !planned)
    ensures OwnerOf(inp, c).kind == RenamedProject <==>
            && c.project != "" && !SameProject(inp, c.project)
            && inp.plan.Some? && inp.plan.value.projectDirectory != "" && c.workingDir != ""
            && inp.clean(inp.plan.value.projectDirectory) == inp.clean(c.workingDir)
    ensures OwnerOf(inp, c).kind == Unmanaged <==> c.project == "" && (c.labelled || c.service != "")
    ensures OwnerOf(inp, c).kind == Unlabelled <==> c.project == "" && c.service == "" && !c.labelled
  {}

  /** Whether the engine's list of a source can prove that something is absent. */
  predicate EngineListed(inp: Input, source: string) {
    !inp.hasRuntime || Observed(inp.observations, source).state == Complete
  }

  // ------------------------------------------------------------ what the run does

  datatype Fate = Goes | Remains | Undecided

  function FateUnder(action: Action): Fate {
    match action
    case Removed | Replaced | ForceRecreated | Changed => Goes
    case Uncompared | LeftUnread | TakenOver => Undecided
    case _ => Remains
  }

  /** What `up` does to a container. Compose knows its containers by project and service
      alone, whatever directory they came from. Undecided is what the audit cannot tell: a
      container without labels, one of this project without a service, one whose
      configuration could not be compared. */
  function FateOf(inp: Input, c: Container): Fate {
    if !c.labelled && c.project == "" && c.service == "" then Undecided
    else if !SameProject(inp, c.project) || c.oneOff then Remains
    else if c.service == "" then Undecided
    else if !PlannedService(inp, c.service) then if RemovesOrphans(inp) then Goes else Remains
    else FateUnder(ComposeAction(inp, c))
  }

  /** What `up` does, by the flags, the labels and the configuration hashes: it removes the
      orphans it was asked to, recreates what it was forced to or what has changed, and
      recreates all where no plan tells. */
  lemma FateExactlyWhen(inp: Input, c: Container)
    ensures var planned := exists s :: s in inp.services && s.name == c.service;
            FateOf(inp, c) == Goes <==>
            && SameProject(inp, c.project) && !c.oneOff && c.service != ""
            && (planned ==>
                  || inp.plan.None? || inp.plan.value.forceRecreate
                  || (&& !inp.plan.value.noRecreate && c.configHash != "" && c.service in inp.plan.value.configHashes
                      && inp.plan.value.configHashes[c.service] != c.configHash))
            && (!planned ==> inp.plan.Some? && inp.plan.value.removeOrphans)
    ensures var planned := exists s :: s in inp.services && s.name == c.service;
            FateOf(inp, c) == Remains <==>
            && (c.labelled || c.project != "" || c.service != "")
            && (SameProject(inp, c.project) && !c.oneOff ==>
                  && c.service != ""
                  && (planned ==>
                        && inp.plan.Some? && !inp.plan.value.forceRecreate
                        && (|| inp.plan.value.noRecreate
                            || (&& c.configHash != "" && c.service in inp.plan.value.configHashes
                                && inp.plan.value.configHashes[c.service] == c.configHash)))
                  && (!planned ==> inp.plan.None? || !inp.plan.value.removeOrphans))
  {}

  /** Its configuration is known to be the planned one. */
  predicate Unchanged(inp: Input, c: Container) {
    inp.plan.Some? && c.configHash != "" && c.service in inp.plan.value.configHashes &&
    inp.plan.value.configHashes[c.service] == c.configHash
  }

  /** If it is not up, the run may start it as it is. */
  predicate MayBeStarted(inp: Input, c: Container) {
    FateOf(inp, c) == Undecided ||
    (FateOf(inp, c) == Remains && SameProject(inp, c.project) && !c.oneOff && PlannedService(inp, c.service))
  }

  /** The run keeps every container of a planned service, and one of those may be among the
      containers that could not be told to be of a service, or that were not listed. */
  predicate MayKeepUnseen(inp: Input) {
    inp.plan.Some? && inp.plan.value.noRecreate && !inp.plan.value.forceRecreate &&
    (!EngineListed(inp, CONTAINERS) ||
     exists c :: c in inp.containers && FateOf(inp, c) == Undecided && c.service == "")
  }

  /** `released` never misses a container that goes, and it is right about one it names
      exactly when that is no planned container the run keeps or may keep, no container
      without a service, and no orphan of another checkout that nobody asked to remove. */
  lemma ReleasedIsRightExactlyWhen(inp: Input, c: Container)
    ensures FateOf(inp, c) == Goes ==> Released(inp, c)
    ensures Released(inp, c) ==>
              (FateOf(inp, c) == Goes <==>
               c.service != "" &&
               if PlannedService(inp, c.service) then ComposeAction(inp, c) in {Replaced, ForceRecreated, Changed}
               else RemovesOrphans(inp))
    ensures !c.oneOff && SameProject(inp, c.project) && c.service != "" && !DifferentDirectory(inp, c.workingDir) ==>
              FateOf(inp, c) == FateUnder(OwnerOf(inp, c).action)
  {}
}
