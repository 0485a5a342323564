# What a pre-deployment audit may conclude

The program audits a host before a deployment: which installed packages have known
flaws, what a Compose plan will start, and what on the host is in its way. Its
collectors read the host; its engines decide. This project models the engines and
proves what their answers mean.

| file | what it models |
|---|---|
| `Text`, `Ordering`, `Decimal` | strings as the Go standard library treats them; comparators, padded lexicographic order, stable sorting; digit strings of any length as the numbers they write |
| `DebianVersion`, `RpmVersion`, `GenericVersion`, `VersionTokens` | the three version comparators, each loop proved against one order on token lists |
| `Osv`, `Offline`, `Merger` | OSV ranges and records, the in-memory index of an offline dataset, the table the feeds are folded into |
| `Interpolate`, `PortSpec` | the two text front ends: Compose interpolation and the short port syntax, each a parser and a printer proved inverse |
| `PortMatch`, `Findings`, `Ownership`, `PortRules`, `PortConflicts`, `Subnets` | whether two bindings collide when part of the host is unknown, what the port rules conclude from that, overlapping subnets |
| `PortWorlds`, `HostWorlds` | those conclusions against every host and every run that agrees with what was read: when a blocker, a clear or a free port is right |
| `Outcomes` | one outcome per rule over any rule list |
| `Allowlist`, `ComposeArgs`, `ServiceSelection` | the published command list against the command the tool generates; the dependency closure of a planned run |
| `Score` | scoring a bench run, comparing two runs, gating a release |

A loop of the source is a method with invariants; a function beside it says what it
computes; lemmas say what that is worth. Where a loop body is long, its parts are
methods of their own. What a function computes is stated once more on its input as it is
written: characters by their codes, texts by their parts, records by their fields. Classes
stand for the objects the source updates in place.
`hide` statements keep definitions a proof does not need out of it.

Strings are sequences of characters U+0000 to U+00FF, one per byte. Parsers that are not
part of this model (`net.ParseIP`, `net.ParseCIDR`, `filepath.Clean`) are parameters,
arbitrary except that an address is within its family and a prefix is masked.

## Where the code and its promise part

Each of these is proved as it is in the code, with the condition under which the promise
holds.

- `verrevcmp` never returns on some strings with a NUL: exactly when what precedes the
  NULs compares equal (`DebianVersion.VerRevCmpWithin`); a version against itself with a
  NUL behind it is such a pair (`DebianVersion.NulNeverReturns`).
- `compareInt` is not antisymmetric on what is not decimal; `Decimal.CompareIntFlipsExactlyWhen`
  says when it is.
- `CompareRPM` ties are not transitive, because a missing release equals any; a tie passes
  through a version exactly when that version carries a release or there is nothing to tell
  apart (`RpmVersion.TieIsTransitiveExactlyWhen`). "Strictly below" is transitive all the same.
- `matchRange` on an ordered, alternating list can still lose a version: `last_affected: v`
  followed later by `fixed: v` drops v, which the first interval includes
  (`Osv.SharedEndDropsAVersion`). `Osv.WalkIsUnion` states membership exactly, on every
  ordered list, alternating or not, and `Osv.WalkIsUnionUnlessOvertaken` on any list at all.
- On an rpm host a list that names some versions with a release and some without can lose a
  version where no end is shared (`Offline.MixedReleasesDropAVersion`). It can do so only
  between two closings of the installed epoch and version
  (`Offline.RpmRangesWithAnyReleases`), and not when no named version has a release
  (`Offline.RpmRangesWithoutReleases`) or all have one (`Offline.RpmRanges`).
- `index` skips packages without a name, so a record that matches an empty package name is
  found by a scan and not through the index (`Offline.FilteringIsLossless`). Of the package
  lists only the dpkg one would take an entry without a name.
- "The planned run releases it" rests on a flag that never misses a container `up` stops, and
  names some it does not stop or may not: planned containers that are kept, by `--no-recreate`
  or because nothing changed, those whose configuration could not be compared, and orphans of
  another checkout nobody asked to remove (`Ownership.ReleasedIsRightExactlyWhen`). Compose
  tells its containers apart by project and service alone, whatever directory they came from.
- A blocker on a publication is right, whatever was not read, exactly when the run surely
  starts the service and one of the holders it cites surely stays: a container that is up and
  that the run leaves alone, or a socket that no container the run may stop can account for
  (`PortWorlds.BlockerIsRightExactlyWhen`, `PortWorlds.RangeBlockerIsRightExactlyWhen`). It is
  false for a container that has exited (`PortWorlds.ExitedContainerBlocks`) and for a
  service whose running container is kept (`PortWorlds.KeptServiceBlocks`), and it may be for
  the socket of a predecessor on the host's network (`PortWorlds.HostPredecessorBlocks`) and
  for a container without labels (`PortWorlds.UnlabelledContainerBlocks`). On an ordinary run,
  with every container listed, up and of known fate, the flag right and nothing that goes on the
  host's network, no blocker is false (`PortWorlds.OrdinaryRunIsJudgedRight`).
- "Nothing is blocked" can be false. The rule clears a binding as soon as a container it calls
  released may be on it. The clear can be true exactly when the run may not start the service
  or no certain holder surely stays, and is true whatever was not read exactly when the run
  does not start it, or no holder may stay and no other service of the plan may bind first
  (`PortWorlds.ClearIsRightExactlyWhen`, and `PortWorlds.FreeIsRightExactlyWhen` for the change
  list). It is false where the container of one service is kept and the plan gives its port to
  another (`PortWorlds.KeptNeighbourIsCleared`), for an orphan of another checkout
  (`PortWorlds.OrphanElsewhereIsCleared`), and beside another process on a second address
  (`PortWorlds.StrayBesideOwnIsCleared`). A false clear is the only way a
  certain failure goes without a blocker: it is never passed over nor left open
  (`PortWorlds.CertainFailureIsAnswered`). The plan is not held against itself: two services
  that publish one port are both free to have it (`PortWorlds.PlanAgainstItselfIsFree`).
- The blocker on a host-network service says the port is "taken whatever address the
  application binds". Of what is left after the run's stops, that is right exactly when one
  claim surely is on all of IPv4 and one on all of IPv6, which a host without IPv6 does not
  need (`HostWorlds.HostBlockerIsRightExactlyWhen`, for fewer claims on the host than there
  are IPv4 addresses; `HostWorlds.HostSentenceExactly` for any number). The code asks for any
  wildcard before the stops. The sentence is false for `0.0.0.0` alone on a host with IPv6
  (`HostWorlds.ZeroAddressAlone`), for an IPv6-only `::` on a host whose IPv6 was not read
  (`HostWorlds.BlockerOnAPossibleOverlap`), for the socket of a container the run stops
  (`HostWorlds.StoppedContainerBlocks`) and for that of the service's own predecessor from
  another directory (`HostWorlds.PreviousElsewhereBlocks`).
- The change list calls a port of an unobservable protocol free where the finding asks for a
  manual check (`PortRules.UnobservableDisagrees`); on tcp and udp the two agree.
- `fixOutcome` leaves a blocker that concludes "no problem" at warning
  (`Outcomes.FixedSeverity`); a second pass would finish it.
- A rule whose own verdict is "problem", with no finding that shows one, has a result no
  finding states (`Outcomes.UnsettledIsStatedExactlyWhen`).
- The merge key of a vulnerability joins package and identifier with `|`. Beyond equality up
  to case, two rows share a key exactly when one package is the other followed by a bar and a
  text that the other row's identifier starts with (`Merger.KeyIdentifies`). The distributions'
  naming rules exclude a bar; the readers of debsecan, updateinfo and arch-audit take package
  names as they come, zypper's table is split at its bars and cannot deliver one, and OSV rows
  carry the installed package's name (`app/pkgmgr/apt.go:105`, `app/pkgmgr/dnf.go:166`,
  `app/pkgmgr/pacman.go:158`, `app/pkgmgr/zypper.go:97`).
- The greedy option matcher is exact where the literal after `<options>` is no flag itself
  (`Allowlist.GreedyIsExact`), as in all published entries. Where it is one, the matcher is
  exact if and only if nothing can follow that literal (`Allowlist.FlagAfterOptionsIsExactWhen`).

Two slips of single functions are out of reach. `dynamicRange` would report a range from port
0 as entirely taken (`PortRules.EmptyRangeReadsAsTaken`), but no reader of publications yields
one (`PortSpec.ReadRangesStartAtAPort`). `sameProject` would take any two names without a
legal character for one project (`Ownership.IllegalNamesAreOneProject`), but the audited name
is never one of them (`Ownership.AuditedNameIsLegal`).

## Model

| member | source | states |
|---|---|---|
| Ordering.LexTransitive | app/pkgmgr/version.go:278-319 | padded lexicographic comparison over a total preorder is transitive; all three comparators are one |
| Ordering.StableSortIsStable | app/witness/preflight.go:253-267 | the sort every report uses yields the sorted list and leaves every group of ties in its order |
| Decimal.OnlyZerosAreCut | app/pkgmgr/version.go:376-378 | what is cut before the comparison is leading zeros and nothing else |
| Decimal.CompareTrimmedIsByValue | app/pkgmgr/version.go:382-388 | with the zeros cut, length then bytes is the order of the numbers written, at any length |
| Decimal.CompareIntIsByValue | app/pkgmgr/version.go:376-389 | on decimal strings, spaces around them allowed and empty read as 0, compareInt compares the numbers |
| Decimal.CompareIntFlipsExactlyWhen | app/pkgmgr/version.go:376-389 | swapping the arguments flips the answer if and only if both or neither are decimal, or their lengths place them as their bytes do |
| Decimal.CompareIntMayNotFlip | app/pkgmgr/version.go:379-387 | a number and a shorter word that starts above it are each above the other |
| DebianVersion.SkipZeros | app/pkgmgr/version.go:95-100 | leading zeros are skipped without changing where the number ends or what it is worth |
| DebianVersion.ReadDigits | app/pkgmgr/version.go:101-107 | reads both numbers in lockstep to the end of the shorter; the first difference has the sign of the numbers read |
| DebianVersion.CompareNumbers | app/pkgmgr/version.go:95-116 | decides two numbers by value, whatever their length and zeros; on a tie both are consumed whole |
| DebianVersion.CompareText | app/pkgmgr/version.go:87-94 | a difference of weights decides the whole comparison; otherwise what is left to compare gives the same answer and starts at numbers or at an end |
| DebianVersion.ComparePass | app/pkgmgr/version.go:84-117 | one pass answers the comparison or moves on without changing it, and stands still only with both sides at a NUL or at their end |
| DebianVersion.VerRevCmpWithin | app/pkgmgr/version.go:74-119 | a run cut off after any number of passes answers only with the sign of the key comparison; with more passes than characters it answers if and only if the comparison halts |
| DebianVersion.VerRevCmp | app/pkgmgr/version.go:74-119 | wherever it returns, verrevcmp has the sign of comparing weight-and-number sequences, padded with zeros, of what precedes the first NULs; what those sequences say of the texts is in `CharactersDecide`, `ValuesDecide` and `WhatFollowsDecides` |
| DebianVersion.NulNeverReturns | app/pkgmgr/version.go:84-117 | a version against itself with a NUL and anything behind it never gets an answer |
| DebianVersion.WeightsAreOrdered | app/pkgmgr/version.go:57-72 | tilde before the end, the end before letters, letters before all other characters |
| DebianVersion.WeightsAreDistinct | app/pkgmgr/version.go:59-72 | no two characters outside numbers share a weight |
| DebianVersion.CommonBeginning | app/pkgmgr/version.go:74-119 | what two versions begin with alike does not matter, unless a number goes on past it on one side |
| DebianVersion.WhatFollowsDecides | app/pkgmgr/version.go:29-31 | u followed by a tilde and anything is below u; followed by any other character outside numbers, above |
| DebianVersion.CharactersDecide | app/pkgmgr/version.go:57-93 | after any common beginning and whatever follows, two differing characters outside numbers decide: the tilde first, then letters by their bytes, then all other characters by theirs |
| DebianVersion.ValuesDecide | app/pkgmgr/version.go:95-116 | after any common beginning, two numbers decide by value; of equal value, whatever their zeros, what follows decides |
| DebianVersion.NumberAgainstCharacter | app/pkgmgr/version.go:57-93 | a character where the other version has a number puts its version above, the tilde below |
| DebianVersion.PartsAreFound | app/pkgmgr/version.go:45-55 | epoch, upstream version and revision are found where they were put, for any upstream version, colons and hyphens included |
| DebianVersion.UpstreamAlone | app/pkgmgr/version.go:45-55 | without a colon and a hyphen the epoch is 0, everything is the upstream version and the revision is empty; white space around is no part of it |
| DebianVersion.PartsDecide | app/pkgmgr/version.go:32-43 | of two versions written as epoch:upstream-revision the larger epoch number wins, then the upstream version, then the revision |
| DebianVersion.CompareDebian | app/pkgmgr/version.go:32-55 | epoch, then upstream version, then revision, as -1, 0 or 1, as `PartsDecide` and the rows around it state them |
| DebianVersion.NulFreeHalts | app/pkgmgr/version.go:74-119 | on strings without a NUL every comparison CompareDebian makes returns |
| DebianVersion.DebianIsPreorder | app/pkgmgr/version.go:32-43 | antisymmetric in sign and transitive on all versions with a decimal or absent epoch |
| VersionTokens.KindsAndValuesArePreordered | app/pkgmgr/version.go:247-259 | whatever rank the kinds of tokens have, numbers by value and words by bytes make a total preorder of them |
| RpmVersion.CompareMarkers | app/pkgmgr/version.go:180-214 | the tilde and caret branches decide as the first tokens do, or step over one equal marker on each side |
| RpmVersion.CompareSegments | app/pkgmgr/version.go:247-259 | digit runs compare by value, letter runs by bytes |
| RpmVersion.CompareRuns | app/pkgmgr/version.go:220-259 | two runs compare as the first tokens do, digits above letters; on a tie both runs end where their tokens end |
| RpmVersion.ComparePass | app/pkgmgr/version.go:170-260 | one pass answers the comparison of the token lists, or steps over one equal token on each side |
| RpmVersion.RpmVerCmp | app/pkgmgr/version.go:159-270 | equals the lexicographic comparison of the token lists with tilde below the end below caret below letters below numbers |
| RpmVersion.RpmIsPreorder | app/pkgmgr/version.go:159-270 | a total preorder on every string |
| RpmVersion.TildeIsBelow | app/pkgmgr/version.go:180-194 | u followed by a tilde and anything is below u |
| RpmVersion.CaretIsJustAbove | app/pkgmgr/version.go:195-214 | u followed by a caret and anything is above u, and below u followed by a number or a word |
| RpmVersion.CommonBeginning | app/pkgmgr/version.go:159-270 | what two versions begin with alike does not matter, unless a run goes on past it |
| RpmVersion.NumbersCompareByValue | app/pkgmgr/version.go:220-259 | after any common beginning, two numbers decide by value; of equal value, whatever their zeros, what follows decides |
| RpmVersion.WordsCompareByBytes | app/pkgmgr/version.go:220-259 | two words at one place decide by their bytes, and equal ones leave it to what follows |
| RpmVersion.NumberIsAboveWord | app/pkgmgr/version.go:238-245 | a number is above a word at the same place |
| RpmVersion.SeparatorsDoNotMatter | app/pkgmgr/version.go:171-178 | which separator stands between two runs does not matter, and where it parts no run it may as well be missing |
| RpmVersion.PartsAreFound | app/pkgmgr/version.go:142-157 | epoch, version and release are found where they were put; an epoch is kept as it is, except that an empty one and (none) are 0 |
| RpmVersion.MissingEpochIsZero | app/pkgmgr/version.go:142-157 | no epoch, an empty one and (none) are each read as 0: in front of the rest |
| RpmVersion.MissingReleaseIsEmpty | app/pkgmgr/version.go:142-157 | without a hyphen there is no release, and the epoch is kept |
| RpmVersion.PartsDecide | app/pkgmgr/version.go:124-157 | of two versions written as epoch:version-release the larger epoch number wins, then the version, then the release unless one has none |
| RpmVersion.CompareRPM | app/pkgmgr/version.go:124-157 | epoch, then version, then release, where a missing release equals any, as `PartsDecide` and the rows around it state them |
| RpmVersion.RpmOrderIsPreorder | app/pkgmgr/version.go:124-140 | a total preorder on the versions with a decimal epoch and a release |
| RpmVersion.StrictlyBelowIsTransitive | app/pkgmgr/version.go:124-140 | strictly below is transitive with or without releases |
| RpmVersion.BaseIsRefined | app/pkgmgr/version.go:128-139 | a release decides only between equal epochs and versions, and only when both carry one |
| RpmVersion.BaseIsPreorder | app/pkgmgr/version.go:124-139 | epoch and version alone are a total preorder on every version with a decimal epoch |
| RpmVersion.TieIsTransitiveExactlyWhen | app/pkgmgr/version.go:134-139 | of two ties in a row the outer two tie if and only if the middle one carries a release, or an outer one does not, or the outer releases tie |
| RpmVersion.TieIsNotTransitive | app/pkgmgr/version.go:134-139 | 1-1 ties with 1, 1 ties with 1-2, and 1-1 is below 1-2 |
| GenericVersion.Flush | app/pkgmgr/version.go:326-331 | ends the run being written without changing the segments the whole text has |
| GenericVersion.WriteChar | app/pkgmgr/version.go:333-354 | one character, of any class, keeps the written segments followed by those still to come equal to the segments of the text |
| GenericVersion.VersionSegments | app/pkgmgr/version.go:321-357 | the tildes and the maximal runs of digits or letters, in order |
| GenericVersion.CompareSegment | app/pkgmgr/version.go:293-317 | one position compares as its tokens: tilde, missing, number by value, word by bytes |
| GenericVersion.CompareGeneric | app/pkgmgr/version.go:278-319 | equals the lexicographic comparison of the segments, the shorter list continued with missing ones |
| GenericVersion.GenericIsPreorder | app/pkgmgr/version.go:278-319 | a total preorder on every string |
| GenericVersion.TildeIsBelow | app/pkgmgr/version.go:274-277 | u followed by a tilde and anything is below u |
| GenericVersion.LongerIsAbove | app/pkgmgr/version.go:308-311 | u followed by a further number or word is above u |
| GenericVersion.NumbersCompareByValue | app/pkgmgr/version.go:302-307 | after any common beginning, two numbers decide by value; of equal value what follows decides |
| GenericVersion.WordsCompareByBytes | app/pkgmgr/version.go:312-315 | two words at one place decide by their bytes |
| GenericVersion.NumberIsBelowWord | app/pkgmgr/version.go:312-315 | a number is below a word at the same place, by the bytes they start with |
| GenericVersion.SeparatorsDoNotMatter | app/pkgmgr/version.go:351-352 | which separator stands between two runs does not matter, and where it parts no run it may as well be missing |
| Osv.MatchRange | app/vuln/osv.go:109-135 | affected if and only if some opening is reached and no later closing is passed, which `OneIntervalIs` and `WalkIsUnion` state in the comparisons themselves; names the last fix of the range |
| Osv.OneIntervalIs | app/vuln/osv.go:109-135 | for any comparator: [introduced a, fixed b] affects a version if and only if a is 0 or the version is not below a, and it is below b; the same with a limit; with last_affected if it is not above b |
| Osv.LastFixedIs | app/vuln/osv.go:119-120 | the fix of a range is that of its last event that introduces nothing and names one |
| Osv.FirstFixedIs | app/vuln/osv.go:137-146 | the fix of a listed version is the first one any event of its ranges names, in order |
| Osv.WalkIsUnionUnlessOvertaken | app/vuln/osv.go:107-135 | for any comparator and any list: affected if and only if in the union and no closing the version is not past is followed by one it is past with nothing opening after it |
| Osv.WalkIsUnion | app/vuln/osv.go:107-135 | for any comparator that is a total preorder on the versions named, and any ordered list: affected if and only if the version is not below an introduced one and below the next fix or limit, or not above the next last affected one, and is not cancelled at a shared end |
| Osv.WalkIsUnionWithoutSharedEnd | app/vuln/osv.go:107-135 | where no last_affected is followed by a fixed or limit of an equal version: exactly the union of the intervals |
| Osv.SharedEndDropsAVersion | app/vuln/osv.go:109-135 | an ordered, alternating list whose union contains a version the walk drops |
| Osv.TiesMatchAlike | app/vuln/osv.go:109-135 | versions the comparator calls equal get the same answer, on any list |
| Osv.MatchesWithinOneFamily | app/vuln/osv.go:236-256 | ecosystems match if and only if both are named, the families agree up to case, and the whole names agree or one of them has no version |
| Osv.FamilyEndsAtColon | app/vuln/osv.go:258-263 | the family is what precedes the first colon, the version what follows it; without one there is no version |
| Osv.EcosystemMatchIsSymmetric | app/vuln/osv.go:242-256 | the match does not depend on which side is the host |
| Osv.Match | app/vuln/osv.go:73-105 | the fix named by the first affected entry that applies, by its version list before its ranges, GIT ranges skipped |
| Osv.FirstHitNamesTheFix | app/vuln/osv.go:80-103 | the first package that applies decides: with the first fix of its ranges where it lists the version, else with the last fix of its first range that hits |
| Osv.OnlyVersionRangesHit | app/vuln/osv.go:93-101 | a range hits if and only if it is not GIT, in any case of letters, and affects the version |
| Osv.MatchesExactlyWhen | app/vuln/osv.go:71-105 | a record applies if and only if it is not withdrawn and some package of that name up to case, in a matching ecosystem, lists the version or has a range other than GIT that affects it |
| Offline.OfflineDB.constructor | app/vuln/offline.go:17-25 | starts empty, with the count of indexed records equal to the length of all buckets |
| Offline.OfflineDB.Index | app/vuln/offline.go:169-190 | appends the record once to exactly the buckets of the names it is kept for, changes no other bucket, and keeps the count equal to the length of all buckets |
| Offline.OfflineDB.Load | app/vuln/offline.go:159-190 | after any records, every bucket is the subsequence kept for its name, and the counts are exact |
| Offline.OfflineDB.MatchOffline | app/vuln/collect.go:121-138 | the rows of every package, in order, each looked up in its own bucket alone |
| Offline.FilteringIsLossless | app/vuln/offline.go:27-32 | matching through the loaded index gives the rows of a scan of every record, in the same order, if and only if no record matches a package without a name |
| Offline.NamelessHitOccurs | app/vuln/offline.go:176-179 | a record that lists a version of a package without a name is found by the scan alone |
| Offline.IndexScansNamed | app/vuln/offline.go:169-199 | the rows found through the index are those of a scan for the packages with a name |
| Offline.CollectOffline | app/vuln/collect.go:71-95 | the wanted names, the load and the lookups together return what a scan for the packages with a name returns, and so what the scan for all of them returns if and only if no record matches a package without a name |
| Offline.DebianRanges | app/pkgmgr/version.go:16-25 | with the dpkg order, range membership is exact for versions with decimal epochs |
| Offline.RpmRanges | app/pkgmgr/version.go:16-25 | with the rpm order, range membership is exact when the version and every named version carry a release |
| Offline.RpmRangesWithoutReleases | app/pkgmgr/version.go:134-138 | with the rpm order, range membership is exact on every ordered list written without releases, whatever release the installed version carries |
| Offline.RpmRangesWithAnyReleases | app/pkgmgr/version.go:124-140 | on every ordered list with decimal epochs: the union, except where two closings of the installed epoch and version are out of step; so the union wherever no two closings share epoch and version |
| Offline.MixedReleasesDropAVersion | app/pkgmgr/version.go:134-139 | an ordered, alternating list with and without releases, no end shared, whose union contains a version the walk drops |
| Offline.GenericRanges | app/pkgmgr/version.go:16-25 | with the fallback order, range membership is exact on every list it orders |
| Merger.KeyIdentifies | app/vuln/collect.go:208 | two rows share a key if and only if package and identifier agree up to case, or one package is the other, a bar and a text the other identifier starts with, the rest of it being the first identifier |
| Merger.PlainNamesIdentify | app/vuln/collect.go:193-208 | for package names without a bar, two rows share a key if and only if package and identifier agree up to case |
| Merger.SharedKeyIs | app/vuln/collect.go:204-208 | for package names without a bar, two rows are folded if and only if their packages and their identifiers are equal up to case |
| Merger.BarsCollide | app/vuln/collect.go:208 | with a bar in a package name, rows of different packages share a key |
| Merger.MergeTable.Add | app/vuln/collect.go:204-236 | after any sequence of rows: one item per key, in first-occurrence order, the index holding its position, each item folded from the rows of its key |
| Merger.FirstGradeWins | app/vuln/collect.go:224-229 | severity and score come from the first row of the key that grades it, else from the first row |
| Merger.FirstValueFills | app/vuln/collect.go:230-244 | each of the six filled columns is the first value any row of the key gave |
| Merger.EverySourceIsNamed | app/vuln/collect.go:218-223 | every feed that reported the flaw is named in the merged row |
| Merger.SourcesAreJoined | app/vuln/collect.go:218-223 | a further feed is named behind a plus sign, unless its name already stands somewhere in the text |
| Merger.FirstRowNames | app/vuln/collect.go:193-217 | package and identifier stay those of the first row of the key |
| Merger.SortAndFilter | app/vuln/collect.go:246-271 | the rows that are ungraded or at least the minimum, and no other, as an ordered permutation, worst first and ties in their old order |
| Merger.GradesAreListed | app/model/severity.go:27-42 | worst first: critical, high, unknown, medium, low, none |
| Merger.KeptGradesAre | app/vuln/collect.go:253-258 | which grades pass each minimum; an unknown one always does |
| Merger.TiesAreByName | app/vuln/collect.go:260-269 | rows of one grade stand by package, those of one package by identifier |
| Interpolate.ScanName | app/collect/manifest/interpolate.go:231-242 | the longest variable name the text starts with, or nothing |
| Interpolate.ClosingBrace | app/collect/manifest/interpolate.go:213-229 | the position where the nesting opened at the brace first closes, or -1 |
| Interpolate.OpenTextIsSkipped | app/collect/manifest/interpolate.go:213-229 | text that never closes the braces open before it is passed over |
| Interpolate.ClosedTextIsOpen | app/collect/manifest/interpolate.go:213-229 | what a closing brace closes is balanced, with no earlier place to close |
| Interpolate.PrintUndoesParse | app/collect/manifest/interpolate.go:104-211 | every text is the printed form of the well-formed template it is read as |
| Interpolate.ParseUndoesPrint | app/collect/manifest/interpolate.go:104-211 | a well-formed template, nested to any depth, is what its printed form is read as |
| Interpolate.SubstDenotes | app/collect/manifest/interpolate.go:104-152 | on the printed form of any well-formed template, substitution returns what the template means, and its warnings; what each operator means is stated on the text in the rows below |
| Interpolate.EscapedIsRestored | app/collect/manifest/interpolate.go:118-122 | text with every dollar sign doubled comes back as it was, whatever it contains and whatever is set |
| Interpolate.ReportedIsLeftAsWritten | app/collect/manifest/interpolate.go:21-23 | every reference reported as left in place stands byte for byte in the result as it stood in the text |
| Interpolate.DefaultsAre | app/collect/manifest/interpolate.go:165-185 | for a name, a balanced text s and anything behind: `${name:-s}` becomes the value where it is set and not empty, `${name-s}` where it is set, and otherwise what s becomes, with its warnings; here as in the rows below the value is that of the process environment, and of the .env file where that has none |
| Interpolate.AlternatesAre | app/collect/manifest/interpolate.go:187-197 | `${name:+s}` becomes what s becomes where the value is set and not empty, `${name+s}` where it is set, and nothing otherwise |
| Interpolate.DemandsAre | app/collect/manifest/interpolate.go:199-207 | `${name:?s}` becomes the value where it is set and not empty, `${name?s}` where it is set; otherwise it stays as written and is reported as required |
| Interpolate.ReferencesAre | app/collect/manifest/interpolate.go:135-173 | `${name}` and `$name`, with no name character behind, become the value where it is set, and otherwise stay as written and are reported as unresolved |
| Interpolate.OtherTextIs | app/collect/manifest/interpolate.go:112-141 | any other character stands for itself, two dollar signs for one, a dollar sign that starts nothing for itself; an unclosed `${` stays as written to the end and is reported |
| Interpolate.OddReferencesAre | app/collect/manifest/interpolate.go:158-162 | balanced braces around what starts with no name, or around a name and an unknown operator, stay as written and are reported as such |
| Interpolate.NestedDefaultIs | app/collect/manifest/interpolate.go:213-229 | a default inside a default is found: with neither set, `${a:-${b:-s}}` becomes s |
| Interpolate.Substitute | app/collect/manifest/interpolate.go:108-152 | returns the meaning of the text and appends exactly its warnings, on every text and environment |
| Interpolate.SubstituteNext | app/collect/manifest/interpolate.go:112-150 | one turn of the loop writes the value of the piece it steps over and reports what the piece leaves |
| Interpolate.ExpandBraced | app/collect/manifest/interpolate.go:154-211 | returns the meaning of the body by its operator, recursing into the argument only where it is used, and reports what it leaves |
| PortSpec.PortMapping.HostPorts | app/model/preflight.go:270-284 | the consecutive ports from the first to the last, one when the end is below the start, none when there is no host port |
| PortSpec.ExpandPorts | app/model/preflight.go:270-284 | the appending loop yields that list |
| PortSpec.ParsePort | app/collect/manifest/ports.go:201-211 | what parses is between 1 and 65535; `PortParsesExactlyWhen` says what does |
| PortSpec.PortParsesExactlyWhen | app/collect/manifest/ports.go:201-211 | a port is read if and only if the text, trimmed, is decimal digits worth it, with a plus sign or without, and it lies between 1 and 65535 |
| PortSpec.ParsePortRange | app/collect/manifest/ports.go:176-199 | what parses is within 1 to 65535 and does not run backwards |
| PortSpec.ParseUndoesPrint | app/collect/manifest/ports.go:52-128 | every mapping in normal form is what its printed form is read as |
| PortSpec.ParsedIsNormal | app/collect/manifest/ports.go:52-128 | every successful parse is in normal form, and printing and reading it again gives the same mapping |
| PortSpec.ShortFormIs | app/collect/manifest/ports.go:52-128 | a container port or range, host and container, and address, host and container, with brackets where the address has colons: each read as that publication, on tcp |
| PortSpec.ShortFormWithProtocol | app/collect/manifest/ports.go:72-79 | the same with a protocol behind a slash, in small letters |
| PortSpec.RefusedForms | app/collect/manifest/ports.go:63-113 | an empty entry, a slash with nothing behind it, an unclosed bracket, a bracketed address with one port, and four parts without brackets are each refused for that reason |
| PortSpec.FormsAgree | app/collect/manifest/ports.go:52-172 | one publication written in the short, the long and the resolved form claims the same consecutive host ports of the same address for the same container port and protocol, and is dynamic if and only if there are several |
| PortSpec.LongPort | app/collect/manifest/ports.go:130-172 | what the long form yields names host ports from 1 on and not backwards, or none; `LongFormIs` gives every field |
| PortSpec.LongFormIs | app/collect/manifest/ports.go:130-172 | address, host ports, first target port and protocol are those written, tcp where none is, and a published text that names no ports is left out |
| PortSpec.ResolvedPort | app/collect/manifest/resolved.go:347-371 | what Compose's resolved form yields names host ports from 1 on and not backwards, or none; `ResolvedFormIs` gives every field |
| PortSpec.ResolvedFormIs | app/collect/manifest/resolved.go:347-370 | address without its brackets, host ports, target and protocol are those Compose resolved, tcp where none is named, no host port where none is published |
| PortSpec.NormalIsPublished | app/collect/manifest/ports.go:119-125 | so does what the short form yields |
| PortSpec.ReadRangesStartAtAPort | app/model/preflight.go:259-284 | a dynamic range that was read starts at 1 or above; an ephemeral publication is not dynamic and claims no host port |
| PortMatch.CollidesExactly | app/witness/portmatch.go:212-251 | for readable claims: certain if and only if the address sets meet in every completion of what is unknown, none if and only if they meet in none |
| PortMatch.CollisionIsSymmetric | app/witness/portmatch.go:212-251 | the answer does not depend on which side is wanted and which is held |
| PortMatch.LearningKeepsCertainty | app/witness/portmatch.go:158-251 | reading more of the host never changes an answer that was certain either way |
| PortMatch.ClaimsAreValid | app/witness/portmatch.go:61-106 | a claim read from a publication or a socket is readable only if its address is one, or none was named |
| PortMatch.BracketsAreIgnored | app/witness/portmatch.go:63-70 | an address claims the same with and without brackets, and is kept as written |
| PortMatch.FamilySuffixIsIgnored | app/witness/portmatch.go:108-125 | tcp6 and udp6 are tcp and udp, and observable |
| PortMatch.ProtocolIs | app/witness/portmatch.go:108-118 | a protocol is trimmed, put in small letters and loses a final 6; none is tcp |
| PortMatch.ClaimsAre | app/witness/portmatch.go:61-106 | every field of the claim a publication or a socket makes, by the address it names, names none, or names as * |
| PortMatch.PairsCollide | app/witness/portmatch.go:158-251 | address by address: equal ones, the IPv4 and IPv6 wildcards and no address against each other, with what IPv6-only and the host's IPv6 settle |
| PortMatch.SocketOnEveryAddress | app/witness/portmatch.go:82-106 | a socket on * or on no address collides for certain with every readable publication of its port and protocol, maybe with an unreadable one, and with no other |
| Findings.Capabilities.ObserveAt | app/model/preflight.go:422-433 | the new record replaces the first one of its source in place, or joins the end of the list |
| Findings.RecordAnswersForItsSource | app/model/preflight.go:435-444 | after recording, the source answers with the new record and every other source as before |
| Findings.RecordedInPlace | app/model/preflight.go:422-433 | the new record takes the place of the first of its source, or comes last |
| Findings.FirstRecordAnswers | app/model/preflight.go:435-444 | a source answers with its first record, and one without a record was not collected |
| Findings.OneRecordPerSource | app/model/preflight.go:422-433 | recording never gives a source a second record |
| Ownership.ReleasedExactlyWhen | app/witness/ownership.go:57-88 | a container is released if and only if it is of this project, no one-off run, and without a service, of a service of the plan, from another directory than the plan's, or an orphan with orphans to be removed |
| Ownership.ReleasedIsRightExactlyWhen | app/witness/ownership.go:24-109 | no container that `up` stops is missed; a released one is stopped if and only if it has a service and is planned and replaced, recreated or changed, or unplanned and orphans are removed; elsewhere the stated action is what `up` does |
| Ownership.FateExactlyWhen | app/witness/ownership.go:90-119 | when `up` stops a container and when it leaves it, by the flags, the service, the one-off label and the two configuration hashes |
| Ownership.OwnKindsExactlyWhen | app/witness/ownership.go:57-86 | each kind, by the labels, the directories and the plan: one-off run before other checkout before orphan before service; renamed, unmanaged and unlabelled for what is not of the project |
| Ownership.NormalisedTwice | app/witness/preflight.go:372-385 | normalising a project name twice is normalising it once |
| Ownership.SameProjectExactlyWhen | app/witness/preflight.go:362-385 | two names are of one project if and only if both are given and normalise alike; `NormalisedIs` and `ProjectNamesAreCompared` say what that comes to |
| Ownership.NormalisedIs | app/witness/preflight.go:372-385 | character by character: a to z, 0 to 9, underscore and hyphen stay, capitals become small letters, every other character goes |
| Ownership.ProjectNamesAreCompared | app/witness/preflight.go:362-385 | two names of small letters, digits, underscores and hyphens are of one project if and only if they are equal and not empty |
| Ownership.IllegalNamesAreOneProject | app/witness/preflight.go:365-385 | any two names without a legal character are taken for one project |
| Ownership.AuditedNameIsLegal | app/audit/plan.go:251-308 | whatever the flag, the environment, the file or the directory says, the audited project name has legal characters only, as the names Compose returns do |
| Ownership.AuditedProjectExactlyWhen | app/audit/witness.go:162-171 | for an audited name, a container is of the project if and only if its label normalises to it, so no label without a legal character is |
| PortRules.StrongestBinding | app/witness/conflicts.rules.go:74-84 | the strongest overlap over every host port of every publication of a container |
| PortRules.PortHolders | app/witness/conflicts.rules.go:67-101 | the containers, then the sockets, that overlap the wanted binding, each with its strongest overlap, in their order |
| PortRules.OwnHolder | app/witness/conflicts.rules.go:415-426 | a released container among the holders, if there is one |
| PortRules.FirstOwnHolder | app/witness/conflicts.rules.go:415-426 | it is the first of them |
| PortRules.ContainersComeFirst | app/witness/conflicts.rules.go:67-101 | no socket stands before a container |
| PortRules.CertainHolders | app/witness/conflicts.rules.go:443-451 | exactly the holders whose overlap is certain |
| PortRules.SilentExactlyWhen | app/witness/conflicts.rules.go:46-48 | no holder if and only if no container port and no socket meets the binding in any completion |
| PortRules.VerdictExactly | app/witness/conflicts.rules.go:103-212 | problem if and only if an unreleased container holds the binding in every completion, or a socket does while no released container may and the containers were listed in full; no problem if and only if a released container may hold it and no unreleased one certainly does; unknown otherwise; the severity that goes with each, and the holders cited: the certain ones where there are any, else all, and for no problem the released one |
| PortRules.StateAgreesWithFinding | app/witness/changes.go:338-367 | for tcp and udp the change list says taken, maybe taken, free or unchecked if and only if the finding is problem, unknown, no problem or nothing |
| PortRules.StateExactly | app/witness/changes.go:342-367 | each state of a port, in terms of what holds it in every completion and in some |
| PortRules.UnobservableDisagrees | app/witness/changes.go:343-346 | on any protocol but tcp and udp the list says free, and the finding, for a port or a range, asks for a manual check as a warning |
| PortRules.JudgeRange | app/witness/conflicts.rules.go:223-233 | stops if and only if some port is free, else says whether every one is taken |
| PortRules.DynamicRange | app/witness/conflicts.rules.go:214-263 | silent, a problem or unknown as the states of its ports have it |
| PortRules.DynamicExactly | app/witness/conflicts.rules.go:214-263 | from a host port of at least 1: silent if and only if some port of the range is free, a blocker if and only if every one is taken, else an unknown as a warning, for the first port of the range |
| PortRules.ReadRangeExactly | app/witness/conflicts.rules.go:214-263 | so judged is every dynamic range that was read |
| PortRules.EmptyRangeReadsAsTaken | app/witness/conflicts.rules.go:243-250 | a range from port 0 has no port and is reported as entirely taken |
| PortConflicts.HostNetworkPorts | app/witness/conflicts.rules.go:272-367 | one finding per declared observable port that a socket may hold, a blocker for a wildcard socket with no previous container of the service running |
| PortConflicts.ListensOnExactly | app/witness/conflicts.rules.go:278-293 | the declared ports are exactly the container ports of the publications, from the first to the end of their ranges where that lies behind it, and the exposed ones on tcp |
| PortConflicts.PreviousIsRunning | app/witness/conflicts.rules.go:369-380 | the previous container is a running one of this service that the plan releases; where such containers have names, none is reported if and only if there is none |
| PortConflicts.RunningOwnExactlyWhen | app/witness/conflicts.rules.go:369-380 | such a container has the service's label, is running, of this project, no one-off run, from no other directory, and of a service of the plan where it has one |
| PortConflicts.HostFindingExactly | app/witness/conflicts.rules.go:308-364 | nothing if and only if no socket meets the port in any completion; a blocker if and only if one that may is a wildcard and no previous container is running; otherwise unknown, as a warning; for that service, port and protocol |
| PortConflicts.UndeclaredIsAnswered | app/witness/conflicts.rules.go:295-306 | a host-network service that declares no port is left to the reader by one finding, and only then |
| PortConflicts.CheckFixed | app/witness/conflicts.rules.go:40-50 | at most one finding per published host port, in order |
| PortConflicts.CheckPorts | app/witness/conflicts.rules.go:17-55 | the findings of every service in order, by the host-network, dynamic-range or fixed-port branch; the rows around say when each of them is given |
| PortConflicts.WhatBlockersRestOn | app/witness/conflicts.rules.go:17-55 | over any plan and host: every problem finding rests on a publication whose every port meets the rule's conditions for one, or on a wildcard socket that may be on the port of a host-network service with no previous container running |
| PortConflicts.NothingIsMissed | app/witness/conflicts.rules.go:17-55 | whatever may hold a fixed tcp or udp port is answered by a finding; it is a problem if and only if an unreleased container certainly holds the port, or a socket does while no released container may and the containers were listed |
| PortConflicts.NothingIsMissedOnHost | app/witness/conflicts.rules.go:23-32 | for any service on the host network, whatever socket may hold a declared tcp or udp port is answered by a finding |
| PortConflicts.EphemeralIsSilent | app/witness/changes.go:107-114 | a publication that leaves the host port to the engine is never reported as a conflict |
| PortWorlds.SurelyBlockedExactly | app/witness/conflicts.rules.go:67-101 | the binding fails on every host and run that agree with what was read if and only if the run surely starts the service and one of the certain holders surely stays |
| PortWorlds.MayBeBlockedExactly | app/witness/conflicts.rules.go:67-101 | it fails on some such host and run if and only if the run may start the service and some holder may stay or another planned service may bind first |
| PortWorlds.BlockerIsRightExactlyWhen | app/witness/conflicts.rules.go:149-165 | a problem finding is right whatever was not read if and only if the run surely starts the service and a holder it cites surely stays; it can be right if and only if the run may start the service and some holder may stay or another planned service may bind first |
| PortWorlds.RangeBlockerIsRightExactlyWhen | app/witness/conflicts.rules.go:243-250 | "every port is in use" is right whatever was not read if and only if the run surely starts the service and each port of the range has a certain holder that surely stays |
| PortWorlds.ClearIsRightExactlyWhen | app/witness/conflicts.rules.go:167-186 | "nothing is blocked" can be true if and only if the run may not start the service or no certain holder surely stays; it is true whatever was not read if and only if the run does not start the service, or no holder may stay and no other planned service may bind first |
| PortWorlds.FreeIsRightExactlyWhen | app/witness/changes.go:338-363 | the same of a port the change list calls free, on tcp and udp |
| PortWorlds.CertainFailureIsAnswered | app/witness/conflicts.rules.go:40-50 | a binding that surely fails is never passed over and never left open; it is cleared if and only if a released container may hold it and no unreleased one surely does, and a problem otherwise |
| PortWorlds.OrdinaryRunIsJudgedRight | app/witness/conflicts.rules.go:117-186 | with every container listed, up and of known fate, the released flag right and nothing that goes on the host's network: no blocker is false, and a clear is if and only if a stray socket surely has the binding |
| PortWorlds.ExitedContainerBlocks | app/witness/conflicts.rules.go:74-88 | an unreleased container that has exited is a blocker, and the binding does not surely fail; with no other service planned it fails on no host |
| PortWorlds.HostPredecessorBlocks | app/witness/conflicts.rules.go:149-160 | the socket of a predecessor on the host's network is a blocker although it may go with it |
| PortWorlds.UnlabelledContainerBlocks | app/witness/ownership.go:57-60 | a container without labels is a blocker although it may be the service's own |
| PortWorlds.KeptServiceBlocks | app/witness/ownership.go:95-106 | for a service whose running container the run keeps, an unreleased container on a port the plan now asks for is a blocker although nothing is bound |
| PortWorlds.KeptNeighbourIsCleared | app/witness/ownership.go:83-99 | with --no-recreate, a running container of one planned service on a port the plan gives to another: no problem, free, and the binding surely fails |
| PortWorlds.OrphanElsewhereIsCleared | app/witness/ownership.go:24-31 | an orphan of another checkout, not to be removed: no problem, free, and the binding surely fails; from the plan's own directory it is not released |
| PortWorlds.StrayBesideOwnIsCleared | app/witness/conflicts.rules.go:119-186 | a plan on every address, the old container on one and another process on a second: no problem, free, and the binding surely fails |
| PortWorlds.PlanAgainstItselfIsFree | app/witness/conflicts.rules.go:26-50 | on an empty host two services that publish one port get no finding and a free port, and each may be blocked |
| HostWorlds.HostSentenceExactly | app/witness/conflicts.rules.go:338-350 | after the run's stops, the port is taken whatever address the application binds if and only if each family the host may have is covered by what surely is left, by a wildcard or by claims on every one of its addresses |
| HostWorlds.NamingTakesClaims | app/witness/conflicts.rules.go:316-321 | naming n addresses of a family takes n claims |
| HostWorlds.HostBlockerIsRightExactlyWhen | app/witness/conflicts.rules.go:338-350 | with fewer claims on the host than IPv4 addresses, the blocker's sentence is right if and only if, of what surely is left on the port, one claim is on all of IPv4 and one on all of IPv6 or the host has no IPv6; the application surely fails if and only if it surely is started as well |
| HostWorlds.ZeroAddressAlone | app/witness/conflicts.rules.go:331-350 | 0.0.0.0 alone is a blocker, right if and only if the host has no IPv6 |
| HostWorlds.BlockerOnAPossibleOverlap | app/witness/conflicts.rules.go:331-350 | an IPv6-only wildcard on a host whose IPv6 was not read is a blocker on an overlap that is only possible, and its sentence is false |
| HostWorlds.StoppedContainerBlocks | app/witness/conflicts.rules.go:337-350 | the socket of a container of another service that the run stops is a blocker, and nothing on the host is left to hold any address; a publication of the same port is cleared |
| HostWorlds.PreviousElsewhereBlocks | app/witness/conflicts.rules.go:369-380 | the service's own running predecessor from another directory is no previous container to the rule, so its socket is a blocker, and the sentence is false |
| Subnets.OverlapIsSharedAddress | app/witness/conflicts.rules.go:1058-1063 | two masked prefixes overlap if and only if their ranges share an address, for both address widths |
| Subnets.SizesAre | app/witness/conflicts.rules.go:1058-1063 | a prefix that fixes all 32 or 128 bits is one address, each bit fewer doubles it, and none fixed is every address of the family |
| Subnets.SubnetOverlaps | app/witness/conflicts.rules.go:1007-1056 | the nested loops list the overlapping pairs in plan order, networks of the project itself skipped |
| Subnets.ReportedExactlyWhen | app/witness/conflicts.rules.go:1007-1056 | a pair is reported if and only if a planned subnet and a subnet of a network outside the project share an address |
| Outcomes.FixedSeverity | app/witness/outcomes.go:51-72 | a finding that says nothing is a problem, or none where it is info; only a problem stays a blocker, any other blocker becomes a warning, and nothing but outcome and severity changes; a clear outcome above info remains if and only if the finding came as a blocker, and then as a warning; a correction is reported if and only if the severity changed |
| Outcomes.FixedTwiceIsSettled | app/witness/outcomes.go:51-72 | a second correction brings every clear outcome to info and a third changes nothing |
| Outcomes.Conclude | app/witness/outcomes.go:74-118 | the lowest-ranked outcome over verdict and findings, the exact count, and a stated unknown or manual check if and only if no finding states it |
| Outcomes.OutcomeIsMostUrgent | app/witness/outcomes.go:83-91 | that outcome occurs among the verdict and the findings and none of them ranks below it |
| Outcomes.SettledExactlyWhen | app/witness/outcomes.go:83-91 | a result is open if and only if the verdict or some finding is, and a problem if and only if one of them is |
| Outcomes.MostUrgentIs | app/witness/outcomes.go:83-91 | each outcome of a result if and only if verdict or findings say it and nothing before it in the order problem, unknown, manual check, no problem, not applicable |
| Outcomes.UnsettledIsStatedExactlyWhen | app/witness/outcomes.go:74-97 | a problem, unknown or manual-check result is stated by a finding if and only if it is not a verdict of problem that no finding shows |
| Outcomes.VerdictIsPublished | app/witness/outcomes.go:77-97 | a rule without an assessment that finds nothing found no problem; an assessment of unknown or manual check becomes a last finding, info and number 1000, if and only if none says it |
| Outcomes.OneFindingIs | app/witness/preflight.go:205-222 | a finding is dropped without evidence, else published under the rule's name where it has none, and counted as corrected if and only if its severity changed |
| Outcomes.PublishRule | app/witness/preflight.go:205-222 | the findings with evidence, named and corrected, in order, with exact counts of those dropped and corrected |
| Outcomes.Evaluate | app/witness/preflight.go:194-248 | over any rule list: one result per rule in order, the sorted findings, the counts |
| Outcomes.FindingsAddUp | app/witness/preflight.go:224-229 | the counts of the results add up to the number of findings published |
| Outcomes.RuleFindingIsSound | app/witness/preflight.go:205-229 | a published finding has evidence and an outcome, blocks only as a problem, and is above info with a clear outcome only if it came as a blocker |
| Outcomes.ReportIsSound | app/witness/preflight.go:187-267 | the report holds exactly the findings of its rules, each sound, in reading order with ties in rule order |
| Outcomes.WorstFirst | app/witness/preflight.go:250-258 | blockers, then warnings, then information; within a severity by rule, then order number, then subject |
| Allowlist.MatchPairs | app/run/allowlist.go:194-217 | takes option pairs up to the first argument that is no flag, and refuses an ill-fitting value or one pair too many |
| Allowlist.OnlyKnownKindsFit | app/run/allowlist.go:227-233 | a class nobody declared is matched by nothing |
| Allowlist.FittingIsPlain | app/run/allowlist.go:64-85 | no argument of any class contains a space, quotes, a semicolon, a backtick or a dollar sign |
| Allowlist.HostClassesAdmit | app/run/allowlist.go:68-85 | a unit, a suite, an account or an absolute path fits if and only if its length and every character, by code, are among those the pattern names |
| Allowlist.NameClassesAdmit | app/run/allowlist.go:82-85 | the same for a container, an image and a name |
| Allowlist.PlaceholdersAreRead | app/run/allowlist.go:259-267 | a kind in angle brackets is read as one argument of it, with three dots as one or more |
| Allowlist.Matches | app/run/allowlist.go:185-257 | the cursor walk decides the greedy reading of the token list |
| Allowlist.RepeatsAreBounded | app/run/allowlist.go:185-189 | a repeat takes one argument or more and option pairs any number, both up to the bound of the spec, 256 where it has none |
| Allowlist.GreedyIsExact | app/run/allowlist.go:184-257 | where a repeat stands last and the literal after the options is no flag, an argument vector is accepted if and only if it is in the language of the spec |
| Allowlist.FlagAfterOptionsIsRefused | app/run/allowlist.go:195-217 | where that literal is a flag and some argument may follow it, a vector of the language is refused |
| Allowlist.FlagAfterOptionsIsExactWhen | app/run/allowlist.go:195-217 | where that literal is a flag, whatever follows, the matcher is exact if and only if what follows admits no argument |
| Allowlist.AcceptedIsPlainOrPublished | app/run/allowlist.go:184-257 | over any spec, every argument of an accepted command is a literal of the spec, one of its flags, or free of those characters |
| ComposeArgs.ComposeConfigArgs | app/audit/plan.go:162-183 | the plan's flags in the engineer's order between the subcommand and its fixed ending |
| ComposeArgs.CommandIs | app/audit/plan.go:162-183 | the whole command word by word: each file, env file and profile behind its own flag, the name if there is one |
| ComposeArgs.FindAllowed | app/run/allowlist.go:269-281 | the first entry of the list that admits the command |
| ComposeArgs.GeneratedCommandIsAllowedExactlyWhen | app/run/commands.go:138-166 | among any other entries, the generated command is admitted if and only if every path and name of the plan fits its class and there are at most 64 flags, and by its own entry, even when a value looks like a flag |
| ComposeArgs.EntryIsExact | app/run/commands.go:151-166 | the entries with options accept exactly the language they describe |
| ServiceSelection.Close | app/audit/plan.go:326-342 | the queue ends on any graph, cyclic or not, with the closure, or with a reachable name that is not declared |
| ServiceSelection.SelectServices | app/audit/plan.go:310-354 | keeps the services of the closure in their order and lists their names sorted; an error leaves plan and manifest as they were; an empty request keeps everything |
| ServiceSelection.LastOfANameCounts | app/audit/plan.go:315-318 | of several services of one name the last is the one looked up |
| ServiceSelection.ClosureIsLeast | app/audit/plan.go:310-313 | the closure contains what was asked for, is closed under dependencies, and lies inside every set that is |
| ServiceSelection.FailsExactlyWhen | app/audit/plan.go:334-338 | the selection fails if and only if some reachable name is not a declared service |
| ServiceSelection.KeptAreWanted | app/audit/plan.go:344-351 | a service is kept if and only if its name is in the closure |
| ServiceSelection.StartedIsSorted | app/audit/plan.go:352 | the started list is the sorted permutation of the names |
| Score.Tally | bench/score/score.go:99-148 | one scenario moves the counters of its rule by exactly what it is worth |
| Score.TallyRules | bench/score/score.go:90-149 | after any run the table has exactly the rules of the run, each with the figures of its own scenarios |
| Score.ScoreRun | bench/score/score.go:86-169 | every rule once, in order, with its figures; the total is their sum and equals the figures of the run; errors, disagreements and side effects listed in order |
| Score.RulesMakeUpTheRun | bench/score/score.go:160-166 | for any way of adding with a zero that ignores order: the sum over distinct rules is the sum over the run |
| Score.RuleBalances | bench/score/score.go:119-148 | per rule, problems are detected, missed or unknown, and the other figures stay within theirs |
| Score.RuleFiguresCount | bench/score/score.go:91-118 | the figures of a rule are counts of its scenarios: all, those whose ground truth held, the ones as specified, and all said to be unknown |
| Score.ProblemFiguresCount | bench/score/score.go:119-131 | a staged problem counts as detected by a finding or a refusal, as unknown where it is not known or left to the reader, and else as missed |
| Score.CleanFiguresCount | bench/score/score.go:132-139 | on a clean host or where the rule does not apply, a finding or a refusal counts as false |
| Score.BlindFiguresCount | bench/score/score.go:140-148 | where the data do not suffice, anything definite counts as a guess |
| Score.RunBalances | bench/score/score.go:86-169 | per run the same, and every scenario is scored, a bench error or a Docker disagreement |
| Score.DefectsAreListed | bench/score/score.go:99-117 | who is listed as a bench error, a disagreement or a side effect |
| Score.Compare | bench/score/score.go:199-233 | every scenario that moved, with what was said of it then and now, and every one that went missing, in order of kind and name |
| Score.MoveIs | bench/score/score.go:206-219 | with unique ids in the baseline: a regression, a fix or a change, by whether the scenario passed and passes, written out |
| Score.ChangesAreOrdered | bench/score/score.go:225-231 | changed, fixed, new, regression, removed, and by scenario within a kind |
| Score.DifferencesHave | bench/score/score.go:199-233 | a regression is reported if and only if a scenario that passed fails, a removal if and only if a scenario is missing |
| Score.Gate | bench/score/score.go:240-279 | the reasons, in order: the first that applies to each scenario, then the regressions and removals |
| Score.ReasonIs | bench/score/score.go:249-265 | which reason one scenario gives, by a bench error, broken ground truth, side effects, a failing critical scenario or a failing regression test, in that order |
| Score.RegressionsAreReasons | bench/score/score.go:266-278 | every scenario that passed in the baseline and fails, and every one that is missing, is a reason with what was and is said of it |
| Score.GateIsEmptyExactlyWhen | bench/score/score.go:240-279 | no reason if and only if no scenario has a bench error, a broken ground truth, side effects, or fails while critical or a regression test, and, against a baseline, none regressed or went missing |
| Score.GateKeepsEveryScenario | bench/score/score.go:240-279 | with unique ids, the gate passes if and only if no scenario blocks and every baseline scenario is still there and still passes if it did |
| Score.EmptyGateMeans | bench/score/score.go:235-279 | the same with what blocking and passing are written out |
| Score.PassedOnceStaysPassed | bench/score/score.go:240-279 | over any chain of gated releases, a scenario that ever passed is in the last run and passes there |

## Left out

- DebianVersion.VerRevCmp: the size of a non-zero answer, of which only the sign is used.
- PortMatch.CollidesExactly: an unreadable address is only ever "unknown", as in the code; `PortWorlds` lets it turn out to be anything.
- PortWorlds.SurelyBlockedExactly: how the engine and Compose act is not in the code, and is taken as the code's comments have it: a publication is a socket on the address named, or on the IPv4 wildcard and, unless the host has no IPv6, the IPv6 one; a running container holds what it publishes, one that has exited, is created or dead does not, any other may; what goes is stopped before anything is bound.
- PortWorlds.MayBeBlockedExactly: what a list not read in full may have missed, addresses chosen by other host-network services of the plan, several containers or several publications of one port within one service.
- PortSpec.LongPort: the YAML kinds of its fields; a published port that does not parse is left out as in the code, its warning is not modelled.
- PortRules.PortHolders: the one claim of a container kept for the wording of the finding.
- PortConflicts.HostNetworkPorts: the finding's subject text; service, port and protocol stand for it.
- Score.Compare: the order `sort.Slice` gives to two changes of one kind and one scenario, possible only with repeated ids, is taken to be the stable one.
- Score.Gate: the wording of its reasons; what each names is kept.
- Score.ScoreRun: the list of covered situations and the wording of errors and side effects.
- Outcomes.Evaluate: a missing manifest or missing capabilities, the notes, the change list and the rollback plan.
- Outcomes.FixedSeverity: the finding is changed through a pointer in the code and returned here.
- Merger.MergeTable.Add: the item is changed through a pointer into the list in the code and replaced at its index here.
- Offline.CollectOffline: load errors, degraded results and notes, and the columns `fromEntry` derives from a record.
- ServiceSelection.Close: which undeclared name is reported first when there are several.
- Interpolate.Substitute: line numbers and wording of warnings; the walk over YAML nodes that hands scalars to it.
- PortSpec.ParsedIsNormal: `expose`, and error texts beyond their kind.
- Letter case and white space outside ASCII.
- Reading the host, running commands, files, archives, HTTP, YAML, JSON and CSV: collectors and library wrappers.
- Regular expressions other than the argument classes, redaction, CVSS scores.
- The remaining checks (names, volumes, bind paths, memory, disk, certificates, backups, domains): single comparisons; `Outcomes` takes them as arbitrary rules.
