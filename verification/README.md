# A verified model of the package manager core

The repository is a package manager built on libalpm. This project models the parts of the library that decide
what happens to a system, and proves what they promise:

- **Transactions** (`Transaction`, `TransPlan`, `TransSpec`, `TransHealth`, `TransStop`, `TransRuns`). The handle is a
  class whose methods are the calls of the transaction interface. Failures of the file system, answers of the user,
  locks and signals are parameters, which decide how each call ends. Over every sequence of calls, the local database
  changes only inside a commit, a prepared transaction is committed at most once, and every end of a commit leaves the
  outcome of a part of the plan: of the steps before the first signal or failure. A database without missing
  dependencies and conflicts stays so over a run if and only if the part of the plan that each commit carried out
  passes the checks; under the default flags that holds of every commit that nothing disturbs.
- **Preparing a transaction** (`SyncPrepare`, `RemovePrepare`, `Resolve`, `RecurseDeps`, `Deps`, `Conflicts`). The
  dependency check is exact; a cascade removes the least safe superset; recursive removal adds the largest removable
  set of orphans; a prepared synchronisation keeps dependencies, has no conflicts, and gives up only targets that are
  stuck or give way.
- **Ordering** (`DepGraph`, `DepOrder`, `SortByDeps`). The depth-first search without recursion, over vertices that are
  updated in place, permutes the targets and puts dependencies first, except where a dependency leads back.
- **The package cache** (`Probing`, `PkgHash`, `PkgHashGrow`). The open-addressing table with its deletion that moves
  entries, and its doubly linked list, answer every run of operations as a map does, up to a capacity.
- **Lists** (`AlpmList`, `ListDiff`, `PkgDiff`, `ListSeq`). Merge sort by relinking doubly linked nodes sorts, permutes
  and is stable; the difference of lists is that of multisets.
- **Versions and dependency strings** (`Version`, `VersionOrder`, `DepString`, `DepVersions`). Version comparison
  against a lexicographic order on segments, printing against parsing, with the exact conditions where the code falls
  short, and which versions the text of a dependency accepts.
- **Configuration files** (`Pacsave`, `ConfigFiles`). No upgrade loses a file that is the user's and that neither
  version of the package gets in the way of; the shift of saved versions loses one exactly in a stated situation.
- **Hooks, archives, disk space, Base64** (`Hook`, `HookMerge`, `Fgets`, `Diskspace`, `Base64`).

`Orders` and `Packages` hold what the modules share.

## Where the code does less than it seems to promise

- A string lies on a strict cycle whose other members do not end in a separator exactly if it ends in one itself
  (`VersionOrder.OrderedExactlyWithoutTrailingSeparator`); the same holds of full versions and a separator at the end of
  the version or the release (`VersionOrder.FullOrderedExactlyWhenWellEnded`). Comparison through a version is
  transitive exactly if it has no such separator and carries a release (`VersionOrder.TransitiveExactlyWithRelease`).
- A printed dependency parses back exactly when it is well formed (`DepString.ParsePrinted`); the condition differs for
  each comparator, since the parser looks for `<` first, then `>`, then `=`.
- Removing orphans after the dependency check is safe exactly when no package that stays relies on one of them
  (`RemovePrepare.OrphansSafeExactly`). Under NODEPVERSION one may: the check ignores versions while the search for
  orphans does not (`RemovePrepare.OrphanCounterexample`).
- Shifting saved files overwrites one exactly when a file moves to a slot whose own file stays, above the highest number
  found or because its rename failed (`Pacsave.Shift`). The pattern for the scan is built from the base name without
  escaping, so a base name with special characters may hide saved files (`Pacsave.UnmatchedScanLoses`). The increment
  of the largest number may wrap to 0.
- A backup file whose hash cannot be computed counts as unmodified when the old version is removed, and goes unsaved
  (`ConfigFiles.UnlinkFile`); the result on the user's files asks for readable files there, and nowhere else.
- A replacement that is interrupted between the removal of the old package and the install of the new one leaves
  packages without a dependency they had (`TransStop.ReplacementStopsUnhealthy`). So does a removal that is interrupted
  within a dependency cycle (`TransStop.CycleStopsUnhealthy`), and an upgrade whose new version cannot be installed
  (`TransStop.FailureUnhealthy`). Any end of a commit is harmless exactly if the part of the plan that was carried out
  passes the checks (`TransHealth.EndsHealthyExactly`).
- Preparing an empty transaction answers success but leaves it in the initial state; a commit that was interrupted
  between two packages still ends in the committed state. The model follows the code in both.

## Model

| member | source | states |
|---|---|---|
| AlpmList.MMerge | lib/libalpm/alpm_list.c:159-218 | relinking two doubly linked lists in place gives a well-formed list of exactly the nodes of the specified merge, left first on ties |
| AlpmList.MSort | lib/libalpm/alpm_list.c:220-243 | sorting in place gives a well-formed list of the same nodes in merge-sort order |
| AlpmList.MergeSortTheorem | lib/libalpm/alpm_list.c:210-243 | that order is sorted, a permutation of the nodes, and stable for every key |
| AlpmList.RemoveItem | lib/libalpm/alpm_list.c:245-280 | taking out any node, first, inner or last, leaves a well-formed list of the others in order, and the node's own link unchanged |
| AlpmList.Append | lib/libalpm/alpm_list.c:57-81 | one fresh node at the end, the rest unchanged and well formed |
| ListDiff.DiffSortedClass | lib/libalpm/alpm_list.c:556-597 | on sorted lists, of the elements equal to any key, as many are dropped from the left list as the right list holds |
| ListDiff.Diff | lib/libalpm/alpm_list.c:600-616 | on any lists, the sorted difference of multisets under the comparison |
| PkgDiff.DropNamed | lib/libalpm/conflict.c:210-211 | the difference by name keeps exactly the installed packages that no package of the second list shares a name with |
| Probing.HashesToHole | lib/libalpm/pkghash.c:195-222 | re-probing an entry of the run ends at the hole exactly if the hole lies between its home slot and its slot |
| Probing.PlugOk | lib/libalpm/pkghash.c:195-222 | moving such an entry into the hole keeps every other entry findable and makes a hole further on |
| Probing.PluggedOk | lib/libalpm/pkghash.c:224-297 | when no entry of the run needs the hole, every entry is findable again |
| Probing.InsertOk | lib/libalpm/pkghash.c:146-183 | filling the first free slot from the home slot keeps all entries findable |
| PkgHash.Hash.GetHashPosition | lib/libalpm/pkghash.c:78-94 | the first free slot from the home slot, wrapping around |
| PkgHash.Hash.Find | lib/libalpm/pkghash.c:311-339 | the lookup in the map of the list |
| PkgHash.Hash.MoveOneEntry | lib/libalpm/pkghash.c:195-222 | permutes the table, ends with every entry findable or with a hole nearer to the end of the run |
| PkgHash.Hash.Remove | lib/libalpm/pkghash.c:233-297 | returns the package of that name, takes it out of table, list and map, and keeps the invariant |
| PkgHash.Hash.Insert | lib/libalpm/pkghash.c:146-183 | adds a package under a new name to table, list and map, at the end or merged in by name |
| PkgHashGrow.Create | lib/libalpm/pkghash.c:49-76 | the first prime above the size inflated by the load factor, or nothing exactly if there is none |
| PkgHashGrow.Rehash | lib/libalpm/pkghash.c:97-144 | a fresh valid table over the same list with room, or no change exactly if no prime is large enough |
| PkgHashGrow.AddPkg | lib/libalpm/pkghash.c:146-193 | adds to the map unless it is full and cannot grow; then changes nothing |
| PkgHashGrow.FullIsLarge | lib/libalpm/pkghash.c:49-126 | a table that cannot grow has room for 385079 packages |
| PkgHashGrow.SortedInsertion | lib/libalpm/pkghash.c:146-193 | sorted insertion keeps the list sorted by name |
| PkgHashGrow.CheckedAdd | lib/libalpm/be_local.c:601-630 | an add that refuses a name that is there acts as on a map, and is refused for lack of room only at or above the capacity |
| PkgHashGrow.Step | lib/libalpm/pkghash.c:146-339 | each operation answers and changes as the map does; an add of a new name stores it unless the map holds 385079 packages or more |
| PkgHashGrow.Run | lib/libalpm/pkghash.c:49-339 | over every run of operations from an empty table, each answer is that of the map at that point |
| Version.Rpmvercmp | lib/libalpm/version.c:73-207 | the loop over segments computes the recursive comparison that the laws below are about |
| Version.ParseEVR | lib/libalpm/version.c:29-65 | epoch, version and release, which `ParseKeepsText` and `OneDecomposition` determine completely |
| Version.PkgVercmp | lib/libalpm/version.c:209-250 | missing versions, equal strings, and epoch before version before release |
| VersionOrder.CompareDigitsIsNumeric | lib/libalpm/version.c:145-170 | comparing digit runs without their leading zeros by length and then as text is comparing their numbers |
| VersionOrder.VerCmpAntisymmetric | lib/libalpm/version.c:73-207 | swapping any two strings negates the answer |
| VersionOrder.VerCmpIsLexicographic | lib/libalpm/version.c:73-207 | without trailing separators, the comparison is lexicographic over segments with their separators |
| VersionOrder.NumberToken | lib/libalpm/version.c:93-135 | a segment that starts with a digit is the separators before it and all digits up to the first other character |
| VersionOrder.WordToken | lib/libalpm/version.c:93-135 | a segment that starts with a letter of either case is all letters up to the first other character |
| VersionOrder.NoToken | lib/libalpm/version.c:93-98 | a string without digits and letters has no segment |
| VersionOrder.VerCmpTransitive | lib/libalpm/version.c:73-207 | without trailing separators, the comparison is transitive |
| VersionOrder.TrailingSeparatorBreaksOrder | lib/libalpm/version.c:93-98 | every string with a trailing separator lies on a cycle of three |
| VersionOrder.OrderedExactlyWithoutTrailingSeparator | lib/libalpm/version.c:93-98 | a string lies on such a cycle if and only if it ends in a separator |
| VersionOrder.ParsePrinted | lib/libalpm/version.c:29-65 | parsing undoes printing, with or without epoch and release, if and only if the parts can be told apart: a digits-only epoch, no dash in the release or, without one, in the version, and no apparent epoch where there is none |
| VersionOrder.OneDecomposition | lib/libalpm/version.c:29-65 | a text can be written as such parts in only one way |
| VersionOrder.ParseKeepsText | lib/libalpm/version.c:29-65 | any string is the parsed parts put together again, and these can be told apart |
| VersionOrder.FullVerCmpAntisymmetric | lib/libalpm/version.c:209-250 | swapping any two full versions, or missing ones, negates the answer |
| VersionOrder.FullVerCmpIsLexicographic | lib/libalpm/version.c:209-250 | if neither version nor release ends in a separator, full comparison is lexicographic over the segments of epoch, version and, if both have one, release |
| VersionOrder.FullVerCmpTransitive | lib/libalpm/version.c:209-250 | without such separators, full comparison of versions, present or missing, is transitive unless only the one between lacks a release |
| VersionOrder.FullTrailingSeparator | lib/libalpm/version.c:209-250 | every full version with a separator at the end of its version or release lies on a cycle of three with well-ended ones |
| VersionOrder.FullOrderedExactlyWhenWellEnded | lib/libalpm/version.c:209-250 | a full version lies on such a cycle if and only if its version or release ends in a separator |
| VersionOrder.TransitiveExactlyWithRelease | lib/libalpm/version.c:209-250 | comparison through a version is transitive if and only if it is missing, or has a release and neither its version nor its release ends in a separator |
| DepString.PrintParsed | lib/libalpm/deps.c:850-911 | printing undoes parsing, for every string |
| DepString.ParsePrinted | lib/libalpm/deps.c:443-508 | parsing undoes printing if and only if the dependency is well formed |
| DepVersions.TextMeans | lib/libalpm/deps.c:443-508 | the name, comparator and version that each form of a dependency text stands for |
| DepVersions.ComparatorExactly | lib/libalpm/deps.c:377-406 | a package satisfies a versioned dependency if and only if it has the name and its version is on the side that the comparator asks for, in the order on segments |
| DepVersions.ProvisionExactly | lib/libalpm/deps.c:377-435 | so does a provision with a version |
| DepVersions.UnversionedProvision | lib/libalpm/deps.c:413-435 | any other provision satisfies a dependency if and only if it has the name and no version is asked for |
| DepVersions.TextAccepts | lib/libalpm/deps.c:377-508 | from the text: "name>w" is satisfied by the newer versions and no others, "name<w" by the older ones, and so on |
| DepVersions.TextConflicts | lib/libalpm/conflict.c:143-179 | a package that declares a conflict with "name<w" conflicts exactly with the older versions of that package and with what provides one |
| Deps.FindSatisfier | lib/libalpm/deps.c:71-82 | the first package that satisfies the dependency, by name or provision, or none exactly if there is none |
| Deps.CheckDeps | lib/libalpm/deps.c:285-375 | the complaints, in order, about the packages to install and about the dependents of what changes |
| Deps.CheckDepsExact | lib/libalpm/deps.c:285-375 | there is no complaint if and only if all dependencies of new packages hold afterwards and none of an untouched package breaks |
| Deps.ComplaintsExactly | lib/libalpm/deps.c:285-375 | the complaints are exactly the dependencies, as compared, that nothing meets afterwards: of packages to install, and of those that stay if a package that goes met them, which is the first such and is named |
| RecurseDeps.SelectFrom | lib/libalpm/deps.c:534-551 | moving the dependencies of one package keeps the split of the installed packages, and leaves none of its dependencies behind |
| RecurseDeps.SelectFromCandidates | lib/libalpm/deps.c:581-583 | all packages reachable from the targets through eligible ones become candidates |
| RecurseDeps.KeepNeeded | lib/libalpm/deps.c:585-588 | no package that is kept depends on a remaining candidate, and no removable package is lost |
| RecurseDeps.AddOrphans | lib/libalpm/deps.c:564-607 | what is added to the targets is the largest set of reachable packages that nothing else depends on |
| RecurseDeps.OrphansAre | lib/libalpm/deps.c:534-607 | orphans were installed as dependencies, unless all count, and a package that only targets need is one |
| RemovePrepare.Cascade | lib/libalpm/remove.c:73-103 | the least superset of the targets whose removal breaks no dependency |
| RemovePrepare.KeepNeededOnes | lib/libalpm/remove.c:111-139 | a part of the targets whose removal breaks no dependency; what is dropped satisfies a dependency of a package that stays; nothing is dropped if nothing was complained about |
| RemovePrepare.OrphansSafe | lib/libalpm/remove.c:231-239 | it always is when versions count |
| RemovePrepare.AlwaysSafeExactly | lib/libalpm/remove.c:231-239 | it is for all removals under a setting of NODEPVERSION if and only if the flag is off |
| RemovePrepare.OrphansSafeExactly | lib/libalpm/remove.c:231-239 | adding the orphans to a safe removal is safe if and only if every dependency of a package that stays and that an orphan satisfies, as compared, is met otherwise |
| RemovePrepare.OrphanCounterexample | lib/libalpm/remove.c:231-239 | a removal for which it is not |
| RemovePrepare.CheckRemoval | lib/libalpm/remove.c:203-229 | the check and its remedies: the least safe superset, a safe part, or the complaints |
| RemovePrepare.Prepare | lib/libalpm/remove.c:186-252 | for every set of flags: what the orphans of the targets, the check and the orphans of the cascade each leave of the removal, exactly when it is safe, and the complaints otherwise |
| Conflicts.CheckConflict | lib/libalpm/conflict.c:143-179 | every conflict between the lists is listed once per pair, in the stated direction, and nothing else |
| Conflicts.InnerConflicts | lib/libalpm/conflict.c:189-197 | lists, once per pair, exactly the pairs of packages that conflict |
| Conflicts.OuterConflicts | lib/libalpm/conflict.c:202-221 | lists, once per pair, exactly the conflicts between packages and the installed ones they do not replace |
| Resolve.ResolveDep | lib/libalpm/deps.c:621-734 | the first literal satisfier in the order of the databases; else the first provider that is installed, unasked; else the only provider, unasked; else the one that the user names; never one that is ignored or excluded |
| Resolve.FindLiteral | lib/libalpm/deps.c:630-661 | the package of the name from the first usable database whose version satisfies, or none exactly if there is none |
| Resolve.FindProviders | lib/libalpm/deps.c:662-701 | all usable providers of another name in the order of the databases, or the first of them that is installed |
| Resolve.Choose | lib/libalpm/deps.c:809-815 | the first requested package that satisfies the dependency, else the first literal one of the repositories, else a provider |
| Resolve.ResolveDeps | lib/libalpm/deps.c:773-848 | on failure nothing changes; on success the target is in, one package a name, all dependencies of what was added are met, and each added package but the target meets a dependency of one before it; a package of a self-contained set, circular or not, is always resolved |
| Resolve.ResolveMissing | lib/libalpm/deps.c:801-838 | one missing dependency: nothing is added if it is met already; met afterwards on success, with all that it pulled in; success if it is obtainable |
| SyncPrepare.ResolveTargets | lib/libalpm/sync.c:385-421 | every target is among the resolved packages, itself if there is one package a name, or is set aside and stuck: it belongs to no self-contained set, and misses something that is not installed |
| SyncPrepare.AllRemovesAre | lib/libalpm/sync.c:396-402 | resolution regards as gone exactly what is to be removed and what the targets replace |
| SyncPrepare.DuplicateFilename | lib/libalpm/sync.c:453-469 | finds two packages with one file name if and only if there are two |
| SyncPrepare.MarkPulled | lib/libalpm/sync.c:472-478 | a package that was not requested is marked as a dependency, any other keeps its reason, and nothing else changes |
| SyncPrepare.Resolved | lib/libalpm/sync.c:385-487 | what resolution gives; unresolvable if and only if targets were set aside and the user does not go on without them; else a duplicate if and only if two files have one name |
| SyncPrepare.SettleOne | lib/libalpm/sync.c:504-555 | one of the pair goes and nothing else: the second if the first provides it, else the first if the second provides it; or neither does and they are irreconcilable |
| SyncPrepare.SettleInner | lib/libalpm/sync.c:500-559 | only packages that another target provides give way; the rest are free of conflicts, or two of them are irreconcilable |
| SyncPrepare.SettleOuter | lib/libalpm/sync.c:561-615 | every installed package in conflict is elected for removal, or the user keeps one and the preparation fails; only those that the user gives up are elected; what is replaced stays on the list |
| SyncPrepare.BuildRemove | lib/libalpm/sync.c:622-636 | the remove list gets every elected package once, and nothing else |
| SyncPrepare.ConflictFree | lib/libalpm/sync.c:493-636 | settled inside and outside, no new package conflicts with anything left |
| SyncPrepare.Settled | lib/libalpm/sync.c:493-636 | the conflict-free rest of the targets, the removal of everything they replace and of nothing that was not requested, replaced or given up; or the conflict that stands |
| SyncPrepare.Prepare | lib/libalpm/sync.c:385-655 | the whole preparation keeps dependencies and leaves no conflict; each requested package is in the plan, is stuck and set aside with the consent of the user, or gives way; nothing else is installed but packages from the repositories that one before them needs, as dependencies; what a package replaces is removed, and else only what the user gives up; each failure has its reason |
| DepGraph.BuildGraph | lib/libalpm/deps.c:89-144 | the vertices are the targets and the installed packages, each reached from a target, closed under dependency, the edges exactly the dependencies among them |
| SortByDeps.NextChild | lib/libalpm/deps.c:220-230 | the next child that was not entered, with the cursor past all that were |
| SortByDeps.Step | lib/libalpm/deps.c:216-248 | one step of the search keeps the stack of parents, the colours and the order of finishing, and comes nearer to the end |
| SortByDeps.FinishOk | lib/libalpm/deps.c:231-247 | a vertex that finishes follows all its dependencies but those that lead back to it |
| SortByDeps.Search | lib/libalpm/deps.c:214-248 | the search finishes every vertex once, and picks the targets in that order |
| SortByDeps.OrderTheorem | lib/libalpm/deps.c:198-264 | the picked order permutes the targets and puts dependencies first |
| SortByDeps.Sort | lib/libalpm/deps.c:198-264 | a permutation; each dependency on a target comes first unless it leads back; without cycles also through other packages; last instead of first if reversed |
| DepOrder.PickedFollows | lib/libalpm/deps.c:231-236 | picking the targets keeps the order, even where the vertices between them are not targets |
| DepOrder.AcyclicFollows | lib/libalpm/deps.c:198-264 | without cycles, every target reached through other packages comes first |
| TransSpec.RemovedLookup | lib/libalpm/remove.c:747-781 | the removals take out exactly the packages of these names |
| TransSpec.InstalledLookup | lib/libalpm/add.c:665-705 | each package is recorded under its name |
| TransSpec.OutcomeOverrides | lib/libalpm/sync.c:1320-1344 | a complete commit, name by name: new versions, no removed ones, the rest untouched |
| TransSpec.ReasonRecorded | lib/libalpm/add.c:445-491 | what is recorded of an installed package is all of it but the reason: that is a dependency or explicit if a flag says so, else that of the installed version it takes the place of, else its own |
| TransSpec.OneEnding | lib/libalpm/trans.c:190-226 | the signals that come and the packages that fail decide how the commit phase ends: only one way is possible |
| TransSpec.SomeEnding | lib/libalpm/trans.c:190-226 | and one always is |
| TransSpec.CameSoFar | lib/libalpm/sync.c:1320-1344 | from how far the removals and the installs came: the one way it ends, and that the database is the outcome of the part of the plan up to there |
| TransSpec.LeftOverIsOutcome | lib/libalpm/add.c:425-663 | what a failed install leaves is the outcome of a plan too: with both versions gone, or with the new one |
| TransHealth.PlanKeepsIfChecked | lib/libalpm/deps.c:285-375 | the dependency check on lists is what the database needs |
| TransHealth.PlanAgreesIfChecked | lib/libalpm/conflict.c:189-221 | the conflict check on lists is what the database needs |
| TransHealth.StaysHealthy | lib/libalpm/sync.c:1320-1344 | a complete commit of a checked plan keeps the database without missing dependencies and conflicts |
| TransHealth.HealthyExactly | lib/libalpm/sync.c:1320-1344 | a complete commit leaves a healthy database healthy if and only if the plan passes the checks, with versions counting |
| TransHealth.EndsHealthyExactly | lib/libalpm/trans.c:190-226 | so does any end of a commit, complete, stopped or failed, if and only if the part that was carried out passes the checks |
| TransStop.RemovalStopsHealthy | lib/libalpm/remove.c:747-781 | a removal in order can stop between any two packages and leaves a healthy database |
| TransStop.InstalledSoFarIsMet | lib/libalpm/add.c:665-705 | an install in order can stop between any two packages: what is installed has its dependencies |
| TransStop.AdditionStopsHealthy | lib/libalpm/add.c:665-705 | an install of new packages in order can stop between any two and leaves a healthy database |
| TransStop.ReplacementStopsUnhealthy | lib/libalpm/sync.c:1320-1344 | a replacement that stops half way breaks the dependency of an untouched package, though the plan is sound |
| TransStop.CycleStopsUnhealthy | lib/libalpm/remove.c:747-781 | two packages that need each other cannot be removed one after the other in either order without harm in between, though the plan is sound |
| TransStop.FailureUnhealthy | lib/libalpm/add.c:493-515 | an upgrade that fails after the old version is gone breaks the dependency of an untouched package, though the plan is sound and stops do no harm |
| TransPlan.Check | lib/libalpm/trans.c:93-129 | the plan passes the checks that the flags of the transaction leave in force, and does what was asked for; or there is a reason why not |
| TransPlan.CheckRemoval | lib/libalpm/remove.c:186-252 | a removal: the steps that the flags ask for, or the complaints of the check, without remedy in the flags |
| TransPlan.Synchronise | lib/libalpm/sync.c:385-655 | an installation: an answer to the request under the flags, or the error and its reason |
| TransPlan.ReplacedGo | lib/libalpm/sync.c:622-636 | what a package of the plan replaces is on the remove list |
| TransPlan.Order | lib/libalpm/trans.c:131-146 | the order of installs and removals, which changes no membership, with the recorded old versions |
| TransPlan.Plan | lib/libalpm/trans.c:93-149 | a plan that is ready keeps every promise that the flags leave in force, in order, and does what was asked for |
| Transaction.Handle.Init | lib/libalpm/trans.c:29-51 | a new transaction if and only if there is none and the lock can be had or is not wanted; otherwise no change |
| Transaction.Handle.AddPkg | lib/libalpm/add.c:37-98 | appends the package once, as explicitly installed, unless it is a target already, or installed in that version and only what is needed is wanted |
| Transaction.Handle.RemovePkg | lib/libalpm/remove.c:32-63 | appends the installed package once |
| Transaction.Handle.Prepare | lib/libalpm/trans.c:93-149 | only an initialized transaction with something to do becomes prepared, with a plan that does what was asked for and removes what is replaced; otherwise it stays initialized, for a stated reason |
| Transaction.Handle.Commit | lib/libalpm/trans.c:151-229 | the commit phase is entered if and only if the transaction is prepared and locked, has something to do, and loading, checks and hooks succeed; else nothing changes; the database becomes the outcome of the steps before the first signal or failure, of the whole plan if there is none; what is returned and reported in each case |
| Transaction.Handle.Execute | lib/libalpm/sync.c:1320-1344 | removals, then installs: the one ending that signals and failures decide, and its outcome |
| Transaction.Handle.RemovePackages | lib/libalpm/remove.c:747-781 | removes the packages before the first signal, all of them if none comes |
| Transaction.Handle.CommitSinglePkg | lib/libalpm/add.c:425-663 | succeeds if and only if the package can be read, extracted and recorded; then the new version is recorded, with the reason of the old one unless a flag says otherwise; on failure it is recorded all the same, or both versions are gone, depending on what failed |
| Transaction.Handle.UpgradePackages | lib/libalpm/add.c:665-705 | installs the packages before the first signal or failure, all of them if there is none |
| Transaction.Handle.SetInterrupted | lib/libalpm/trans.c:231-246 | takes effect only during a commit |
| Transaction.Handle.Release | lib/libalpm/trans.c:248-270 | ends the transaction and unlocks |
| TransRuns.Do | lib/libalpm/trans.c:29-270 | each call makes its own step of the state machine, decided by its parameters |
| TransRuns.Run | lib/libalpm/trans.c:29-270 | every sequence of calls is a run of the state machine, with a sound plan whenever prepared |
| TransRuns.OnlyCommitChanges | lib/libalpm/trans.c:151-229 | over any stretch of a run without a commit that started, the database is the same |
| TransRuns.SpentUntilReleased | lib/libalpm/trans.c:151-270 | after a commit started, the transaction stays committed or interrupted until it is released |
| TransRuns.EnteredOnce | lib/libalpm/trans.c:151-270 | between two commits that started there is a release |
| TransRuns.StepHealthyExactly | lib/libalpm/trans.c:29-270 | a call leaves a healthy database healthy if and only if what it carried out passes the checks |
| TransRuns.RunHealthyExactly | lib/libalpm/trans.c:29-270 | over every run that starts healthy, the database is healthy all along if and only if the part that each commit carried out passes the checks |
| TransRuns.HarmlessPasses | lib/libalpm/trans.c:151-229 | under the default checks a complete commit passes; without dependency cycles so do an interrupted removal and an interrupted or failed install of new packages |
| TransRuns.RunHealthy | lib/libalpm/trans.c:29-270 | a run of such commits keeps a healthy database healthy |
| TransRuns.UndisturbedRun | lib/libalpm/trans.c:29-270 | over every run in which commits have the default checks, no signal comes and no install fails, a healthy database stays healthy and each commit that starts leaves the outcome of its whole plan |
| TransRuns.StopHealthy | lib/libalpm/remove.c:747-781 | without dependency cycles, a prepared removal that is interrupted, and a prepared addition that is interrupted or fails, leave a healthy database |
| TransRuns.StoppedInstallIsMet | lib/libalpm/add.c:665-705 | without dependency cycles, a prepared install that is interrupted has the dependencies of all it installed |
| Pacsave.Scan | lib/libalpm/remove.c:365-378 | the largest number among the entries that match, or 0 |
| Pacsave.Shift | lib/libalpm/remove.c:380-400 | for any renames that fail, what every slot holds afterwards, that nothing else changes, and that a file is overwritten if and only if one moves to a slot whose own file stays |
| Pacsave.OverwritesExactly | lib/libalpm/remove.c:380-400 | without failures that is if and only if the top slot and the next one are taken |
| Pacsave.EachIsKept | lib/libalpm/remove.c:380-400 | unless one is overwritten each saved file is found again, one number higher if it was moved |
| Pacsave.UnmatchedScanLoses | lib/libalpm/remove.c:353-400 | when the pattern misses the saved files, a saved file is lost |
| Pacsave.ScanCovers | lib/libalpm/remove.c:353-378 | a scan whose pattern matches the saved files finds the largest of their numbers |
| Pacsave.ShiftPacsave | lib/libalpm/remove.c:330-409 | the shift starts at the largest number found; with such a pattern and without failing renames all saved files move up by one, none is lost, and the first slot is free |
| ConfigFiles.UnlinkFile | lib/libalpm/remove.c:424-561 | a modified backup file is saved and its earlier saved versions move up, any other file goes; it fails only where unlinking or renaming does, and leaves the file; no other file changes |
| ConfigFiles.RemoveFiles | lib/libalpm/remove.c:572-655 | of every package: it is given up if and only if a file that is to go may not be deleted; without failures all files go that are not to be skipped; no other changes; a modified file keeps its content in place or saved, a skipped one in place |
| ConfigFiles.Settle | lib/libalpm/add.c:338-392 | the three-way comparison: what is left in place and what beside it |
| ConfigFiles.ExtractSingleFile | lib/libalpm/add.c:178-400 | for every case of file on disk, packaged and original version, the contents in place and beside it; the recorded hash; that the user's file is kept; and what an error comes from |
| ConfigFiles.ExtractFiles | lib/libalpm/add.c:551-572 | of every package: no errors if nothing fails and no directory is in the way; without errors every entry is in place as the comparison decides; a user's file or its saved version is kept |
| ConfigFiles.Upgrade | lib/libalpm/add.c:493-572 | of every upgrade: each file that is the user's keeps its content, in place or saved, whichever removals and extractions fail; without failures every entry is in place |
| HookMerge.MergePartitions | lib/libalpm/hook.c:294-321 | the merge of two sorted lists splits the paths into only installed, only removed, and both, each exact |
| HookMerge.SqueezedOnce | lib/libalpm/hook.c:476-489 | of a sorted list every string is left once |
| Hook.Partition | lib/libalpm/hook.c:294-321 | the walk over two linked lists that removes nodes as it goes computes that merge |
| Hook.MatchFile | lib/libalpm/hook.c:290-321 | on any two lists: afterwards one holds what is only installed, one what is only removed, the third what is both |
| Hook.Dedup | lib/libalpm/hook.c:476-489 | the in-place removal of equal neighbours leaves each run of equal strings once |
| Hook.FeedTargets | lib/libalpm/hook.c:453-474 | what is written and what remains are together the lines, and the buffer is filled as far as there is text |
| Hook.LinesAre | lib/libalpm/hook.c:453-474 | split at newlines, the text is one line for each target, in order, if no target holds a newline |
| Fgets.SplitJoins | lib/libalpm/util.c:1213-1308 | splitting a text at its newlines loses nothing |
| Fgets.ReadBuffer.Fgets | lib/libalpm/util.c:1213-1308 | one call takes exactly the next line, across any block borders, or ends the entry, or the line is too long or the archive broken |
| Fgets.ReadAll | lib/libalpm/util.c:1213-1308 | for every division into blocks, the lines read are those of the whole text, unless a read fails or a line is too long |
| Diskspace.MatchIsDeepest | lib/libalpm/diskspace.c:190-217 | the first mount point that contains a path is the deepest one that does |
| Diskspace.ContainsExactly | lib/libalpm/diskspace.c:190-217 | a mount point contains its directory and what is below it, and nothing whose name merely starts alike |
| Diskspace.ChargesExactly | lib/libalpm/diskspace.c:219-338 | only plain files count, in whole blocks of the first mount point that contains them: removed files as they are on disk, hidden files of a package at the database |
| Diskspace.SortMounts | lib/libalpm/diskspace.c:41-47 | the mount points sorted by depth, none lost or added |
| Diskspace.Accounts.Remove | lib/libalpm/diskspace.c:219-279 | on every mount point, the blocks the removed files free |
| Diskspace.Accounts.Install | lib/libalpm/diskspace.c:281-338 | on every mount point, the blocks the installed files take |
| Diskspace.PeakBounds | lib/libalpm/diskspace.c:458-478 | the highest use is an upper bound of the use after every package, and is reached |
| Diskspace.CountTarget | lib/libalpm/diskspace.c:458-478 | the account of one package: old version out, new version in, highest use kept |
| Diskspace.SufficesExactly | lib/libalpm/diskspace.c:340-359 | the check of the highest use against the free blocks and the cushion decides whether the space suffices at every time |
| Diskspace.CheckDiskspace | lib/libalpm/diskspace.c:421-502 | passes if and only if the root has a mount point, nothing happens on a read-only one, and at every time there is space |
| Base64.DecodeUndoesEncode | lib/libalpm/base64.c:56-179 | decoding undoes encoding, for every byte sequence and with any line ends inserted |
| Base64.TablesAgree | lib/libalpm/base64.c:23-50 | both tables are those of the alphabet in section 4 of RFC 4648 |
| Base64.AcceptsExactly | lib/libalpm/base64.c:128-150 | without its line ends, a text is accepted if and only if it is characters of the alphabet and at most two padding characters after them; how many characters count |
| Base64.NeverOverflows | lib/libalpm/base64.c:120-179 | what is written fits the size that was computed, for every accepted input |
| Base64.LineEndsIgnored | lib/libalpm/base64.c:120-179 | line ends change neither acceptance nor result |
| Base64.Decode | lib/libalpm/base64.c:120-179 | which inputs are refused, the size that is asked for, the bytes written, and that nothing is written beyond them |

## Left out

- Transaction.Handle.Commit: hooks, loading and checking packages and the free-space check are modelled only as steps that succeed or stop the commit before it starts.
- Transaction.Handle.CommitSinglePkg: does not tie its failures to the file system; which package fails at which step is a parameter. The files themselves are the subject of `ConfigFiles`.
- Transaction.Handle.AddPkg: packages are values, so the same package added twice is one that is equal, not one at the same address.
- Resolve.ResolveDeps: success through packages that only provide a dependency is not promised, because the choice among several is up to the user; what a choice leads to is covered.
- Resolve.ResolveDep: the mode that asks about ignored packages, which only `alpm_find_dbs_satisfier` uses, is not modelled.
- ListDiff.DiffSortedClass: the list of what is only in the right list, which `alpm_list_diff` does not ask for, is not modelled.
- PkgHash.Hash.Insert: asks for a new name; the loaders look a name up before they add it (be_local.c:602, be_sync.c:330) and a commit removes the old version first.
- PkgHashGrow.AddPkg: asks for a new name, for the same reason.
- SyncPrepare.Prepare: the user's answers (unresolvable targets, conflicts, provider choice) are functions of the question; databases that are missing or invalid and the computation of download sizes are not modelled.
- RemovePrepare.KeepNeededOnes: which needed targets are dropped is fixed by the loop, but no greatest set is claimed, since dropping one package may make others needed.
- ConfigFiles.Upgrade: hashes are the contents themselves; a user's file is not protected from packages that ship files named like saved versions or a directory in its place; symbolic links, path length limits and the modes of files are not modelled.
- Pacsave.ShiftPacsave: patterns are arbitrary functions and slots are regular files; a directory named like a saved version is not modelled.
- PkgHashGrow.Run: exhaustion of memory is not modelled; running out of table sizes is.
- Fgets.ReadBuffer.Fgets: entries hold no NUL characters, which the original cuts lines at.
- Diskspace.CheckDiskspace: a package that is both removed and replaced frees its files twice in the account, as in the code; sizes are unbounded integers.
- The transaction's database is a map; that the hash table behaves as one is `PkgHashGrow.Run`.
- Exhaustion of memory, logging, events, progress and translations: no property depends on them.
- File conflicts between packages and the file system (lib/libalpm/conflict.c from line 241).
- System upgrade and replacer search (lib/libalpm/sync.c:40-237): they choose the targets that the model takes as given.
- Downloading, signatures and the keyring, database parsing, sandboxing.
- Parsing of hook files, package triggers and the execution of hooks.
- Splitting a package file name into name and version (`_alpm_splitname`).
- The frontend, the build scripts, and the getters and setters.
