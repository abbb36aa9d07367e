# Verified model of archfit's deterministic cores

archfit checks a repository against an architecture policy. Most of it drives other
tools; the parts modelled here decide something on their own, and other code relies on
what they promise. Each is written in the form the program has it (loops over Go maps and
slices become methods with loop invariants, objects become classes), proved against a
specification, and the specification is then related to something that does not mention
the algorithm: reachability, longest chains, the best possible schedule, the uncached tool,
a hook that reads every file again, the other run of two that differ only in what a branch wrote.

`dafny verify dfyconfig.toml` checks everything.

## The parts

| part | modules | main results |
|---|---|---|
| CI shard scheduler | `Greedy`, `ShardScheduler` | no assignment of the packages beats the script by more than 4/3 - 1/(3m), which is reached; packages are conserved; input order does not matter |
| module graph at init | `ModuleGraph`, `CycleCount`, `Layering`, `Tiers`, `StarterRules`, `Disambiguation`, `RustDiscovery`, `RenamedEdges`, `FoldedEdges`, `MixedDiscovery` | the tier of a module is its longest import chain; the cycle count is the number of large strongly connected components; an acyclic graph starts with layer-0..layer-k and no import against the order; beside modules and imports of other languages the exact condition under which it still does |
| fact cache | `KeyMaterial`, `FactStore`, `CachingRunner`, `CachedAnalysis`, `InputWalk` | any history of cached calls answers what the uncached tool answers for its version, config slice, file contents and command; the hashed bytes determine what they describe; eviction is least recently used first, minimal, and restores the cap; an input list is complete or a sentinel |
| agent session hooks | `HookSession`, `StopHook`, `AgentRuns` | a denial is told exactly when it is new on a file read again, and once while it stays; skipping files by hash loses no message; a stop is blocked once per digest, and when it is quiet |
| scope resolution | `Scope`, `ScopeGuarantees` | a branch cannot choose what it is compared with; nothing falls back silently; each protected file is sorted exactly once |
| hook installation | `HookInstall`, `InstalledHooks` | the whole file an install leaves; the last install wins, foreign hooks keep their sequence, archfit's hooks are found again at the position they had; a shell reads every installed command back |
| re-anchoring a baseline | `Reanchor` | accepted debt only shrinks, stored debt is partitioned, repeating changes nothing |

`Orders` holds sorting and the string order the parts share, `Options` the optional value.

Git, the file system, cargo, the policy service, the wrapped tool and the clock are
parameters: an oracle (`Scope.Git`), a finite directory graph (`InputWalk.Tree`), or a value
that says what one call may do (`FactStore.Weather`, `HookSession.ToolEvent`,
`StopHook.StopEvent`). Errors of all of them are part of the model.

## Where the code and its documentation part

The model follows the code.

- Unique module names. The comments at internal/initcfg/helpers.go:20 and
  internal/initcfg/initcfg.go:131-135 say that a name that is already unique is left
  unchanged. It is not when the slug of an earlier module takes it
  (`Disambiguation.SlugTakesUniqueName`). Told from the modules given: it is renamed whenever an
  earlier module shares its own name with another and has this one as its path slug, and that
  is the only reason unless the name reads as an earlier name with a numeric suffix
  (`Disambiguation.UniqueNameKeptUnlessSlug`). The exact condition for suffix-shaped names too
  is `Disambiguation.UniqueNameKeptUnlessClaimed`.
- A clean start. internal/initcfg/discover_rust.go:150-152 says that every current edge points to an
  earlier tier and the direction rule starts clean. Crate and Go imports are collected under the names
  discovery gave (internal/initcfg/initcfg.go:161 and 193), and only then does initcfg.go:201 make names
  unique across languages, so an import may come to name other crates. Two ways it fails on a workspace
  with no cycle: a crate takes the name of another (`MixedDiscovery.CrateTakesName`: a Python package a
  beside crates a, a_2 and w), and a Go import between two names that crates have too
  (`MixedDiscovery.GoImportInverts`: Go modules a and c beside crates a, c and x, every crate keeping
  its name). The exact condition is `RenamedEdges.StaysClean`, told from names, paths and the other
  languages' imports: met, every workspace without a cycle starts clean; not met, at most three crate
  imports make one that does not (`RenamedEdges.StartsCleanExactly`, `RenamedEdges.RenamingInverts`).
  It is met when the crates that bear a crate's name bear their own, or only one does, and no import of
  another language joins two names that crates bear (`RenamedEdges.ApartStaysClean`); where no other
  language has imports, only then (`RenamedEdges.CratesAloneStayClean`).
- Not blocking twice. cmd/archfit/hook.go:159 says that a stop is not blocked twice on the same
  blockers over the same tree. This holds once the first block was saved
  (`AgentRuns.BlocksOncePerDigest`). When that save fails the same stop is blocked again, and
  only then (`AgentRuns.RepeatBlocksExactly`, `AgentRuns.UnsavedBlockRepeats`), as the comment at
  hook.go:195 concedes.
- "Within about 10% of each other" (scripts/ci_test_shards.py:9). A list of one package fails it
  (`ShardScheduler.OnePackageIsLopsided`). It holds when there is eleven times the dearest package
  to run on each runner (`ShardScheduler.ShardsWithinTenPercent`). With the costs in the script
  shards are never more than 26 seconds apart (`ShardScheduler.CiShardsWithin26Seconds`).

Three promises rest on something outside the code that makes them:

- Skipping by hash. Every reply is the one a hook reading everything gives exactly when no
  service is down that only unchanged files need (`AgentRuns.HashSkipLosesNothing`); a policy
  that cannot be loaded is enough to tell them apart on a run from the empty session
  (`AgentRuns.PolicyFailureSplitsThem`).
- Imports of oneself. `moduleCycleCount` skips them and `topoLayerAssign` does not. With one left
  in, a graph counted as free of cycles would be tiered against its imports
  (`RustDiscovery.SelfImportInvertsTiers`). This is a hazard and no failure: Rust discovery, the
  one caller, drops them first (`RustDiscovery.BuildRustModules`).
- The stream cache rests on its documented drain contract: an entry recorded from a consumer that
  stopped early is wrong exactly because it stopped (`CachingRunner.DrainingIsNeeded`).

## Model

| member | source | states |
|---|---|---|
| Greedy.LeastLoaded | scripts/ci_test_shards.py:48 | the least loaded runner, and of several the first |
| Greedy.PlanIsGreedy | scripts/ci_test_shards.py:47-50 | every job of the plan went to the runner that was least loaded when its turn came |
| Greedy.LoadsAddUp | scripts/ci_test_shards.py:47-50 | under any plan the runners together hold all the work, once |
| Greedy.TwoMinusOneOverM | scripts/ci_test_shards.py:42-51 | in any order of jobs no load exceeds 2 - 1/m times a deadline some plan meets |
| Greedy.LargeJobsAreScheduledOptimally | scripts/ci_test_shards.py:42-51 | when every job is above a third of a deadline some plan meets, the runner that takes the last job meets it too |
| Greedy.FourThirdsMinusOneOverThreeM | scripts/ci_test_shards.py:42-51 | longest job first: no load exceeds 4/3 - 1/(3m) times a deadline some plan meets, for all jobs and all m >= 1 |
| Greedy.FourThirdsIsTight | scripts/ci_test_shards.py:42-51 | on every number of machines m there are 2m+1 jobs that some plan finishes by 3m and the greedy one by 4m-1: the bound is reached |
| Greedy.GapAtMostLargestJob | scripts/ci_test_shards.py:47-50 | two runners are never further apart than the largest job |
| ShardScheduler.LeastLoadedOf | scripts/ci_test_shards.py:48 | the scan picks that runner |
| ShardScheduler.Distribute | scripts/ci_test_shards.py:45-50 | the loop gives each runner exactly the packages the greedy plan gives it, in schedule order |
| ShardScheduler.ShardOf | scripts/ci_test_shards.py:42-51 | the result is that shard of the schedule the lemmas below are about |
| ShardScheduler.ScheduledDearestFirst | scripts/ci_test_shards.py:47 | the sort key puts costs in descending order, which the 4/3 bound needs |
| ShardScheduler.ShardsConservePackages | scripts/ci_test_shards.py:42-51 | over all shards a package runs exactly as often as it was listed, a split one never |
| ShardScheduler.ShardsIgnoreInputOrder | scripts/ci_test_shards.py:47 | a permuted package list gives the same shards |
| ShardScheduler.ShardsWithinFourThirds | scripts/ci_test_shards.py:42-51 | the 4/3 - 1/(3m) bound for the shards of any package list, against every assignment |
| ShardScheduler.ShardGapAtMostDearest | scripts/ci_test_shards.py:42-51 | two shards differ by at most the dearest scheduled package |
| ShardScheduler.CiShardsWithin26Seconds | scripts/ci_test_shards.py:17-35 | with the costs in the script, for any package list, by at most 26 seconds |
| ShardScheduler.ShardsWithinTenPercent | scripts/ci_test_shards.py:8-9 | shards are within a tenth of each other when all packages together cost eleven times the dearest for each runner |
| ShardScheduler.OnePackageIsLopsided | scripts/ci_test_shards.py:8-9 | one package on two runners: the second shard is empty |
| CycleCount.ReachableFrom | internal/initcfg/starter_rules.go:120-132 | the worklist ends, although the stack may repeat a module, with exactly what is reached by one or more imports |
| CycleCount.CountClasses | internal/initcfg/starter_rules.go:135-148 | the marking loop counts each class of modules that reach one another once |
| CycleCount.ModuleCycleCount | internal/initcfg/starter_rules.go:101-149 | the number of cycles of the graph without imports of oneself |
| CycleCount.CyclesAreTheLargeComponents | internal/initcfg/starter_rules.go:99-101 | what is counted is exactly the strongly connected components of two or more modules |
| CycleCount.NoCycleCounted | internal/initcfg/starter_rules.go:99-149 | the count is 0 if and only if no module reaches itself through another |
| ModuleGraph.StuckReachesCycle | internal/initcfg/helpers.go:134-158 | modules each of which waits for another of them reach a cycle: why the queue can only dry up on one |
| Layering.CountImports | internal/initcfg/helpers.go:115-132 | the counting loop: in-degrees are the imports still pending, the lists are the importers |
| Layering.RelaxImporters | internal/initcfg/helpers.go:148-157 | relaxing the importers of one module restores the invariant of the worklist |
| Layering.Drain | internal/initcfg/helpers.go:145-158 | each module comes off the queue at most once, exactly those with no cycle in reach do, and every level is a tier |
| Layering.TopoLayerAssign | internal/initcfg/helpers.go:98-165 | nothing without edges; else each listed module gets the name of its tier: its longest import chain, or what settled imports leave of it when a cycle is in reach |
| Layering.FinishedLevel | internal/initcfg/helpers.go:145-158 | a dequeued module has the length of its longest import chain |
| Layering.FinishedTier | internal/initcfg/helpers.go:145-163 | a module is dequeued if and only if it reaches no cycle, and either way its level is its tier |
| Layering.TierUnique | internal/initcfg/helpers.go:98-102 | a module has one tier |
| Layering.TieringIgnoresOrder | internal/initcfg/helpers.go:142-156 | the result does not depend on the order or repetition of names and edges |
| Layering.AnyQueueDiscipline | internal/initcfg/helpers.go:145-158 | whatever queued module is taken next, there are no more turns than modules and the worklist ends with every module in its tier |
| Layering.LevelsIgnoreQueueOrder | internal/initcfg/helpers.go:142-156 | any two ways to take modules off the queue end with the same levels |
| Tiers.LayerTierNum | internal/initcfg/helpers.go:190-205 | reads the digits with Go's 64-bit wrap-around, 0 for any other name |
| Tiers.TierNumExactly | internal/initcfg/helpers.go:190-205 | wrapping at every digit is wrapping once: any digits read as their decimal value in 64 bits, any other name as 0 |
| Tiers.TierRoundTrip | internal/initcfg/helpers.go:190-205 | reading back a printed tier gives its number if and only if it fits Go's int |
| Tiers.TierNameInjective | internal/initcfg/helpers.go:162 | distinct tiers have distinct names, of any size |
| StarterRules.TopoLayerList | internal/initcfg/helpers.go:167-188 | the assigned layers, each once, in tier order |
| StarterRules.InferLayers | internal/initcfg/helpers.go:75-90 | the same of the layers the modules carry, the empty one left out |
| StarterRules.LayerBackEdgeCount | internal/initcfg/starter_rules.go:151-173 | the number of edges from a module of an earlier layer to one of a later layer |
| StarterRules.BackEdgesCounted | internal/initcfg/starter_rules.go:164-171 | the count is the number of positions with a back edge |
| StarterRules.BackEdgeExactly | internal/initcfg/starter_rules.go:151-171 | where names differ a back edge is one from a module of an earlier layer to one of a later |
| StarterRules.NoBackEdges | internal/initcfg/starter_rules.go:164-171 | the count is 0 if and only if no edge is a back edge |
| StarterRules.EveryTierIsInhabited | internal/initcfg/helpers.go:98-102 | below the highest tier every tier holds a module |
| StarterRules.LayersAreTierRange | internal/initcfg/helpers.go:75-90 | on a graph with bounded chains the layer list is exactly layer-0 to layer-k |
| StarterRules.AcyclicStartsClean | internal/initcfg/discover_rust.go:148-154 | no cycle counted implies layers layer-0 to layer-k with k >= 1 and no back edge |
| StarterRules.BackEdgesReachCycles | internal/initcfg/starter_rules.go:151-173 | on any graph both ends of a back edge import their way to a cycle |
| Disambiguation.FindSuffix | internal/initcfg/helpers.go:49-57 | the unbounded search ends with the least free suffix from 2 on |
| Disambiguation.ResolveCollisions | internal/initcfg/helpers.go:40-58 | the second pass, in place |
| Disambiguation.DisambiguateNames | internal/initcfg/helpers.go:19-61 | both passes, in place: the array holds the modules the lemmas below are about |
| Disambiguation.NamesEndUpUnique | internal/initcfg/helpers.go:19-61 | whatever the modules, paths and slugs, no two end up with one name |
| Disambiguation.NamedInTurn | internal/initcfg/helpers.go:19-61 | which name each module gets: its own or, shared, the slug of its path, with the least free number when an earlier module has that |
| Disambiguation.SlugExactly | internal/initcfg/helpers.go:63-73 | a slug is the path without its glob ending, slashes and dots as underscores |
| Disambiguation.UniqueNameKeptUnlessClaimed | internal/initcfg/helpers.go:19-58 | a unique name is kept if and only if no earlier first-pass name claims it, as itself or as the next suffix of a name claimed before |
| Disambiguation.UniqueNameKeptUnlessSlug | internal/initcfg/helpers.go:33-58 | from counts and paths: an earlier colliding module with this slug renames it, and nothing else does unless it reads as an earlier name with a suffix |
| Disambiguation.OnlyNamesChange | internal/initcfg/helpers.go:19-61 | paths and layers of every module are kept |
| Disambiguation.DistinctNamesStay | internal/initcfg/initcfg.go:131-135 | modules with unique names are left as they are |
| Disambiguation.SlugTakesUniqueName | internal/initcfg/helpers.go:20 | two modules of one name, one at path p, and a module named as the slug of p: its unique name is changed, for every p |
| RustDiscovery.CollectEdges | internal/initcfg/discover_rust.go:111-140 | the edges are exactly the normal and build dependencies between distinct member crates, each once |
| RustDiscovery.BuildRustModules | internal/initcfg/discover_rust.go:86-166 | sorted member crates with their tiers, and edges that join two of them: what the clean start needs |
| RustDiscovery.DiscoverWorkspace | internal/initcfg/initcfg.go:187-210 | a workspace of crates, end to end: the member crates, sorted; two or more layers with every crate in its tier, or none when there are no edges or one tier; both counts; with edges and no cycle counted layer-0 to layer-k and no back edge |
| FoldedEdges.FoldDroppedEdges | internal/initcfg/inventory.go:89-108 | the loop over the edges, with its set of seen ones, computes the fold the lemmas are about |
| FoldedEdges.FoldedExactly | internal/initcfg/inventory.go:59-65 | what is left, each once: edges of kept modules to a kept target, or to a module that owns files of a dropped one, none to itself |
| FoldedEdges.KeptEdgesStay | internal/initcfg/inventory.go:96-97 | imports between kept modules, crates say, stay as they are whatever is folded beside them |
| MixedDiscovery.Discover | internal/initcfg/initcfg.go:142-210 | modules of other languages followed by crates, all imports, folded when there is an inventory: unique names, paths kept, the layer list, both counts over all imports; with crate imports and no cycle counted layer-0 to layer-k, and no back edge when the condition is met |
| RenamedEdges.StartsCleanExactly | internal/initcfg/initcfg.go:161-210 | every workspace of these modules and other languages' imports, whatever the crates import without a cycle, starts clean if and only if the condition is met |
| RenamedEdges.RenamedStartsClean | internal/initcfg/initcfg.go:161-210 | no back edge among all imports on any workspace without a cycle that meets it |
| RenamedEdges.RenamingInverts | internal/initcfg/initcfg.go:161-210 | where it is not met three crate imports or fewer, with no cycle counted, make a back edge |
| RenamedEdges.ApartStaysClean | internal/initcfg/initcfg.go:161-210 | it is met when crates that bear crate names bear their own, or one alone, and no other import joins two names crates bear |
| RenamedEdges.CratesAloneStayClean | internal/initcfg/initcfg.go:193-210 | without imports of other languages it is met if and only if crates that bear crate names bear their own, or one alone |
| MixedDiscovery.GoImportInverts | internal/initcfg/initcfg.go:161 | two Go modules, one importing the other, and three crates that all keep their names: no cycle is counted, a back edge is |
| MixedDiscovery.CrateTakesName | internal/initcfg/initcfg.go:201 | a module of another language, whatever its paths with that slug, and three crates on which a crate takes the name of another |
| RustDiscovery.SelfImportInvertsTiers | internal/initcfg/discover_rust.go:130-132 | why imports of oneself are dropped: with one left in, a graph with no cycle counted puts a module above its importer |
| KeyMaterial.HashParts | internal/factcache/key.go:71-80 | the bytes fed to the hash: every part followed by a NUL |
| KeyMaterial.DecodeEncode | internal/factcache/key.go:71-80 | reading the bytes back gives the parts, when none holds a NUL |
| KeyMaterial.EncodeDecode | internal/factcache/key.go:71-80 | writing what was read gives the bytes back if and only if they are empty or end in NUL |
| KeyMaterial.PartsInjective | internal/factcache/key.go:14-18 | NUL-free parts are determined by their bytes |
| KeyMaterial.NulIsAmbiguous | internal/factcache/key.go:71-80 | a part that holds a NUL is taken for two |
| KeyMaterial.KeyDeterminesComponents | internal/factcache/key.go:14-21 | equal keys mean equal analyzer, tool version, config slice and input tree, even where the version is put together with NULs |
| KeyMaterial.KeyReadsBack | internal/factcache/key.go:14-21 | the material reads back as schema version, analyzer, tool version, config slice and input tree |
| KeyMaterial.TreeInjective | internal/factcache/key.go:63-66 | the tree bytes determine paths and 32-byte digests, although a digest may hold NULs |
| KeyMaterial.HashTree | internal/factcache/key.go:43-69 | the bytes of the sorted tree for readable inputs within 32 MiB; otherwise the error of the first input that is unreadable or past the budget |
| KeyMaterial.HashedExactly | internal/factcache/key.go:38-69 | success if and only if the inputs, in whatever order they are listed, are readable and fit the budget |
| KeyMaterial.HashIgnoresOrder | internal/factcache/key.go:44-45 | the outcome does not depend on the order of the inputs |
| KeyMaterial.HashDeterminesTree | internal/factcache/key.go:38-69 | one hash stands for one multiset of paths with one digest each |
| FactStore.Store.Get | internal/factcache/factcache.go:91-106 | a hit exactly when the entry is there and readable, not in refresh mode; it answers the stored data and touches the entry; nothing else on the disk changes |
| FactStore.GetAnswers | internal/factcache/factcache.go:88-106 | the same of the specification the history lemmas are about |
| FactStore.WrittenIsServed | internal/factcache/factcache.go:88-141 | over any history: while an entry is neither gone nor written again, a read at it is a hit exactly when it may read, and answers what was written |
| FactStore.Store.Put | internal/factcache/factcache.go:108-141 | a write that fails changes nothing; one that succeeds is followed by eviction |
| FactStore.PutExactly | internal/factcache/factcache.go:108-141 | a write that succeeds is on the disk as written unless eviction takes it, which it does not while all fits under the cap; nothing else is added or changed |
| FactStore.Store.Evict | internal/factcache/factcache.go:147-188 | nothing up to the cap; else removal oldest first, no further than needed for the target |
| FactStore.EvictedWithinCap | internal/factcache/factcache.go:147-149 | the store ends within the target or holds only files that cannot be removed; when removals succeed it ends within the cap |
| FactStore.EvictedOldestFirst | internal/factcache/factcache.go:179-187 | nothing evicted is newer than any removable file that is kept, whichever removals fail |
| FactStore.EvictedNoMoreThanNeeded | internal/factcache/factcache.go:180-187 | with the newest evicted file back the store would be over the target, whichever removals fail |
| FactStore.CapIsKept | internal/factcache/factcache.go:91-188 | reading and removing never make the store larger; a write that succeeds leaves it within the cap, however large it was, unless only files that cannot be removed are left |
| FactStore.EvictsLeastRecentlyUsed | internal/factcache/factcache.go:91-106 | over any history with a moving clock and hits that touch, no write evicts what was used after a removable file it leaves, nor the file just written while one is left |
| CachingRunner.EntryKeyDeterminesCommand | internal/factcache/runner.go:144-154 | an entry address belongs to one key and one command |
| CachingRunner.EntryArgsReplaceCommand | internal/factcache/runner.go:43-47 | with EntryArgs two addresses are equal if and only if key and arguments are, whatever the commands |
| CachingRunner.Runner.Lookup | internal/factcache/runner.go:107-125 | an entry that does not decode is removed and is a miss |
| CachingRunner.Runner.Record | internal/factcache/runner.go:127-142 | what is stored, unless there is no store or the veto rejects it |
| CachingRunner.Runner.Run | internal/factcache/runner.go:65-80 | the hit, or the inner answer, recorded when it succeeded: the call CallAnswers is about |
| CachingRunner.Runner.Stream | internal/factcache/runner.go:82-105 | the same for a stream whose consumer may stop early or fail; what it read is what is stored |
| CachingRunner.CallAnswers | internal/factcache/runner.go:65-142 | what each run answers and leaves: a readable entry that decodes is served; else the answer is the tool's, stored exactly when it succeeds without a veto and the write succeeds; a vetoed or failed call adds nothing |
| CachingRunner.StreamAnswers | internal/factcache/runner.go:82-142 | the same for streams |
| CachingRunner.RecordedIsServed | internal/factcache/runner.go:65-142 | over any history: what a run or stream stored is what every later one at its address answers while the entry stays undisturbed, whatever the tool would answer then |
| CachingRunner.StepIsTransparent | internal/factcache/runner.go:65-142 | one event keeps every decodable entry true, and a call that succeeds gives the uncached answer |
| CachingRunner.CachingIsTransparent | internal/factcache/runner.go:65-142 | over any history of runs, streams, losses, corruption, aging and eviction every call that succeeds gives the uncached answer |
| CachingRunner.DrainingIsNeeded | internal/factcache/runner.go:82-87 | a stream that misses on a sound store and stays recorded leaves it sound if and only if its consumer read stdout to the end |
| CachedAnalysis.HexInjective | internal/factcache/key.go:79 | printing a digest in hex loses nothing |
| CachedAnalysis.ListingHashesTree | internal/factcache/key.go:43-69 | HashTree on any listing of the files hashes the material of the map of paths to contents |
| CachedAnalysis.TreeDeterminesFiles | internal/factcache/key.go:38-42 | equal tree material means the same paths with the same contents, as far as the hash tells contents apart |
| CachedAnalysis.AddressDeterminesCall | internal/factcache/runner.go:21-27 | through all the hashes, an entry address belongs to one analyzer, version, config slice, set of files with contents and command |
| CachedAnalysis.CachedAnswersAreTheTools | internal/factcache/key.go:14-18 | from an empty store on, over any history, a tool that depends on nothing else gives cached what it gives uncached, wherever the hash separates the texts of the history |
| InputWalk.InputWalker.Walk | internal/factcache/inputs.go:75-104 | ends on every directory graph; `active` is the current path on every return; the cap stops it exactly when a walk without a cap counts past it; otherwise it lists and ends as that walk does |
| InputWalk.InputWalker.WalkEntries | internal/factcache/inputs.go:86-103 | the same for the entries of one directory |
| InputWalk.InputWalker.Enter | internal/factcache/inputs.go:106-136 | the same for one entry, through links |
| InputWalk.CompleteExactly | internal/factcache/inputs.go:24-27 | a walk reaches its end if and only if no descent it would make ends too deep, in a directory it is already in, or at something that cannot be read |
| InputWalk.SurveyFindsInputs | internal/factcache/inputs.go:106-136 | a walk that reaches its end lists exactly the selected files at their logical paths |
| InputWalk.DirFoundOnce | internal/factcache/inputs.go:24-25 | where names in a directory differ and hold no separator, no logical path is listed twice, however many links lead to a file |
| InputWalk.ListInputs | internal/factcache/inputs.go:41-52 | all selected files, sorted and each path once, if and only if a walk reaches its end within the cap; otherwise the sentinel, never a part of them; a note if and only if the cap stopped it |
| HookSession.Session.ImportEdits | cmd/archfit/hook_session.go:189-245 | the edits are the touched files whose content is new; the new hashes; reports of untouched files are forgotten |
| HookSession.EditsAreReread | cmd/archfit/hook_session.go:211-237 | an edit for exactly each touched, readable file of unknown content, once |
| HookSession.HashOfFile | cmd/archfit/hook_session.go:220-238 | a hash is saved for exactly the readable touched files that are known or whose imports all resolve |
| HookSession.Session.NewDenials | cmd/archfit/hook_session.go:345-397 | the messages and reports of all edits, or a failure when the policy is needed and does not answer |
| HookSession.TwoPasses | cmd/archfit/hook_session.go:352-396 | clearing the files without targets first and judging the others after is the same as going file by file |
| HookSession.MessagesAreFresh | cmd/archfit/hook_session.go:380-388 | a message for exactly the denials of edited files not reported before |
| HookSession.PostToolUse | cmd/archfit/hook_session.go:156-180 | the whole hook, told from session and event: it fails open exactly when a service it needs or the save fails, and then leaves the session alone; it is silent exactly when nothing is new; else a message for each new denial, file by file, in order; and what is saved |
| HookSession.HookAnswers | cmd/archfit/hook_session.go:156-180 | the same of the specification all run lemmas are about: denied with a message about a file and a denial exactly when the file is touched, read again, holds the denial, and its finding was not reported on it |
| AgentRuns.HashesAreBacked | cmd/archfit/hook_session.go:189-194 | in every run a saved hash means an earlier saved event read the file again with that content, every import resolved, and what it judged is exactly what is reported |
| AgentRuns.FailsAloneExactly | cmd/archfit/hook_session.go:222-231 | the reading-all hook fails open and the hook does not if and only if only unchanged files need a diff or the policy that is down |
| AgentRuns.HashSkipLosesNothing | cmd/archfit/hook_session.go:195-245 | over whole runs every reply is the one of a hook reading every touched file, if and only if no event fails for the latter alone |
| AgentRuns.PolicyFailureSplitsThem | cmd/archfit/hook_session.go:159-180 | a run from the empty session on which a policy failure makes the two differ |
| AgentRuns.OnceWhileItStays | cmd/archfit/hook_session.go:156-158 | between two reports of a denial on a file a saved run read the file without it or found it untouched |
| StopHook.ForgetBlock | cmd/archfit/hook.go:206-220 | the block is cleared when the save succeeds; a failed save only shows a message |
| StopHook.StopHook | cmd/archfit/hook.go:156-204 | the whole hook, told from session and event: when it blocks, when it is quiet, a notice in every other case; only the recorded block changes, and only when saved |
| StopHook.StopAnswers | cmd/archfit/hook.go:164-220 | the same of the specification the run lemmas are about |
| StopHook.DigestIdentifiesResult | cmd/archfit/hook.go:222-232 | equal digests if and only if equal tree and equal multiset of blocking findings |
| AgentRuns.BlockIsRemembered | cmd/archfit/hook.go:189-220 | in every run, whichever saves fail, the recorded digest is what the saved stop events say was last blocked and not forgotten |
| AgentRuns.BlocksExactly | cmd/archfit/hook.go:181-198 | in every run a stop is blocked if and only if it is a first stop on a failing change, and a subagent's or on a digest not remembered |
| AgentRuns.QuietExactly | cmd/archfit/hook.go:164-220 | in every run a stop is quiet if and only if its tree is untouched or passes and no recorded block failed to be cleared; one that neither blocks nor is quiet shows a notice, failures to open, compare and judge included |
| AgentRuns.BlocksOncePerDigest | cmd/archfit/hook.go:159-163 | two blocks of the main agent on one digest, the first of them saved, are separated by a saved pass, unjudged or untouched tree, or block on another digest |
| AgentRuns.RepeatBlocksExactly | cmd/archfit/hook.go:189-197 | the same stop right after a block is blocked again if and only if the save of the first failed |
| AgentRuns.UnsavedBlockRepeats | cmd/archfit/hook.go:194-198 | a run from the empty session that blocks twice on one digest with nothing in between |
| AgentRuns.RepairAndSubagents | cmd/archfit/hook.go:183-188 | whether saves succeed or not, a repair stop is never blocked and a failing subagent stop leaves the session alone |
| Scope.LookupBranch | internal/application/scope.go:339-354 | the first spelling git knows, the remote one first |
| Scope.RemoteFirst | internal/application/scope.go:339-354 | a bare name is the remote branch when there is one, whatever a local branch of that name holds; a qualified name is looked up as it stands |
| Scope.NamedTarget | internal/application/scope.go:278-289 | that branch, or the name and its source as the reason |
| Scope.TrustedDefault | internal/application/scope.go:302-337 | origin/HEAD, else main or master when exactly one exists, else the two |
| Scope.DeclaredByAll | internal/application/scope.go:258-276 | the target both configs declare, or none |
| Scope.ResolveTarget | internal/application/scope.go:208-256 | the sources in their order |
| Scope.WithPolicyGuard | internal/application/scope.go:171-206 | the files sorted by target and fork, up to the first git error |
| Scope.ResolveScope | internal/application/scope.go:81-151 | the whole resolution, git errors included: the function ScopeExactly, PolicyIsSorted and FailsExactly are about |
| ScopeGuarantees.ScopeExactly | internal/application/scope.go:85-151 | which mode, target, target commit, base and reason each answer of git gives, for explicit and resolved bases |
| ScopeGuarantees.GuardedFrom | internal/application/scope.go:122-169 | the guard runs exactly on a resolved scope, and measures from HEAD when it is on the target, else from the merge base, and from HEAD when nothing is shared |
| ScopeGuarantees.PolicyIsSorted | internal/application/scope.go:171-206 | the two lists, in order: files edited since that commit and files behind the target; none where the scope is unresolved or the target holds no config |
| ScopeGuarantees.FailsExactly | internal/application/scope.go:85-206 | an error exactly when git does not answer a question the scope or a protected file depends on |
| ScopeGuarantees.TargetExactly | internal/application/scope.go:208-256 | the target is a branch if and only if a name somebody gave names it, or nobody gave one and it is the trusted default that declares none |
| ScopeGuarantees.TrustedExactly | internal/application/scope.go:302-337 | the default branch by what git knows of origin/HEAD, main and master |
| ScopeGuarantees.AgreedExactly | internal/application/scope.go:258-276 | branches agree on a name if and only if each declares it |
| ScopeGuarantees.BranchCannotChooseScope | internal/application/scope.go:215-221 | with a tracked config, no --target and a default branch, requests that differ in target_branch and policy contents resolve to one scope |
| ScopeGuarantees.ConfigDecidesOnlyWithoutDefault | internal/application/scope.go:219-221 | the working-tree target_branch has a say if and only if there is no default branch |
| ScopeGuarantees.UnknownExactly | internal/application/scope.go:223-289 | the target is an unknown name if and only if that name was given, by that source, and names nothing |
| ScopeGuarantees.GivenNameIsFinal | internal/application/scope.go:223-224 | the scope stays unresolved over a name if and only if it is the given one, from whatever source, and names nothing; no other source is asked |
| ScopeGuarantees.NeverFallsBackSilently | internal/application/scope.go:81-84 | with a HEAD the mode is none if and only if a reason is given, and there is a base exactly in the explicit and merge-base modes |
| ScopeGuarantees.GuardSorts | internal/application/scope.go:171-175 | changed are exactly the files edited since the fork, stale exactly those behind the target |
| ScopeGuarantees.EachFileIsSortedOnce | internal/application/scope.go:171-206 | each protected file is exactly one of same, changed and stale, measured from the commit the branch left the target at; a stale one is as it was there |
| HookInstall.MergeEvent | cmd/archfit/hook_install.go:287-327 | the loop with its placed flag computes the merge the lemmas are about |
| HookInstall.MergeHookConfig | cmd/archfit/hook_install.go:245-285 | the whole file after an install, told from the file before; other top-level keys kept; a file of another shape refused |
| HookInstall.InstallLeaves | cmd/archfit/hook_install.go:251-344 | in each wanted event the foreign groups in order and, where archfit stood first or else last, one group with the hook's matcher and a single command entry; in other events the foreign groups, and no event left without any |
| HookInstall.LastMergeWins | cmd/archfit/hook_install.go:248-249 | merging an event twice is merging it once with the second command |
| HookInstall.LastInstallWins | cmd/archfit/hook_install.go:245-251 | installing again gives what installing with the second command at once gives, so repeating changes nothing |
| HookInstall.MergeKeepsForeign | cmd/archfit/hook_install.go:245-251 | the foreign groups of an event, each with its keys and foreign entries, are the same sequence after a merge |
| HookInstall.CleanGroupIsForeign | cmd/archfit/hook_install.go:246-248 | a group that holds nothing of archfit, an empty one included, is such a group as it stands |
| HookInstall.InstallKeepsForeign | cmd/archfit/hook_install.go:245-251 | the same for the whole file, event by event |
| HookInstall.MergePlaces | cmd/archfit/hook_install.go:290-327 | exactly one group runs archfit afterwards, and where it stands does not depend on the command |
| InstalledHooks.FindInstalled | cmd/archfit/doctor_agent.go:209-246 | the first position of each event and run event, exactly when every group and entry is readable |
| InstalledHooks.PositionIsFirst | cmd/archfit/doctor_agent.go:209-246 | what is found is the first hook of the event, in file order, that calls the run event |
| InstalledHooks.HarnessEventsDiffer | cmd/archfit/hook_install.go:41-61 | the tables name each event once |
| InstalledHooks.InstalledLineNames | cmd/archfit/hook_install.go:183-202 | every command written is read back as the run event it was written for, whatever the config path holds |
| InstalledHooks.CommandReadsBack | cmd/archfit/hook_install.go:183-202 | a shell splits every command written into the program, the run event and the options, the config path whatever it holds |
| InstalledHooks.ShellReadsQuoted | cmd/archfit/hook_install.go:195-202 | a quoted text is read back by a shell as that text, one word, for every text |
| InstalledHooks.InstallIsFound | cmd/archfit/doctor_agent.go:209-246 | after installing, the reader finds archfit's one group of each wanted event |
| InstalledHooks.ReinstallKeepsPositions | cmd/archfit/hook_install.go:246-249 | installing again with any command keeps the (group, hook) position |
| InstalledHooks.InstallKeepsReadability | cmd/archfit/doctor_agent.go:219-228 | the reader gets through the merged file if and only if it got through the file before |
| Reanchor.Run | internal/application/reanchor.go:69-157 | the file written and the report, told by fields from the measurement and the stored file |
| Reanchor.FileIsSaved | internal/application/reanchor.go:85-133 | the file: metrics and state are the capture's, its seams those stored before, accepted are the first current findings of stored fingerprints, waived ones included |
| Reanchor.ReportTellsAll | internal/application/reanchor.go:87-157 | every list of the report, with multiplicity: kept, dropped, not accepted, gone and new seams, worsened and unmeasured metrics |
| Reanchor.KeepsExactly | internal/application/reanchor.go:87-94 | kept fingerprints are exactly those stored and seen again, waived or not, each once |
| Reanchor.AcceptedIsPartitioned | internal/application/reanchor.go:87-108 | stored debt is kept or reported dropped, never both; dropped are exactly those not seen again |
| Reanchor.NotAcceptedExactly | internal/application/reanchor.go:96-103 | reported as not accepted are exactly the keys of current findings the stored file did not accept |
| Reanchor.SeamsArePartitioned | internal/application/reanchor.go:110-125 | current seams are kept or new, with their multiplicity |
| Reanchor.StoredSeamsArePartitioned | internal/application/reanchor.go:110-132 | stored seams are kept or reported dropped, never both; kept are exactly those that still qualify |
| Reanchor.StoredSeamsAreAccountedFor | internal/application/reanchor.go:110-132 | of the function alone: stored seams are accounted for if and only if the capture has a state, as that of its one caller always has, or there are none |
| Reanchor.MetricsAreTold | internal/application/reanchor.go:134-151 | reported as worsened are exactly the metrics measured by one version on both sides that moved the wrong way; unmeasured ones are told apart |
| Reanchor.DebtNeverGrows | internal/application/reanchor.go:69-76 | over any sequence of re-anchors accepted fingerprints and seams only shrink |
| Reanchor.DroppedNeverReturns | internal/application/reanchor.go:69-76 | a fingerprint dropped once is never accepted again |
| Reanchor.RepeatChangesNothing | internal/application/reanchor.go:77-157 | re-anchoring on its own output gives the same file and drops nothing |

## Left out

- Rounding: costs of the shard script are whole tenths where Python adds floats, and metric values are reals.
- SHA-256: a content hash or digest is kept as the text it hashes, taken to tell texts apart; for cache keys it is a parameter with 32-byte digests.
- Layering.TopoLayerAssign: asks for names without repeats, which its one caller guarantees by passing the sorted keys of a map; a repeated name would enter the first queue twice.
- RustDiscovery.DiscoverWorkspace: asks for at most 2^63 - 1 packages, the most a Go slice can hold, because tier numbers wrap beyond that.
- MixedDiscovery.Discover: the modules and imports of other languages are given, none of the modules with a layer. Discovery of other languages, keepModulesWithSource, which kept modules own the files of a dropped one (inventory.go:67-88) and the text of the gate notes are not part of this model.
- RenamedEdges.StartsCleanExactly: at most 2^63 - 1 crates, as above.
- RustDiscovery.CollectEdges: dedupes by the pair of crate names where the code joins them with a NUL.
- CachingRunner.Runner.Stream: what a consumer reads off a live stream whose run then fails is not modelled; nothing is recorded of it.
- CachingRunner.CachingIsTransparent: takes a corrupted entry to be one that does not decode; bytes that decode to a wrong entry would be served, by the code as by the model. Key collisions outside the promise of EntryArgs are the caller's.
- CachingRunner.EntryKeyDeterminesCommand: holds for NUL-free names and arguments, which is all an operating system passes on; WorkDir and Env are not part of the address, by design.
- CachedAnalysis.CachedAnswersAreTheTools: speaks of calls without EntryArgs, whose promise is the caller's; SHA-256 is any function that gives the texts of the history different digests, and the last hash, that of the entry address, is left as its material.
- FactStore: files the eviction walk cannot stat, NoteSkip and Skips, and Detect of the runner are not modelled; the files of one age come in any order.
- InputWalk.ListInputs: glob matching and the entry cap (20 000 in the program) are parameters.
- HookSession: import reading (importTargets, parseAddedLines) and can-import are functions from content to targets and denials; starting a session and finding the touched files are what an event says; message texts and the closing advice line are left out. Reported findings, sorted and compacted in the code, are a set.
- AgentRuns.HashSkipLosesNothing: takes judging to be a function of content: an event shown a content that an earlier one settled holds the same findings in it.
- AgentRuns: the runs of one session come one after the other, since the session file is read and written without a lock; the same for the processes on one fact store.
- ScopeGuarantees.NeverFallsBackSilently: speaks of repositories with a commit where git answers; without a commit, and on a git error, the code returns no reason.
- ScopeGuarantees.ForkIsShared: takes from git that a merge base is an ancestor of both its commits; ScopeGuarantees.NeverFallsBackSilently that it has a name.
- ScopeGuarantees.EachFileIsSortedOnce: when the scope is unresolved the guard did not run, and empty lists mean nothing.
- HookInstall: bytes, key order and encoding of the JSON files, files that are empty or hold the JSON value null, the pre-commit hook, and writing through links are left out; a position is keyed by the pair of event and run event.
- InstalledHooks.CommandReadsBack: the shell is a reader of blanks, quotes and plain characters (POSIX, section 2.2 of the Shell Command Language); run events and harness names are plain words, as in the tables.
- Reanchor.StoredSeamsAreAccountedFor: a capture without a state is no input of the program (internal/application/baseline.go:136 and 187-200 always give one).
- Reanchor.Run: lists the code sorts by a key alone are told up to the order of equal keys, which Go leaves open.
- Configuration, drafts, labels, reports, doctor tables, Codex trust files and the LLM prompts are not modelled: formatting and field copying.
