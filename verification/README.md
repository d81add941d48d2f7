# Verified models of the repository's tooling

Several scripts of this repository hold real algorithms: they order packages,
balance test files over processes, look key paths up in type declarations, run
a pool of asynchronous workers, frame and parse byte streams, rewrite Markdown
in place and validate a chain of migrations. This project models those
algorithms in Dafny and proves what they promise, for every input. Check it
with `dafny verify dfyconfig.toml`.

| Part | Files | Main results |
|---|---|---|
| Package order | `Basics`, `Graphs`, `Packages`, `SccSearch`, `CycleFinder`, `Sorting`, `Ordering`, `PackageGraph`, `TopoSort`, `DependencyDepth` | Tarjan's search yields exactly the strongly connected components and its throws are dead; the sort makes progress, respects dependencies up to mutual reachability, keeps components in one block, permutes its input exactly when short names are unique, and does not depend on the input order; without cycles the output is sorted by the longest dependency chain, then by display order |
| Coverage partitions | `Schedules`, `MinHeap`, `CoveragePartitions` | by the recorded weights, heaviest first, each file goes to a bucket minimal over all buckets; no file is lost; the heaviest partition is within 4/3 - 1/(3m) of any other split |
| Key paths in type declarations | `KeyPaths`, `TypeSyntax`, `PathLookup`, `PathBlindSpots`, `PathPrecision`, `PathSurvey`, `LooseReading`, `PathExactness`, `PathGrowth`, `PathTermination`, `PathDivergence`, `PathRounds`, `PathWalker` | parsing is the inverse of writing; `found` is right where no key asked for is the spelling of another name, and `missing` where only plainly named properties may declare the keys asked for, whatever the opaque types contain; there, and where no declaration comes up twice, each of the three verdicts is exact; a key declared nowhere is reported missing exactly when no declaration comes up twice with as many steps left; the walk returns where no cycle that its keys can follow lengthens the path, never on such a cycle of aliases, and never on a cycle that brings the keys for its members along |
| Paste closure | `PasteClosure` | the worklist ends and reports nothing exactly when every reachable name has one origin, and what it reports is so; each name is pasted once, in the order of first mention; without a report the pastes are complete |
| Worker pool | `WorkerPool` | over all interleavings: one claimer per index, concurrency that never exceeds the limit and in some run reaches it, no deadlock, an end to every run, and complete results exactly when no value is undefined and some worker runs |
| Byte framing | `Decimals`, `DigestFraming`, `GitBatch` | the digest input determines the artifact list; the batch reader accepts exactly the announced answers and says why it does not |
| Markdown | `Whitespace`, `Splitting`, `BracketScan`, `MarkdownDestination`, `Splice`, `LinkRewriting`, `HtmlComments`, `CommentColumns` | a destination is located exactly under four conditions; splicing from the right is simultaneous substitution; rewriting a printed document prints the document that has the new destinations for its own, whatever stands in the links it keeps; the comments found are those of the source exactly when the parser added as many characters as it took before their starts and ends; the kept lines are exactly the prose lines |
| Session migrations | `SessionMigrations` | an inventory is accepted exactly when it can be arranged into one wired chain, whose composition reaches the current version; the catalog holds every field of every manifest in its place |

The imperative scripts are methods with loops, arrays and classes with mutable
fields, each proved against a specification; the lemmas are about the
specification. `Finder` carries the variables of the nested `visit`, `Walker`
the shared `seen` set, `Digest` the hash state, `Rewriter` the growing list of
replacements; the heap and the buckets are arrays.

## Findings

* `assignWeightedPartitions` (scripts/coverage-partitions.ts:289-296) documents
  that every partition is non-empty. The code leaves some empty when there are
  fewer files than partitions (`OneFileLeavesOneEmpty`);
  `AllFilledIffEnoughFiles` proves that this is exactly when.
* `topoSort` keys packages by short name. With two packages of one short name
  its output is not a permutation of its input: the later of them replaces the
  earlier (`TwinIsLost`, `LaterCounts`); `OutputPermutes` is an equivalence.
* `mapConcurrent` ends a worker on an undefined value and starts no worker for
  a limit of zero, so it can resolve with results missing
  (`UndefinedEndsWorker`, `NoWorkerResolves`); `CompleteIff` states exactly when
  it does not. The function is private, and its only caller passes a positive
  limit and strings, so nothing in the repository reaches these inputs.
* `lookupPath` promises `'unknown'`, never `'missing'`, for what it cannot see
  through (scripts/gen-config-catalog.ts:315), but of a member list it looks at
  property signatures only and compares the key with the spelling of the name.
  The method of `interface C { onEvent(): void }` is reported missing, though it
  is the one name that `C` has (`MethodReportedMissing`), as is the key of a
  quoted property, whose quoted spelling is found instead
  (`QuotedNameMisread`); and it sees through `keyof` (`KeyofReportedFound`).
  `LiteralRightIff` states for one key of one literal exactly when each answer
  is right: `missing` if and only if no member declares the key or leaves open
  whether it does, as index signatures and computed names do; `found` if and
  only if some member declares it. `TypeSound` and `DeclSound` prove the verdicts
  on premises that can be read off the declarations in reach, and that ask about
  members only as far as the keys asked for go: those of the path and those of
  indexed accesses in reach. Among types without `keyof`, `found` is right
  unless a key asked for is the spelling of a property of another name (or,
  where members are inherited, declared by a method or by a property spelled
  otherwise), and `missing` is right where whatever may declare a key asked for,
  or is spelled like one, is a plainly named property, and the only one of its
  list with that name. `VerdictExact` proves on the second premise, where no
  declaration comes up twice, that the walk sees all there is to see: `found` if
  and only if the path is there whatever the unseen places contain, `missing` if
  and only if it is not there even when one branch of each union suffices.
* `lookupPath` shares its `seen` set across branches, so a declaration that two
  bases have in common counts as recursive the second time and a missing key
  below it goes unreported (`DiamondIsUnknown`). `MissingIffNoRepeat` gives the
  exact condition: where nothing is out of reach and nothing declares the key,
  it is reported missing if and only if the path leads through no declaration
  twice with the same number of steps left. That list of declarations is made
  without `seen` and without verdicts.
* `lookupPath` need not return when an indexed access makes the path longer on
  a cycle of declarations: never for `type A = A['x']`
  (`SelfIndexedNeverReturns`), nor for any alias on a cycle of aliases that
  lengthens the path (`GrowingAliasesNeverReturn`). `WalkReturns` proves that
  it returns wherever no cycle that its keys can follow lengthens the path, a
  member or an array element taking off the step that an index adds: `interface
  A { x: any; y: A['x'] }` is such a case (`SelfMemberReturns`). For aliases
  without members and arrays the condition is exact (`AliasesReturnIff`). A
  growing cycle through members never returns either when each of its members
  is asked for by a step that the cycle itself brings along
  (`RoundsNeverReturn`): for `interface A { y: A['y']['y'] }` no path that goes
  on behind `y` returns (`SelfFedNeverReturns`). Open is whether a walk returns
  on the other growing cycles: those that pass members and also a base, a union
  or an intersection, or members that only the path's own steps ask for.
* `destinationRange` finds another range than the destination in four cases: it
  ends a bare destination at a non-ASCII white-space character such as U+00A0,
  which section 6.3 of the CommonMark standard allows there
  (`NoBreakSpaceCutsShort`); it runs on behind a backslash that ends the
  destination and escapes nothing (`BackslashRunsOn`); it counts brackets inside
  code spans of a label (`CodeSpanBracketMisleads`); and it takes the mark of a
  block quote at the beginning of the destination's line for the destination
  (`QuoteMarkMisleads`). `RangeIsDestination` proves that the range is right if
  and only if none of these occurs.
* `htmlCommentRanges` adds offsets into the value of an HTML node to the node's
  offset in the source. But the parser takes quote marks and indentation out of
  the value, and where a container takes a part of a tab it puts spaces for the
  rest (section 2.2 of the CommonMark standard). In a comment over two quoted
  lines part of the closer stays visible (`DriftLosesCloser`,
  `DriftShowsCloser`); behind a divided tab the range runs over the text that
  follows the comment, and a line of prose is lost (`TabOverruns`,
  `TabHidesText`). `OffsetsRightIff` proves that the comments are those of the
  source if and only if in every node, before the start and before the end of
  each comment, as many characters were added as taken; without divided tabs
  that is: nothing was taken before the end of its last comment
  (`StayWithoutTabs`).
* The directory check of `collectSessionFormatMigrations` accepts leading zeros,
  but the manifest is read again from the directory without them: a package in
  `session-format-v01-to-v2` passes and then ends the script
  (`LeadingZeroPassesThenFails`).

## Model

| member | source | states |
|---|---|---|
| CycleFinder.Finder.constructor | scripts/package-graph.ts:94-100 | the empty search satisfies the search invariant |
| CycleFinder.Finder.LowerTo | scripts/package-graph.ts:109-118 | a low-link becomes the smaller number and no other changes; the `requiredValue` throw (146-150) is dead |
| CycleFinder.Finder.PopOne | scripts/package-graph.ts:119-132 | the newest stacked package leaves both the stack and the stacked set; the "lost its active component" throw is dead |
| CycleFinder.Finder.PopComponent | scripts/package-graph.ts:119-132 | the stack loses exactly the entries from the root upwards, listed newest first |
| CycleFinder.Finder.Enter | scripts/package-graph.ts:102-108 | numbering and stacking a package keeps the search invariant |
| CycleFinder.Finder.Follow | scripts/package-graph.ts:109-118 | one dependency, followed or skipped, keeps the invariant and the meaning of the low-link for the dependencies seen |
| CycleFinder.Finder.Finish | scripts/package-graph.ts:119-132 | the tail of a visit keeps the invariant, emitting a component when the low-link is the package's own number and leaving a correct low-link otherwise |
| CycleFinder.Finder.Visit | scripts/package-graph.ts:102-133 | a visit only adds to the search, numbers its package, and returns a low-link that is the least number reachable through the new stack entries |
| CycleFinder.Finder.Explore | scripts/package-graph.ts:135-137 | afterwards every package is numbered and nothing is active |
| CycleFinder.Finder.Explored | scripts/package-graph.ts:94-137 | the component list is exactly a partition of the remaining packages into strongly connected components |
| SccSearch.SeveredIsScc | scripts/package-graph.ts:119-132 | a stack suffix that no edge leaves downwards and that holds one active node is a strongly connected component |
| SccSearch.ScanSevers | scripts/package-graph.ts:109-119 | a finished scan whose low-link is the node's own number has cut its suffix off from the older stack |
| SccSearch.PopKeeps | scripts/package-graph.ts:119-131 | emitting such a suffix keeps the whole search invariant |
| SccSearch.ScanRetires | scripts/package-graph.ts:109-119 | a finished scan with a smaller low-link keeps the invariant and leaves its node on the stack with that low-link |
| CycleFinder.KeptMeans | scripts/package-graph.ts:138-143 | the filter keeps exactly the cyclic components without a remaining dependency outside themselves |
| CycleFinder.KeptAreAll | scripts/package-graph.ts:138-143 | filtering the partition yields every sink cycle of the graph exactly once |
| CycleFinder.SinkCycles | scripts/package-graph.ts:94-144 | the result is every cyclic component that no remaining dependency leaves, each once, each listing its packages once |
| Graphs.SinkScc | scripts/package-graph.ts:76-82 | from every node a component is reachable that no edge leaves |
| Ordering.Display.CompareIsComparison | scripts/package-graph.ts:152-158 | `comparePackages` is a total preorder, for any listed groups and any total string order |
| Ordering.Display.CompareMeans | scripts/package-graph.ts:152-158 | listed groups come before all others and in list order; within a rank group names decide, within a group short names |
| Ordering.Display.CompareAntisymmetric | scripts/package-graph.ts:152-158 | packages that compare equal have the same short name |
| PackageGraph.BlockedMeansCycle | scripts/package-graph.ts:73-82 | when packages remain and none is ready, a sink cycle exists, so the "could not order" throw is dead |
| PackageGraph.NextBlockUnique | scripts/package-graph.ts:72-87 | the block to place next is determined by the set of remaining packages |
| PackageGraph.OrderUnique | scripts/package-graph.ts:72-89 | the whole order is determined by the set of packages |
| PackageGraph.OrderSettled | scripts/package-graph.ts:60-90 | each dependency was placed before, stands earlier, or is mutually reachable with its dependent |
| PackageGraph.OrderContiguous | scripts/package-graph.ts:60-90 | packages between two members of one component belong to that component |
| TopoSort.CheckPeers | scripts/package-graph.ts:62-68 | the check passes exactly when every peer is in the repository, and otherwise names the first missing one, in the order of packages and of their lists |
| TopoSort.NextBlock | scripts/package-graph.ts:72-82 | the loop picks all ready packages in display order, or else the sink cycle with the least head; it always finds one |
| TopoSort.Place | scripts/package-graph.ts:83-87 | the block moves from the remaining packages to the output and to the placed names |
| TopoSort.TopoSort | scripts/package-graph.ts:60-90 | fails exactly on a missing peer, naming the first; otherwise ends and returns the layered order of its packages |
| TopoSort.OutputPermutes | scripts/package-graph.ts:60-90 | the output lists every short name once, and is a permutation of the input exactly when short names are unique |
| TopoSort.TwinIsLost | scripts/package-graph.ts:60-61 | of two packages with one short name the output has the second |
| TopoSort.LaterCounts | scripts/package-graph.ts:60-61 | of several packages with one short name the last is the one sorted |
| TopoSort.OutputRespectsGraph | scripts/package-graph.ts:60-90 | every dependency appears earlier than its dependent unless the two are mutually reachable, and every component is one contiguous block |
| TopoSort.MutualDepend | scripts/package-graph.ts:94-118 | mutually reachable packages are those from each of which a chain of listed dependencies leads to the other |
| TopoSort.AcyclicIsStrict | scripts/package-graph.ts:60-90 | without cycles every dependency strictly precedes its dependent |
| DependencyDepth.AcyclicIsByDepth | scripts/package-graph.ts:72-88 | without cycles the output is sorted by the length of the longest dependency chain below a package, and among equals by display order |
| DependencyDepth.BlockedBlock | scripts/package-graph.ts:76-82 | when every remaining package waits for another, the next block starts with the first in display order of those packages that everything they lead to leads back to, and holds just what leads to it and back |
| TopoSort.OutputCanonical | scripts/package-graph.ts:60-90 | every permutation of the same packages yields the same output |
| MinHeap.Smallest | scripts/coverage-partitions.ts:323-351 | of a position and its children, one whose bucket no other of them precedes; the right child only if its bucket precedes the left one's |
| MinHeap.SiftDown | scripts/coverage-partitions.ts:323-351 | a heap disturbed at one position becomes an ordered permutation of the bucket indices again |
| MinHeap.Place | scripts/coverage-partitions.ts:311-318 | the file goes to the bucket at the root, which no bucket at all precedes by (sum, file count); only that bucket changes and the heap stays ordered |
| MinHeap.RootIsLeast | scripts/coverage-partitions.ts:354-371 | the root of an ordered heap names a bucket that no other precedes |
| CoveragePartitions.PartitionWeight | scripts/coverage-partitions.ts:374-376 | the fold adds the map's weight for each recorded file and 1 for each other one |
| CoveragePartitions.WeightSumMeans | scripts/coverage-partitions.ts:374-376 | that sum is the sum of the map's weights over the recorded files plus the number of the others |
| CoveragePartitions.HeavierFirst | scripts/coverage-partitions.ts:303-305 | a recorded file is placed before every one of smaller recorded weight, before every unrecorded one if its weight exceeds 1 and behind it if it is below 1; files of one weight go by name |
| CoveragePartitions.LoadIsWeight | scripts/coverage-partitions.ts:311-318 | each tracked sum is the weight of the files in its bucket |
| CoveragePartitions.Fill | scripts/coverage-partitions.ts:306-320 | the loop places the first file in the first bucket and every file of the sorted list as a full scan for the leanest bucket would, and throws exactly on an empty heap |
| CoveragePartitions.AssignWeightedPartitions | scripts/coverage-partitions.ts:297-320 | the buckets are those of a longest-first run: files sorted by weight and name, each placed in a leanest bucket |
| CoveragePartitions.Conservation | scripts/coverage-partitions.ts:297-320 | the buckets of any assignment concatenate to a permutation of the files |
| CoveragePartitions.AllFilledIffEnoughFiles | scripts/coverage-partitions.ts:289-320 | every bucket is non-empty exactly when there are at least as many files as buckets, zero weights included |
| CoveragePartitions.OneFileLeavesOneEmpty | scripts/coverage-partitions.ts:289-320 | every run on one file and two partitions leaves one empty |
| CoveragePartitions.PartitionsAreBalanced | scripts/coverage-partitions.ts:297-320 | no file is lost or repeated, two partitions differ by at most the heaviest file, and all are filled exactly when there are enough files |
| Schedules.GreedyBound | scripts/coverage-partitions.ts:297-320 | against any assignment with loads up to t: at most (2 - 1/m)t in any order, at most (4/3 - 1/(3m))t longest first |
| Schedules.SpreadBound | scripts/coverage-partitions.ts:297-320 | after every placement two loads differ by at most one job's weight |
| CoveragePartitions.LptGuarantee | scripts/coverage-partitions.ts:297-320 | 3m times any partition's weight is at most 4m - 1 times the heaviest list of any other split of the same files into m lists |
| CoveragePartitions.ProjectsSplit | scripts/coverage-partitions.ts:388-393 | each file of a partition reaches exactly one of the two projects |
| CoveragePartitions.ProjectsByRecord | scripts/coverage-partitions.ts:392-393 | a path is included in the process-bound project exactly when a file of that path is recorded as process-bound, in the other exactly when one is not |
| CoveragePartitions.EveryFileIncluded | scripts/coverage-partitions.ts:388-411 | over all partitions and both projects each path is included exactly as often as its file is listed |
| CoveragePartitions.FirstEmpty | scripts/coverage-partitions.ts:486-494 | names the first partition without files, and none exactly when all have some |
| KeyPaths.ParsePath | scripts/gen-config-catalog.ts:232-245 | the steps are those of the path's segments, a member and then its array hops |
| KeyPaths.ReadWritten | scripts/gen-config-catalog.ts:232-245 | reading a written key path gives back its members and hops |
| KeyPaths.WrittenRead | scripts/gen-config-catalog.ts:232-245 | every path is the writing of what is read from it |
| KeyPaths.PathsDiffer | scripts/gen-config-catalog.ts:232-245 | two different paths never parse to the same steps |
| KeyPaths.StepsSpellPath | scripts/gen-config-catalog.ts:232-245 | the steps of a path spell it: a dot in front of each further name, a pair of brackets for each element |
| TypeSyntax.World.Resolve | scripts/gen-config-catalog.ts:283-304 | a name resolves to a declaration of the world or to nothing within reach |
| PathLookup.TypeSound | scripts/gen-config-catalog.ts:317-403 | for every choice of what opaque types and unspelled members contain and every state of `seen`, without `keyof` in reach: `found` implies that the type has the path when no key asked for is the spelling of a property of another name (nor, where members are inherited, declared by a member that is no plainly named property), and `missing` that it has not when whatever may declare a key asked for, or is spelled like one, is a plainly named property, the only one of that name in its list |
| PathLookup.DeclSound | scripts/gen-config-catalog.ts:322-362 | the same for interfaces with their heritage and for aliases, recursive ones included |
| PathLookup.PartsSound | scripts/gen-config-catalog.ts:367-376 | on the same premises each branch's verdict is right although the branches share one `seen` set |
| PathLookup.InterfaceHas | scripts/gen-config-catalog.ts:344-360 | an interface has a path through a member of its own, methods and unspelled names included, or through a base when no member of its own declares the first step |
| PathLookup.MoveMeans | scripts/gen-config-catalog.ts:363-403 | a type other than `keyof` has a path exactly when what the walk goes on to (members, parts, another type with the path left there, a declaration) has it |
| PathLookup.HaltMeans | scripts/gen-config-catalog.ts:363-403 | and the walk gives up at a type only where the unseen contents of that very type decide |
| PathLookup.FoundPartWins | scripts/gen-config-catalog.ts:367-369 | an intersection with a found part is found |
| PathLookup.FoundBaseWins | scripts/gen-config-catalog.ts:344-360 | an interface with a found base, and no member of the name, is found |
| PathLookup.WrappersByName | scripts/gen-config-catalog.ts:388-397 | `Partial`, `Required`, `Readonly` and `NonNullable` pass a path through, `Array` and `ReadonlyArray` take an element off it |
| TypeSyntax.FindsFirst | scripts/gen-config-catalog.ts:335-343 | of several property signatures spelled alike the first counts |
| PathBlindSpots.LiteralRightIff | scripts/gen-config-catalog.ts:335-343 | for one key of a type literal `missing` is right, whatever unspelled names stand for, exactly when no member declares the key and no index signature or computed name leaves it open; `found` is right exactly when some member, a method or accessor too, declares it |
| PathBlindSpots.MethodReportedMissing | scripts/gen-config-catalog.ts:335-360 | of an interface with the one method `onEvent` every key is reported missing, although it has `onEvent`, and no other key, under every choice of unseen contents |
| PathBlindSpots.QuotedNameMisread | scripts/gen-config-catalog.ts:335-343 | the key of a quoted property is reported missing although it is declared, and its quoted spelling found although it is not |
| PathBlindSpots.KeyofReportedFound | scripts/gen-config-catalog.ts:380 | a member of the operand of `keyof` is reported found, which the type need not have |
| PathLookup.UnionHas | scripts/gen-config-catalog.ts:370-376 | a union has a path exactly when every branch has it |
| PathLookup.IntersectionHas | scripts/gen-config-catalog.ts:367-369 | an intersection has a path exactly when some part has it |
| PathLookup.DeclSettled | scripts/gen-config-catalog.ts:317-403 | allowing deeper calls never changes an answer |
| PathPrecision.TypeAgrees | scripts/gen-config-catalog.ts:317-403 | a reading of the type without `seen` that meets nothing out of reach and enters no (declaration, remaining length) pair twice is the walk's verdict, and its entries are what the walk adds to `seen` |
| PathPrecision.DeclAgrees | scripts/gen-config-catalog.ts:322-362 | the same for declarations and their heritage |
| PathPrecision.ClearIsDefinite | scripts/gen-config-catalog.ts:317-403 | on such a reading the verdict is never `unknown`, and on the premises of soundness, which look only at the keys asked for, it is right whatever opaque types contain |
| PathPrecision.MissingIffClear | scripts/gen-config-catalog.ts:317-403 | the verdict is `missing` exactly when the reading, written out kind of type by kind of type, meets nothing out of reach and no pair twice and denies the path |
| PathSurvey.MissingIffNoRepeat | scripts/gen-config-catalog.ts:322-362 | where nothing is out of reach and nothing declares the path, the verdict is `missing` exactly when the list of (declaration, remaining length) pairs met, made kind of type by kind of type without `seen` and verdicts, has no repetition |
| PathSurvey.CleanIsAbsent | scripts/gen-config-catalog.ts:317-403 | where whatever may declare a key asked for is a plainly named property, a path for which every survey is clean is had by nothing |
| PathExactness.VerdictExact | scripts/gen-config-catalog.ts:317-403 | where what may declare a key asked for is plainly named, and no (declaration, remaining length) pair comes up twice: `found` exactly when all contents of opaque types give the path, `missing` exactly when none do even if some branch of each union suffices, `unknown` exactly otherwise |
| PathExactness.AgentsSeen | scripts/gen-config-catalog.ts:363-379 | on `interface C { agents: { id: string }[] }` the path `agents[].id` is found and `agents[]` with any other name behind it missing |
| LooseReading.DeclLoose | scripts/gen-config-catalog.ts:370-376 | reading every union as what some branch has changes no `missing` |
| PathPrecision.DiamondHasNoX | scripts/gen-config-catalog.ts:344-360 | two bases with a common empty base give a declaration that has no member `x` |
| PathPrecision.DiamondIsUnknown | scripts/gen-config-catalog.ts:322-362 | the walk of that declaration answers `unknown` for `x`, because it enters the common base twice |
| PathGrowth.ShortRoute | scripts/gen-config-catalog.ts:381-387 | where no cycle through members asked for lengthens the path, every route has one no longer than the number of declarations that lengthens it at least as much |
| PathTermination.WalkReturns | scripts/gen-config-catalog.ts:317-403 | the walk returns wherever no cycle of declarations through members and elements that the path or an indexed access can ask for lengthens the path (an index adds a step, a member or an array element takes one off), mutually recursive declarations included |
| PathTermination.WalkAnswers | scripts/gen-config-catalog.ts:317-403 | such a walk has one verdict, the same at every sufficient depth, and right on the premises of soundness |
| PathTermination.ReturnedIsRight | scripts/gen-config-catalog.ts:317-403 | whenever a walk returns, growing cycles or not, every greater depth gives the same verdict, and it is right on those premises |
| PathTermination.SelfMemberReturns | scripts/gen-config-catalog.ts:335-387 | every walk of `interface A { x: any; y: A['x'] }` returns, and whatever is asked for no cycle of it lengthens the path |
| PathDivergence.GrowingAliasesNeverReturn | scripts/gen-config-catalog.ts:361-387 | on a cycle of aliases that lengthens the path no depth of calls suffices for any path |
| PathDivergence.AliasesReturnIff | scripts/gen-config-catalog.ts:361-387 | among aliases without members and arrays every walk returns exactly when no cycle lengthens the path |
| PathDivergence.SelfIndexedNeverReturns | scripts/gen-config-catalog.ts:381-387 | on `type A = A['x']` no depth of calls suffices |
| PathRounds.RoundsNeverReturn | scripts/gen-config-catalog.ts:335-387 | on a cycle of distinct declarations, through members, elements, wrappers and indexed accesses, that leads without a choice back to its start with the steps for its members renewed and more behind them, no depth of calls suffices, whatever path follows |
| PathRounds.SelfFedNeverReturns | scripts/gen-config-catalog.ts:335-387 | on `interface A { y: A['y']['y'] }` no depth suffices for `y` and any rest behind it |
| PathWalker.Walker.WalkType | scripts/gen-config-catalog.ts:317-403 | where the specified walk returns, the recursive calls over the shared mutable set end, compute its verdict and leave its set |
| PathWalker.Walker.WalkDecl | scripts/gen-config-catalog.ts:322-362 | entering a declaration marks its (declaration, remaining length) key and gives the specified verdict |
| PathWalker.Walker.WalkMember | scripts/gen-config-catalog.ts:335-343 | descending into a member gives the specified verdict |
| PathWalker.Walker.WalkParts | scripts/gen-config-catalog.ts:367-376 | every branch is walked, left to right, before the verdicts are combined |
| PathWalker.Walker.WalkBases | scripts/gen-config-catalog.ts:348-359 | every base is walked, computed bases counting as unknown |
| PathWalker.LookUp | scripts/gen-config-catalog.ts:759-763 | a schema key path is parsed and looked up with a fresh set; where no cycle its keys can follow lengthens the path it ends, with the verdict of every sufficient depth, right on the premises of soundness and exact on that of VerdictExact |
| PasteClosure.TakeImport | scripts/gen-config-catalog.ts:664-717 | an import is listed once under its name, and a complaint is made only when it is so; the order of the pastes is kept |
| PasteClosure.TakeLocal | scripts/gen-config-catalog.ts:664-717 | a declaration under a new name is pasted once, behind those before it, and what it mentions is queued in order; any other turn pastes nothing, and complains only when it is so |
| PasteClosure.Collect | scripts/gen-config-catalog.ts:664-717 | the worklist ends; every name is pasted once; no violation exactly when every reachable name is found and equal names have one origin, and each violation names a use that breaks this in the way it says; without violations pastes and references are disjoint, cover every reachable use, and the pastes stand in the order of first mention by the config type and then by one paste after the other |
| WorkerPool.StepKeeps | scripts/benchmark-next-package-dependency.ts:182-199 | every step of every worker keeps the pool's invariant |
| WorkerPool.EveryRun | scripts/benchmark-next-package-dependency.ts:182-199 | in every interleaving min(jobs, n) workers run, indices are claimed once and in order, at most jobs and at most n operations are under way, none twice, and stored results are the operation's own |
| WorkerPool.LimitReached | scripts/benchmark-next-package-dependency.ts:188-196 | on defined values some interleaving has min(jobs, n) operations under way at once |
| WorkerPool.SomeStepEnabled | scripts/benchmark-next-package-dependency.ts:182-199 | while a worker has not ended some step is possible |
| WorkerPool.RunsEnd | scripts/benchmark-next-package-dependency.ts:182-199 | no run takes more than two steps a value and one a worker |
| WorkerPool.ResolvesIffNoneRejected | scripts/benchmark-next-package-dependency.ts:188-198 | once all workers have ended the call resolves exactly when no operation on a claimed value rejected |
| WorkerPool.CompleteIff | scripts/benchmark-next-package-dependency.ts:182-199 | the resolved results are complete exactly when a worker runs (or there is nothing to do) and no value is undefined |
| WorkerPool.UndefinedEndsWorker | scripts/benchmark-next-package-dependency.ts:189-195 | one worker on an undefined value and a number can resolve without mapping the number |
| WorkerPool.NoWorkerResolves | scripts/benchmark-next-package-dependency.ts:188-189 | a limit of zero resolves without results |
| DigestFraming.FieldSplits | scripts/client-build-environment.ts:336-343 | a length-prefixed field can be split off in one way only |
| DigestFraming.StreamInjective | scripts/client-build-environment.ts:336-344 | artifact lists that feed the hash the same bytes are the same list, for arbitrary bytes |
| DigestFraming.OneFileStream | scripts/client-build-environment.ts:339-342 | the file `a` with the content `bc` feeds `1:a2:bc` |
| DigestFraming.Digest.UpdateField | scripts/client-build-environment.ts:339-342 | a length and a colon are fed before the bytes themselves |
| DigestFraming.FeedArtifacts | scripts/client-build-environment.ts:329-345 | the hash is fed exactly the framed artifacts, and no artifact at all is an error |
| GitBatch.ReadAnswerSound | scripts/benchmark-npm-resolution.ts:154-167 | an accepted answer re-encodes to the bytes that were read |
| GitBatch.ReadAnswerComplete | scripts/benchmark-npm-resolution.ts:154-167 | an announced answer is read back whole, whatever follows it |
| GitBatch.ReadAnswerFails | scripts/benchmark-npm-resolution.ts:155-164 | an answer is refused for the reason stated: no line, a line that ends in ` missing`, no usable size, no line feed behind the content |
| GitBatch.TwoBytesRead | scripts/benchmark-npm-resolution.ts:154-167 | `a1 blob 2`, a line feed, `xy` and a line feed are read as the content `xy` |
| GitBatch.SizesRead | scripts/benchmark-npm-resolution.ts:159-162 | a negative size or a missing one is unusable, and behind the digits anything may follow |
| GitBatch.ContentsAt | scripts/benchmark-npm-resolution.ts:165 | each path has the content of its answer, the later one if it is asked for twice |
| GitBatch.HeaderAnnounces | scripts/benchmark-npm-resolution.ts:145-169 | a header `<id> <type> <size>` announces its content, embedded newlines and all |
| GitBatch.ReadGitFiles | scripts/benchmark-npm-resolution.ts:145-169 | an accepted stream begins with announced answers, one a path, whose contents are the result; every such stream is accepted with just those; otherwise the first path without an answer is named with the reason |
| MarkdownDestination.LabelEnd | scripts/markdown.ts:90-104 | the loop computes the stopping place of the bracket scan |
| BracketScan.LabelStops | scripts/markdown.ts:90-104 | the scan ends at the bracket behind a label exactly when the label's unescaped brackets balance |
| BracketScan.BalancedByCount | scripts/markdown.ts:90-104 | balanced means: escaped brackets left out, as many opened as closed, none closed that is not open, and no backslash at the end |
| MarkdownDestination.LabelFound | scripts/markdown.ts:90-104 | in a link, image or definition the label's end is found exactly when its brackets balance |
| MarkdownDestination.SkipWhitespace | scripts/markdown.ts:84-88 | stops at the first character that is no white space |
| MarkdownDestination.AngleRange | scripts/markdown.ts:122-128 | the loop finds the first unescaped closing angle bracket |
| MarkdownDestination.BareRange | scripts/markdown.ts:129-140 | the loop finds the closing parenthesis or outer blank that ends the destination, or the end |
| MarkdownDestination.GapSkipped | scripts/markdown.ts:109-121 | behind a correctly found label the scan starts at the destination, or within blanks that it begins with; only the mark of a block quote in the gap stops it before |
| MarkdownDestination.DestinationRange | scripts/markdown.ts:106-141 | the range or the error that the scans determine |
| MarkdownDestination.ErrorsMean | scripts/markdown.ts:106-141 | each error is reported exactly on its cause: no label, no colon behind a definition's, no parenthesis behind another; and an angle bracket is called unclosed only when just escaped ones follow |
| MarkdownDestination.RangeIsDestination | scripts/markdown.ts:106-141 | for every well-formed link, image or definition, in block quotes too, the range is exactly the destination's span if and only if the label's brackets balance, no quote mark stands in front of the destination, it has no blank outside parentheses, and no blank follows a backslash at its end |
| MarkdownDestination.SpanIsName | scripts/markdown.ts:143-152 | the span holds the destination as written, without angle brackets |
| MarkdownDestination.NoBreakSpaceCutsShort | scripts/markdown.ts:136-138 | a destination with U+00A0 in it is cut short |
| MarkdownDestination.CodeSpanBracketMisleads | scripts/markdown.ts:90-104 | a bracket in a code span of the label misleads the scan |
| MarkdownDestination.QuoteMarkMisleads | scripts/markdown.ts:118-121 | for a destination on the second line of a block quote the quote mark is found |
| MarkdownDestination.BackslashRunsOn | scripts/markdown.ts:129-132 | behind a destination that ends in a backslash the range goes on |
| Splice.Apply | scripts/project-doc-site.ts:196-200 | replacing disjoint ranges from the highest start downwards equals substituting them all at once |
| Splice.UntouchedText | scripts/project-doc-site.ts:196-200 | text that no range touches comes through unchanged |
| Splice.ReplacedText | scripts/project-doc-site.ts:196-200 | a range turns into its value, whatever is replaced elsewhere |
| LinkRewriting.Rewriter.RewriteNode | scripts/project-doc-site.ts:162-186 | a node whose destination is to be rewritten adds its located range, or the error; any other adds nothing |
| LinkRewriting.Rewriter.Visit | scripts/project-doc-site.ts:188-194 | depth first, a reference before its label, every node is collected once |
| LinkRewriting.Places | scripts/project-doc-site.ts:160-194 | the ranges collected from a printed document are disjoint, nested labels included, whatever the kept references look like |
| LinkRewriting.AllYield | scripts/project-doc-site.ts:160-201 | wherever a document stands in a text, its own replacements turn it into the rewritten document |
| LinkRewriting.SubstitutedIsRewritten | scripts/project-doc-site.ts:160-201 | the collected replacements, made at once, print the document with its new destinations |
| LinkRewriting.RewrittenIsRetargeted | scripts/project-doc-site.ts:160-201 | the rewritten text is the text of the same document with the new destinations in place of the old |
| LinkRewriting.CollectionFails | scripts/project-doc-site.ts:160-194 | collecting fails exactly when a destination to be rewritten cannot be located, with the error of the first such |
| LinkRewriting.RewriteMarkdown | scripts/project-doc-site.ts:156-201 | for every document in which the destinations to be rewritten can be located the result is the document with exactly those replaced, nothing being asked of kept references; it fails exactly when a range to rewrite cannot be located, with the first such error |
| HtmlComments.FindComments | scripts/markdown.ts:205-216 | the loop lists the comments of one HTML value |
| HtmlComments.CommentsFound | scripts/markdown.ts:205-216 | that list is the only one in which each comment opens at the first opener behind the one before and runs to its first closer, or to the end |
| HtmlComments.CommentsRead | scripts/markdown.ts:205-216 | the comments of a stretch of the source and those of the node's value correspond one to one, each at the place that the characters taken and added before it give |
| HtmlComments.CommentsStayIff | scripts/markdown.ts:205-216 | the comments of a value have the offsets of the source exactly when before the start and the end of each as many characters were added, as the rest of a divided tab, as containers took |
| HtmlComments.StayWithoutTabs | scripts/markdown.ts:205-216 | where no tab is divided that is: exactly when nothing was taken before the end of a comment |
| HtmlComments.OffsetsRightIff | scripts/markdown.ts:203-216 | all comments the script collects are those of the source exactly when that holds of every HTML node |
| HtmlComments.DriftLosesCloser | scripts/markdown.ts:205-216 | a comment over two lines of a block quote is taken to end two characters early |
| HtmlComments.TabOverruns | scripts/markdown.ts:205-216 | a comment over two lines of a list item, the second indented by a tab, is taken to end one character late |
| CommentColumns.DriftShowsCloser | scripts/markdown.ts:203-248 | its second line counts as prose though all of it lies in the comment |
| CommentColumns.TabHidesText | scripts/markdown.ts:203-271 | the text behind that comment is outside of it, but its line does not count as prose |
| CommentColumns.LineInSource | scripts/markdown.ts:218-232 | line i is the stretch of the source at its running offset, up to a line feed or the end |
| CommentColumns.ColumnIsOffset | scripts/markdown.ts:218-234 | a column is covered exactly when its source offset lies in a comment |
| CommentColumns.HtmlCommentRanges | scripts/markdown.ts:203-235 | each line is listed with the columns every comment covers, and not at all when no comment touches it |
| CommentColumns.VisibleText | scripts/markdown.ts:238-247 | the visible text is the uncovered characters, for overlapping and unsorted ranges |
| CommentColumns.HasRenderedTextOutsideComments | scripts/markdown.ts:238-248 | true exactly when the line is untouched or an uncovered character is no white space |
| CommentColumns.TextByOffset | scripts/markdown.ts:218-248 | what is left of a line by its columns is what is left of it by source offsets |
| CommentColumns.KeptExactly | scripts/markdown.ts:255-271 | the specified list holds exactly the prose lines, once and in order |
| CommentColumns.MarkdownProseLines | scripts/markdown.ts:255-271 | a line is kept exactly when it is outside code and either no comment touches it or a non-blank character of it lies in no comment; the comments are those the script collects, and those of the source when no node drifted |
| SessionMigrations.Declare | scripts/gen-session-format-catalog.ts:68-105 | a manifest is accepted exactly when all its fields are there, it migrates one version, and name and directory have its numbers; each field of the declaration is that of the manifest under its own name, the import path by the two cases of the export |
| SessionMigrations.PackageNamesSpelled | scripts/gen-session-format-catalog.ts:82-85 | the package names of the first eleven migrations, spelled out |
| SessionMigrations.DeclareAll | scripts/gen-session-format-catalog.ts:68-105 | all manifests are declared, or the first bad one is reported |
| SessionMigrations.CheckVersions | scripts/gen-session-format-catalog.ts:107-116 | passes exactly when each version below the current one has one start, none lies beyond, and the count fits |
| SessionMigrations.PositionIsVersion | scripts/gen-session-format-catalog.ts:106-116 | sorted, those checks force position i to migrate version i |
| SessionMigrations.CheckWiring | scripts/gen-session-format-catalog.ts:117-147 | passes exactly when catalog and packages declare the needed dependencies, the manifests to read again are where the script looks for them, and neighbouring codecs agree |
| SessionMigrations.ArrangementIsSorted | scripts/gen-session-format-catalog.ts:106-147 | any arrangement into a chain is the sorted one |
| SessionMigrations.Collect | scripts/gen-session-format-catalog.ts:63-149 | an inventory is accepted exactly when its declarations can be arranged into a wired gapless chain, and that chain is the result |
| SessionMigrations.ManifestsWired | scripts/gen-session-format-catalog.ts:117-147 | in an accepted inventory the catalog depends on every package and shares the Session package, each package depends on its predecessor and goes on from its codec, and its directory has the plain numerals |
| SessionMigrations.LeadingZeroPassesThenFails | scripts/gen-session-format-catalog.ts:86-89 | a directory with a leading zero passes its check, and no catalog is wired to it |
| SessionMigrations.MigrationReachesCurrent | scripts/gen-session-format-catalog.ts:106-147 | from any version v the chain reaches the current one in current - v steps |
| SessionMigrations.CatalogByVersion | scripts/gen-session-format-catalog.ts:157-212 | an accepted chain is rendered unless it is empty; entry v of the codecs, migrations and imports is that of version v, the last codec encodes, and the last package restores and validates |
| SessionMigrations.CatalogFromManifests | scripts/gen-session-format-catalog.ts:63-212 | for every version exactly one manifest of an accepted inventory starts there, and the rendered file holds its codecs, migration, import path and imported names at that version, and for the last one its restorer, header validator and encoder |
| SessionMigrations.ImportsAreTheNamesUsed | scripts/gen-session-format-catalog.ts:157-212 | the names imported from the inventory are exactly those the rendered body uses |

## Left out

- File, Git, network and process work: globbing, spawning, reading manifests and writing reports. The models take what those return.
- JSON, TypeScript, YAML and Markdown parsing. Parsed nodes, their offsets and resolved names are inputs; a document in LinkRewriting is given as its parse tree, whose printing is its source.
- The hash function itself, UTF-8 decoding and UTF-16: contents stay bytes, and a text is a sequence of characters, one per position.
- Locale collation: any total string order that tells different strings apart; the library sort is modelled as a stable insertion sort.
- Weights are reals without rounding or not-a-number.
- Buckets are slots of an array, so the model does not show objects shared between the heap and the result.
- An asynchronous worker's work between two awaits is one step.
- TypeSyntax.World.Resolve: generic parameters, declaration merging and the search itself (local, relative and package imports, chains of re-exports in `findExportedTypeDecl`) are left out: name resolution is a finite map with one declaration a name, so a wrongly resolved name is not captured.
- A declaration of one's own named `Partial`, `Array` or like another of the library's wrappers: the script, and the meaning of types here, take the name for the library's.
- PathLookup.TypeSound: stated for walks that return within a depth of calls; PathTermination.ReturnedIsRight holds for all walks that return, and WalkAnswers says when they do.
- PathRounds.RoundsNeverReturn: growing cycles that pass a base, a union or an intersection, or that need further steps of the path itself, are not covered; whether a walk on them returns is left open.
- PathWalker.Walker.WalkType: the size of the call stack; a walk that returns is taken to have room for its calls.
- PasteClosure.Collect: the violations' texts are left out, only which uses they name is kept; and so are the violations about member documentation that `checkMemberDocs` adds in the same loop.
- MarkdownDestination.RangeIsDestination: a definition's label is required to hold no unescaped bracket, as section 4.7 of the CommonMark standard does; a code span in a label counts as plain text, as for the script.
- LinkRewriting.RewriteMarkdown: which destination replaces which (routes, locales, images, suffixes) is an input.
- SessionMigrations.Declare: whether a value is a safe integer or a non-empty string is an input.
- SessionMigrations.ImportsAreTheNamesUsed: two packages that export one identifier would give imports that clash; neither the script nor the model excludes it.
- Rendered texts: Mermaid graphs, catalog pages, partition configs and generated TypeScript, beyond the names and lists in them.
- `foldComposed`, `discoverBenchmarkCandidates` and the other worklists over graphs, which repeat the closure argument of PasteClosure.
- Catalogs and policy checks that are tables, counts or a single branch.
