# Lablet's gate runner and capture tools, modelled

This project models the decisions that lablet's `xtask` gate runner and its parity-capture scripts make, and
proves what they promise over every input, run and reachable state:

- **The exact mutation floor** (`Mutants`, `MutationFloor`, `MutationSummaries`, `MutationRun`): outcomes are matched
  greedily with a list of mutants named as equivalent, and the verdict turns out to be a comparison of two bags, told
  here by the summaries of the outcomes. `WholeFileDiff` is the diff of a new file, with a reader that recovers the files.
- **The live check** (`References`, `ConfigVariables`, `ListenerTrace`, `Listener`, `LiveReport`): the scanner for
  `${NAME:-default}`, the environments handed on, the checker's lifecycle against an outside that may exit, hang
  or answer at any moment, and the findings in its report.
- **The layer lint** (`Layers`, `LayerRules`): an edge-by-edge check, its rules told by directory and by the parts of a
  crate's name, and what it guarantees of whole chains of dependencies.
- **The generated trees** (`FileTree`, `GeneratedTrees`, `Installing`, `Generating`): routing, rendering, installing
  and comparing, over a file system whose every operation may be refused, clearing the stage among them.
- **The floors' own rules** (`Floors`): exact shares and how they're printed, production files found by a work
  list, and the scan for misplaced test code.
- **The capture scripts**: a request's skeleton, what edits keep it and exactly what it shows (`Skeleton`,
  `SkeletonSizes`, `SkeletonParameters`, `SkeletonKeeps`, `SkeletonEdits`, `SkeletonShows`, `SkeletonRequests`), paths
  and metadata taken out of a capture (`Redact`, `RedactRun`), and the sequences of the mock API (`MockUpstream`,
  `MockGrammar`).
- **Two text functions of the CLI** (`Diagnostics`, `Report`).

`Text`, `Json` and `Order` hold what the others share. Code that works step by step is a method proved against a
function or a predicate; what that function or predicate comes to is proved in lemmas beside it, down to the texts, the
names and the characters that decide. Outside programs, clocks, and what a library decides (UTF-8, JSON and YAML parsing,
Unicode classes) are parameters or open choices.

Four promises of the source turn out to hold under a condition only, and the condition is proved exact:

- A whole-file diff is undone by a reader exactly when the path holds neither a tab nor a newline
  (`WholeFileDiff.ReadsBackExactlyWhenCarried`; `WholeFileDiff.ATabDoesntReadBack` is one that isn't).
- A path that leaves some character out, as each does NUL, is gone from every text the redaction loop is through with
  exactly when it may share no character with the mark `<CWD>`, which an absolute path without a `<` never does
  (`Redact.GoneFromAllExactlyWhenItMissesTheMark`). A single replacement takes a few paths more away, and exactly which
  is `Redact.GoneExactlyWhenItMissesTheMark`; the mark of a later spelling may bring such a one about again
  (`Redact.MeetingIsNotEnough`). A path that is a part of the mark, as `CWD` is, goes from no text that holds it
  (`Redact.PartOfTheMarkStays`).
- Written trees are the rendering exactly when clearing the stage left nothing else there, since a refusal to clear it
  is passed over (`Generating.Write`); a file that's left over is installed (`Generating.ALeftoverIsInstalled`).
- Replacing a text inside a tool's input or schema keeps the skeleton exactly when the new text is written by
  `json.dumps` at the same length (`SkeletonShows.InputTextsCountAsWritten`,
  `SkeletonRequests.SchemaTextsCountAsWritten`). The script's own description speaks of byte length, which isn't enough
  (`SkeletonEdits.BytesAreNotEnough`), but is right between plain texts (`SkeletonShows.PlainInputTextsCountAsBytes`).

## Model

| member | source | states |
|---|---|---|
| Mutants.DescriptionUndoesPrinting | xtask/src/mutants.rs:62-68 | for every file, line, column and text, `: ` in the text included, the description of a printed name is the text |
| Mutants.DescriptionIsThePrinted | xtask/src/mutants.rs:62-68 | a name has a description exactly when it is the mutant's file, a number, a number and that text |
| Mutants.NamingIgnoresPosition | xtask/src/mutants.rs:71-75 | whether an entry names a mutant doesn't turn on its line or column |
| Mutants.Judge | xtask/src/mutants.rs:186-258 | the nested loops over crates and outcomes, raising one flag for each excused mutant, compute the ledger; what it holds is told by bags, and by the outcomes' summaries, in the rows below |
| MutationFloor.MatchingIsOptimal | xtask/src/mutants.rs:192-250 | per key, as many are excused as the lesser of what was missed and what is named; excused and escaped together are all that was missed or got no verdict |
| MutationFloor.EachTally | xtask/src/mutants.rs:195-249 | crate by crate, caught, excused and escaped add up to viable, and the excused are a difference of two bags |
| MutationFloor.NothingStale | xtask/src/mutants.rs:251-257 | in a full run excused and stale make up the named list, and none is stale exactly when the named bag is within the missed bag |
| MutationFloor.FullRunIsExact | xtask/src/mutants.rs:186-258 | a full run passes exactly when the bag of missed mutants is the named bag, every mutant got a verdict, and every crate with code has a viable one |
| MutationFloor.ScopedRunIsInclusion | xtask/src/mutants.rs:186-258 | a scoped run passes exactly when the missed bag is within the named bag and every mutant got a verdict |
| MutationFloor.DistinctCratesCountOnce | xtask/src/mutants.rs:209-211 | with distinct packages the bags above count each outcome of a floor crate once |
| MutationFloor.PartOfAPassingRunPasses | xtask/src/mutants.rs:413-427 | any part of the outcomes of a passing full run passes a scoped run |
| MutationFloor.OrderFree | xtask/src/mutants.rs:205-247 | the order of the outcomes and of the entries changes no crate's counts, nor how many entries are stale, nor the verdict |
| MutationSummaries.LinesCountSummaries | xtask/src/mutants.rs:211-249 | a crate's line counts as caught its mutants summarised `CaughtMutant`, and as viable all but the `Unviable` |
| MutationSummaries.NoVerdictFails | xtask/src/mutants.rs:234-237 | a mutant of a floor crate that timed out, or is summarised as anything but caught, missed or unviable, fails the run, whatever is named |
| MutationSummaries.AnUnnamedMissFails | xtask/src/mutants.rs:216-233 | so does a `MissedMutant` that no entry names |
| MutationSummaries.NotBuiltIsNotCounted | xtask/src/mutants.rs:205-238 | an outcome of the baseline, or summarised `Unviable`, changes nothing of the verdict |
| MutationSummaries.EscapedAreTold | xtask/src/mutants.rs:216-237 | each line told of as escaped is of one of the crate's own mutants, by its name and how it ended, and never of one caught or not built; every one without a verdict is told |
| MutationRun.Conclude | xtask/src/mutants.rs:264-341 | the result passes exactly when no crate fails and nothing is stale, and otherwise counts the failing crates and lists what escaped and what is stale, in order |
| MutationRun.Output.TestMutants | xtask/src/mutants.rs:374-395 | the outcomes read are those this run wrote, none when it wrote none, never an earlier run's; a report that can't be read fails |
| MutationRun.RunsAreRead | xtask/src/mutants.rs:374-395 | a run's outcomes are read exactly when it ended with 0, 2 or 3 and its report can be read or is not there, and each other run fails for its own reason |
| MutationRun.Output.Check | xtask/src/mutants.rs:405-411 | the full step passes exactly when its own report can be read, or there is none, and its outcomes meet the exact floor |
| MutationRun.Output.TestChanged | xtask/src/mutants.rs:431-461 | an empty diff runs nothing; a diff that can't be written or a directory that can't be made fails ahead of any run; otherwise the step passes exactly on inclusion, and notes when nothing was viable |
| MutationRun.AnEmptyRunMeasuresNothing | xtask/src/mutants.rs:600-607 | a run that wrote no report passes the full floor only when nothing is named and no crate holds code |
| WholeFileDiff.AddedFile | xtask/src/mutants.rs:563-581 | the pushed diff is five header lines, each line behind a `+`, and the marker when the last has no newline; nothing for an empty text |
| WholeFileDiff.OneFileReadsBack | xtask/src/mutants.rs:559-581 | a reader going by the header's count gets the file back and goes on with the lines after it |
| WholeFileDiff.DiffReadsBack | xtask/src/mutants.rs:559-581 | any files' diffs, one after the other, read back as those files in order, less the empty ones |
| WholeFileDiff.AddedFiles | xtask/src/mutants.rs:552-556 | so does what the scoped run's loop pushes for its untracked files |
| WholeFileDiff.ReadsBackExactlyWhenCarried | xtask/src/mutants.rs:568-571 | one file's diff reads back exactly when its path holds neither a tab nor a newline |
| WholeFileDiff.ATabDoesntReadBack | xtask/src/mutants.rs:568-571 | a file named with a tab doesn't read back |
| WholeFileDiff.TheTabIsForSpaces | xtask/src/mutants.rs:559-568 | a path without a tab is read whole off its line exactly when it holds no space, and otherwise up to the first |
| References.ReferencesIn | xtask/src/live_check.rs:526-544 | the loop that advances over the text computes the scan the lemmas below are about |
| References.NamesAre | xtask/src/live_check.rs:553-561 | a name is ASCII letters, digits and underscores, and begins with no digit |
| References.SpansAreApart | xtask/src/live_check.rs:526-544 | on any text the spans found are well formed, in order and apart |
| References.ScanReadsBack | xtask/src/live_check.rs:523-544 | scanning what a list of texts, escapes, references and lone dollars renders to gives exactly its references, in place |
| References.EveryTextHasParts | xtask/src/live_check.rs:523-544 | every text is such a rendering |
| References.ScanIsTheGrammar | xtask/src/live_check.rs:523-544 | so on any text what's found is exactly the references of its parts |
| References.KeyNameIsOneReference | xtask/src/live_check.rs:476-479 | a key's text names a variable exactly when it is one whole, well-formed reference |
| ConfigVariables.KeyVariableIsItsWholeText | xtask/src/live_check.rs:472-487 | a config names its key's variable exactly when `model.api_key` is a text that is one whole reference to it |
| ConfigVariables.Walk | xtask/src/live_check.rs:492-505 | the recursive walk adds exactly the names in the texts of a value, at any depth |
| ConfigVariables.NamedVariables | xtask/src/live_check.rs:491-521 | the set is exactly the names in texts at paths other than `prompt.system` and `prompt.system_file` at the root |
| ConfigVariables.SetIn | xtask/src/live_check.rs:404-414 | the environment is exactly the listed variables that are set, with their values, each once, in first-mention order |
| ConfigVariables.HandedToWeaver | xtask/src/live_check.rs:419-422 | the checker gets exactly the set variables of its allowlist, never the key, each once and in the list's order |
| ConfigVariables.HandedToABuild | xtask/src/live_check.rs:427-430 | the build gets exactly the set variables of its allowlist, never the key, each once and in the list's order |
| ConfigVariables.HandedToARealRun | xtask/src/live_check.rs:437-449 | the real run gets exactly the set variables of allowlist, config and key, each once, in first-mention order |
| ListenerTrace.AtMostTwoSpawns | xtask/src/live_check.rs:914-923 | no allowed trace starts more than two checkers |
| ListenerTrace.SecondOnlyAfterTheFirstExited | xtask/src/live_check.rs:910-923 | a second is started only once the first was seen to exit and was reaped, having neither answered nor been run against |
| ListenerTrace.RunsOnlyOnceReady | xtask/src/live_check.rs:925-933 | a run is made only against the ports of a checker that answered as ready and that nothing has stopped since |
| ListenerTrace.JudgesOnlyAWholeReport | xtask/src/live_check.rs:990-1004 | a report is judged only once the checker was asked to stop and seen to exit, and is one this step's checker wrote |
| Listener.World.AtMostOneAlive | xtask/src/live_check.rs:900-908 | in every reachable state at most one checker is alive |
| Listener.Listener.AwaitReady | xtask/src/live_check.rs:974-988 | ready, or exited first, or stalled once the time has passed, and reaped unless ready; the polls are bounded by the time over the pause, and two |
| Listener.Listener.WaitUntil | xtask/src/live_check.rs:1006-1017 | the exit is seen, or the whole time has passed; the polls are bounded likewise |
| Listener.Listener.Stop | xtask/src/live_check.rs:993-1004 | asked and seen to exit, or else killed and reaped; nothing is left alive |
| Listener.Listener.StopNow | xtask/src/live_check.rs:1026-1032 | nothing is left alive, whatever was going on |
| Listener.Started | xtask/src/live_check.rs:925-933 | one checker at the most is started, serving on success and gone on failure, and each failure has its own cause: no ports, no program, an early exit seen, or the whole time waited |
| Listener.Start | xtask/src/live_check.rs:914-923 | an early exit is always followed by a second start and never by a third, and every other failure is final: it fails by exiting exactly when two checkers exited, by stalling only once the time to be ready has passed, and otherwise exactly for what the outside withheld |
| Listener.Listened | xtask/src/live_check.rs:604-620 | from the start to the report: on success every run was made and the report judged is the one there is, and each failure is accounted for |
| Listener.RunAgainst | xtask/src/live_check.rs:601-616 | every run is made while the checker serves, and the report is one a checker of the trace wrote |
| Listener.Judge | xtask/src/live_check.rs:585-620 | on every way out no checker is alive, a run directory the step made is gone unless its removal was refused, and the trace is an allowed one; what is judged was written by a checker this call started; and with nothing withheld it fails only for want of a report, after two early exits, or after a wait that was waited out |
| LiveReport.Walk | xtask/src/live_check.rs:1186-1212 | the walk pushes every piece of advice of a value, its own ahead of those nested in it, and fails on the first that can't be read |
| LiveReport.Findings | xtask/src/live_check.rs:1185-1219 | the findings are every piece read, violations first, and of one rank in the order found; none when a piece can't be read |
| LiveReport.PiecesAreTheAdvice | xtask/src/live_check.rs:1188-1204 | a piece is found exactly when it's advice on a value at some path that doesn't pass through a result |
| LiveReport.RanksAre | xtask/src/live_check.rs:1163-1170 | a finding is told ahead of another exactly when it is a violation and the other none, then so for improvements, then for information |
| LiveReport.JudgeReport | xtask/src/live_check.rs:1185-1269 | a report is judged exactly when every piece of advice in it, wherever it stands, can be read; with a violation counted, what is told is the findings of exactly those pieces, violations first; and it passes exactly when none is counted and as much was seen as the runs emit |
| Layers.RingIsUnique | xtask/src/lint_layers.rs:69-77 | no path is in two rings, so the order of the table decides nothing |
| LayerRules.RingsByDirectory | xtask/src/lint_layers.rs:69-77 | a crate is in a ring exactly when it lives in that ring's directory, each of the seven written out, and in none otherwise |
| LayerRules.EdgesInPlain | xtask/src/lint_layers.rs:81-103 | which ring may depend on which, ring by ring |
| LayerRules.FamiliesInPlain | xtask/src/lint_layers.rs:117-143 | which crates a ring may not use, by the parts of the name between dashes of either kind |
| LayerRules.ResolvesInPlain | xtask/src/lint_layers.rs:304-343 | an entry is a member, a registry crate or one of four gaps exactly as its own table and the workspace's say |
| LayerRules.FindingsAreTheBreaches | xtask/src/lint_layers.rs:237-294 | on any workspace a finding is made exactly when the manifests hold that breach, told by directories, edges and parts of names |
| Layers.Lint | xtask/src/lint_layers.rs:237-294 | the nested loops find nothing exactly when every member is in a ring and no entry breaks a rule, and compute the list whose every finding `LayerRules.FindingsAreTheBreaches` tells |
| Layers.NoFindingsIsClean | xtask/src/lint_layers.rs:237-294 | the same of the list of findings as a function of the workspace |
| Layers.EdgesCompose | xtask/src/lint_layers.rs:190-192 | two permitted edges in a row end where one permitted edge could |
| Layers.ChainIsPermitted | xtask/src/lint_layers.rs:190-192 | so does any chain of dependencies in a workspace without findings |
| Layers.ChainsKeepTheArchitecture | xtask/src/lint_layers.rs:81-103 | along any chain a domain crate and the application reach only domain, an adapter reaches no other adapter but a kernel and no root, and no shipped crate reaches a root or test support |
| Layers.ForbiddenStaysForbidden | xtask/src/lint_layers.rs:117-143 | whatever a ring may not use, no ring it may depend on may use |
| Layers.ForbiddenIsOutOfReach | xtask/src/lint_layers.rs:225-234 | a crate name a ring forbids is a dependency of nothing reachable from that ring |
| Layers.TheSdkIsForbidden | xtask/src/lint_layers.rs:117-143 | the name `opentelemetry_sdk` is forbidden to every ring but the CLI root and test support, though some may use `opentelemetry` |
| Layers.TheSdkIsOutOfReach | xtask/src/lint_layers.rs:225-234 | so no chain from a crate of such a ring, the library root's among them, ends at one that depends on the OpenTelemetry SDK |
| LayerRules.TheLibraryReachesNoSdk | xtask/src/lint_layers.rs:225-234 | in a workspace without findings nothing that `apps/lablet` reaches, itself included, depends on `opentelemetry_sdk` |
| LayerRules.DirectoriesKeepTheArchitecture | xtask/src/lint_layers.rs:81-103 | what `crates/domain` and `crates/application` reach is under `crates/domain`; an adapter reaches no adapter but a shared kernel; and nothing outside `tests` reaches a root or the tests |
| GeneratedTrees.Walk | xtask/src/generated.rs:274-291 | what's found is exactly the files, and the wanted directories, not below a wanted or a build directory |
| GeneratedTrees.Files | xtask/src/generated.rs:367-385 | the map is exactly the files under a directory by their paths below it |
| GeneratedTrees.Differences | xtask/src/generated.rs:348-363 | one line for each file that differs, the rendered files first and either kind in the order of their paths; none exactly when the two maps are the same |
| Installing.Disk.Install | xtask/src/generated.rs:296-312 | on success every tree is what was staged for it and everything else is as it was; on failure at one output those ahead of it are installed and nothing after it is touched; with everything staged, room for it and nothing refused it succeeds |
| Installing.OneMoreInstalled | xtask/src/generated.rs:297-310 | removing, making the directories above and renaming installs one more output, and keeps those installed before |
| Generating.FoldersHoldRegistryFiles | xtask/src/generated.rs:212-224 | a folder counts as a module's exactly when it is neither the registry's root nor `shared` nor below it, and a `.yaml` file stands in it with no build directory on the way |
| Generating.RoutedMeans | xtask/src/generated.rs:225-261 | a registry is routed exactly when those folders are the outputs' and every `src/telemetry/generated` that is come to under the crates and apps is an output's |
| Generating.TheRegistryIsRouted | xtask/src/generated.rs:65-92 | with the two outputs there are: exactly when `application/run` is the one such folder and the run's own the one such directory |
| Generating.Routing | xtask/src/generated.rs:210-261 | in the order they're told: the folders without a module, the modules without a folder and, root by root, the stray directories; none of them exactly when the registry is routed |
| Generating.Compare | xtask/src/generated.rs:326-344 | it passes exactly when there are no gaps and every tree's files are those staged for it, and otherwise tells the gaps and, output by output and in order, exactly the differences |
| Generating.Write | xtask/src/generated.rs:181-193 | nothing is rendered unless the registry is routed; after a success every tree is what was staged for it, which is its rendering exactly when nothing else was left in the stage; every outcome leaves all but the trees and the stage as it was; and a failure with nothing refused has a cause on disk |
| Generating.StagedIsRendered | xtask/src/generated.rs:122-128 | rendering over what couldn't be cleared stages an output's rendering exactly when nothing else was left at its place |
| Generating.ALeftoverIsInstalled | xtask/src/generated.rs:122-128 | a file left in the stage that nothing renders ends up in the tree, which then differs from its rendering |
| Generating.Check | xtask/src/generated.rs:314-321 | the check passes exactly when it can be made, the registry is routed and the trees are what's staged; a failing one tells the gaps and the differences; and it changes nothing outside the stage |
| Generating.NothingIsInTheWay | xtask/src/generated.rs:316-321 | after a write whose trees are the rendering, a check over its own cleared stage, beside the write's, can be made |
| Generating.RoutingStaysClean | xtask/src/generated.rs:210-261 | a write, however it ends, unroutes nothing |
| Generating.WriteThenCheck | xtask/src/generated.rs:181-193 | after a write that succeeds in one process, a check of the same rendering by another, or the same, passes, when nothing else was left in the first stage and nothing at all in the second, as is so when the disk refuses nothing and no file stands in the second stage's place; what each of the two did is stated beside it |
| Generating.TheOutputsAreSound | xtask/src/generated.rs:298-309 | whichever two processes write and check, their stages lie beside one another and apart from the two outputs listed, as the theorems above ask; where each of the two is staged and where it goes |
| Floors.StandingsAre | xtask/src/floors.rs:145-157 | with something to measure a floor is met exactly when the share, as a fraction, is at least it; with nothing, a crate with code fails and one without has nothing to measure |
| Floors.AMissNeverReadsAsTheFloor | xtask/src/floors.rs:145-193 | a printed share reads back as its tenths, and reaches its floor exactly when it's judged to meet it |
| Floors.ProductionSources | xtask/src/floors.rs:337-354 | the work list ends on every tree and finds the files of the recursive definition, each as often, sorted |
| Floors.EveryProductionFile | xtask/src/floors.rs:336-354 | those are exactly the `.rs` files come to without passing a name `tests` or `tests.rs` |
| Floors.EachFileOnce | xtask/src/floors.rs:337-354 | each of them once |
| Floors.MisplacedTestCode | xtask/src/floors.rs:386-405 | the scan of a source's trimmed lines, consuming what it looks ahead at, finds the least misplaced one, and nothing exactly when there is none |
| Floors.MisplacedMeans | xtask/src/floors.rs:386-405 | a line is misplaced exactly when it is an attribute with the word `test`, save `#[cfg(test)]` with `mod tests;` behind it or on the next line that is neither blank nor a comment |
| Text.LinesAre | xtask/src/floors.rs:387-387 | the lines of texts each ended by a newline are those texts less a carriage return at the end, and of what comes after the last newline there is a line exactly when it isn't empty |
| Text.TrimmedIs | xtask/src/floors.rs:387-387 | what trimming leaves stands between white space, and neither begins nor ends with any |
| Order.SortedHolds | xtask/src/floors.rs:352-352 | sorting keeps each item as often and puts them in order |
| Order.SortedByIsStable | xtask/src/live_check.rs:1218-1218 | sorting by a key keeps the order of items of one rank |
| Skeleton.StripTakesAServerOff | product/research/parity/capture/skeleton.py:33 | a server's prefix is taken off whole, and what's taken off any name is such a prefix |
| Skeleton.BlockSkeleton | product/research/parity/capture/skeleton.py:46-73 | setting key after key, with recursion into results, computes the block's skeleton |
| Skeleton.MaskTools | product/research/parity/capture/skeleton.py:85-88 | the loop with `setdefault` computes the masks |
| Skeleton.SkeletonOf | product/research/parity/capture/skeleton.py:80-138 | part by part in the code's order the loops compute the request's skeleton, refuse what is no request, and raise at the access that can't be made; what that skeleton holds is told key by key in the rows of `SkeletonKeeps` |
| SkeletonSizes.SizeIsWhatItSays | product/research/parity/capture/skeleton.py:36-37 | a text's size is the length of its bytes (section 3 of RFC 3629), and any other value's that of what `json.dumps` writes, both written out |
| SkeletonParameters.ParametersAreKept | product/research/parity/capture/skeleton.py:90-97 | each key of the body but `system`, `tools` and `messages` is kept once, in order, with its own value, but a `metadata` table as its sorted keys |
| SkeletonParameters.ParametersShow | product/research/parity/capture/skeleton.py:90-97 | two bodies keep the same parameters exactly when those keys have the same values, and `metadata` tables the same keys |
| SkeletonKeeps.ThinkingHolds | product/research/parity/capture/skeleton.py:53-55 | a `thinking` block keeps its size and whether it has a signature, and its marker |
| SkeletonKeeps.ToolUseHolds | product/research/parity/capture/skeleton.py:58-63 | a `tool_use` keeps its mask, its input's keys as they came and its input's size, and its marker |
| SkeletonKeeps.ListedResultHolds | product/research/parity/capture/skeleton.py:64-70 | a result with a list of blocks keeps its flag and each block's skeleton in order |
| SkeletonKeeps.MaskCounts | product/research/parity/capture/skeleton.py:85-88 | a tool's mask is `T` and the number of the first tool by its name, counted from one, prefixes aside |
| SkeletonKeeps.ToolOfHolds | product/research/parity/capture/skeleton.py:107-118 | what each key of a tool's skeleton holds: the mask, the two sizes where the tool has no such key itself, and every other key as it is but for the name, the description and the schema |
| SkeletonKeeps.MessageHolds | product/research/parity/capture/skeleton.py:120-130 | what each key of a message's skeleton holds: its role, its blocks' skeletons, and the rest as it is |
| SkeletonKeeps.OutcomesAre | product/research/parity/capture/skeleton.py:80-138 | what is refused, what raises, and of what is reduced the four parts in their order |
| SkeletonEdits.SizeFollowsTheText | product/research/parity/capture/skeleton.py:36-37 | replacing a text anywhere in a value changes its dumped size by the difference of the texts' written lengths |
| SkeletonEdits.MasksFollowTheNames | product/research/parity/capture/skeleton.py:85-88 | renaming the tools one-to-one carries each mask to the new name |
| SkeletonEdits.MaskIsAPlace | product/research/parity/capture/skeleton.py:85-88 | a tool's mask is the place of the first tool by its name |
| SkeletonEdits.MasksShowThePattern | product/research/parity/capture/skeleton.py:85-88 | two lists of tools are masked alike exactly when the same places share names |
| SkeletonEdits.PrefixingKeepsTheName | product/research/parity/capture/skeleton.py:33 | a server's prefix before a name that carries none is no renaming |
| SkeletonEdits.EditedBlockKeeps | product/research/parity/capture/skeleton.py:46-73 | a block with its texts replaced by others of as many bytes and its tool renamed, through nested results, reduces to the same skeleton |
| SkeletonEdits.EditsKeepTheSkeleton | product/research/parity/capture/skeleton.py:80-138 | so does a whole request, with ids replaced and keys in any order; and what's refused or raises still is or does |
| SkeletonEdits.BytesAreNotEnough | product/research/parity/capture/skeleton.py:36-37 | two texts of two bytes each are written at different lengths |
| SkeletonShows.InputTextsCountAsWritten | product/research/parity/capture/skeleton.py:58-63 | a text replaced inside a tool's input keeps the skeleton exactly when it's written at the same length |
| SkeletonShows.PlainInputTextsCountAsBytes | product/research/parity/capture/skeleton.py:58-63 | between texts of printable ASCII without quotes and backslashes, exactly when it has as many bytes |
| SkeletonShows.BlocksShow | product/research/parity/capture/skeleton.py:46-73 | two blocks have the same skeleton exactly when they're of one kind and marked alike, with the same sizes, flags, mask and keys, and nested blocks that read alike pair by pair; a text on its own reads as a block of it |
| SkeletonRequests.ToolsShow | product/research/parity/capture/skeleton.py:107-118 | two tools have the same skeleton exactly when they have the same mask, description and schema sizes, markers and keys besides |
| SkeletonRequests.SchemaTextsCountAsWritten | product/research/parity/capture/skeleton.py:107-118 | a text replaced inside a tool's schema keeps its skeleton exactly when it's written at the same length |
| SkeletonRequests.PlainSchemaTextsCountAsBytes | product/research/parity/capture/skeleton.py:107-118 | and between plain texts exactly when it has as many bytes |
| SkeletonRequests.RequestsShow | product/research/parity/capture/skeleton.py:80-138 | two requests have the same skeleton exactly when each key but `system`, `tools` and `messages` has the same value in both (`metadata` tables the same keys), and their system, tools and messages have blocks that read alike pair by pair; and then the same places share tool names |
| Redact.NoneIsLeft | product/research/parity/capture/redact.py:103-107 | replacing one path leaves none of it, and brings about no other that wasn't there |
| Redact.GoneExactlyWhenItMissesTheMark | product/research/parity/capture/redact.py:107 | one replacement takes a path away from every text exactly when no mark may stand in for a part of it; when it doesn't start with `<`, exactly when no occurrence of it may share a character with a mark |
| Redact.GoneFromAllExactlyWhenItMissesTheMark | product/research/parity/capture/redact.py:103-107 | the whole loop takes a spelling that leaves some character out away, whatever the text and the other spellings, exactly when no occurrence of it may share a character with a mark |
| Redact.PartOfTheMarkStays | product/research/parity/capture/redact.py:103-107 | a path that is a part of the mark itself goes from no text that holds it |
| Redact.ARelativePathMayStay | product/research/parity/capture/redact.py:83-88 | `CWD`, which may be given as a directory, is such a part |
| Redact.MeetingIsNotEnough | product/research/parity/capture/redact.py:107 | `<a<` is taken away by any replacement of it, and yet not by every loop it has a turn in |
| Redact.LengthAfter | product/research/parity/capture/redact.py:104-107 | what's counted is what's replaced |
| Redact.NoSpellingIsLeft | product/research/parity/capture/redact.py:103-107 | after the loop no spelling is left that may share no character with a mark, whatever the other spellings are |
| Redact.NoneIsCutShort | product/research/parity/capture/redact.py:87-88 | when a spelling's turn comes no longer one is left that misses the mark, so none is cut short |
| Redact.ReplacingTwiceIsOnce | product/research/parity/capture/redact.py:103-107 | the loop run again changes nothing, when every spelling misses the mark |
| Redact.Spellings | product/research/parity/capture/redact.py:82-88 | the spellings are the given paths without a slash at the end, none empty, each once, the longest first, and of one length in the order given |
| Redact.SlashesAreTakenOff | product/research/parity/capture/redact.py:84-84 | from a spelling only slashes at its end are taken off, and all of them |
| RedactRun.WithoutMetadata | product/research/parity/capture/redact.py:34-62 | rewriting lines in place, or the document, computes the text without metadata and the number dropped |
| RedactRun.NoMetadataIsLeft | product/research/parity/capture/redact.py:34-62 | no top-level metadata is left, the lines are as many, and a line that held none keeps its characters |
| RedactRun.NoMetadataKeyAfterARun | product/research/parity/capture/redact.py:34-62 | with such paths, what a `.json` file is parsed as after a run that is done has no `metadata` key, nor has what any line of a `.jsonl` file is that is not blank |
| RedactRun.DroppingTwiceIsOnce | product/research/parity/capture/redact.py:34-62 | dropping it again changes nothing and drops none |
| RedactRun.Capture.RedactOne | product/research/parity/capture/redact.py:93-110 | one file's new bytes: as they were unless its text changes, and emptied when the changed text has no bytes |
| RedactRun.KeysAre | product/research/parity/capture/redact.py:25-25 | a file holds the shape of a key exactly when `sk-ant-` stands somewhere in its bytes |
| RedactRun.Capture.Run | product/research/parity/capture/redact.py:65-115 | a key's shape anywhere refuses the run with no file changed; otherwise every file is redacted and counted, or those ahead of the one that can't be encoded are |
| RedactRun.NoPathIsLeft | product/research/parity/capture/redact.py:90-110 | after a run that's done no spelling that misses the mark stands in any file that decodes, whatever the others are |
| RedactRun.NoMetadataAfterARun | product/research/parity/capture/redact.py:90-110 | after a run that's done, with paths that hold no quote, backslash or control character, no JSON file that decodes holds top-level metadata |
| RedactRun.RedactingTwiceIsOnce | product/research/parity/capture/redact.py:90-110 | when every spelling misses the mark, a second run changes no byte of a file that isn't JSON, of one that is when the paths hold no quote, backslash or control character, and of other JSON left without top-level metadata |
| RedactRun.NoMetadataIsBroughtAbout | product/research/parity/capture/redact.py:34-62 | replacing such paths brings about no top-level metadata, in a document or in any line |
| MockUpstream.ParseSequence | product/research/parity/capture/mock_upstream.py:56-79 | the loop reads each part, with decimal digits of any script, as a step and a count, or refuses the whole |
| MockGrammar.StepsAreTheGrammar | product/research/parity/capture/mock_upstream.py:36-78 | a step is read exactly from a text the regular expression matches, but for a newline at its end, and is what the groups mean: the numbers, and of each kind of flag the first |
| MockUpstream.StepReadsBack | product/research/parity/capture/mock_upstream.py:36-40 | a printed step is matched whole and read back |
| MockUpstream.SequenceReadsBack | product/research/parity/capture/mock_upstream.py:56-79 | the printing of any counted steps parses to their expansion, as long as the counts' sum |
| MockUpstream.Upstream.NextStep | product/research/parity/capture/mock_upstream.py:130-134 | the n-th request gets step min(n, length - 1), and none when there are no steps |
| MockUpstream.Upstream.Play | product/research/parity/capture/mock_upstream.py:130-134 | any number of requests get the steps and then the last one for ever |
| Diagnostics.Floored | lablet/apps/lablet-cli/src/cli/diagnostics.rs:87-106 | what was asked is kept as it is, followed by exactly the directives added, in order |
| Diagnostics.DirectiveNamesIs | lablet/apps/lablet-cli/src/cli/diagnostics.rs:88-97 | a directive names a crate exactly when it is its name, or goes on after it with a level, a span or `::` |
| Diagnostics.AddedExactlyOnce | lablet/apps/lablet-cli/src/cli/diagnostics.rs:98-104 | one is added once for a crate the text names neither itself nor by a module in it, and for no other |
| Diagnostics.FlooredOnce | lablet/apps/lablet-cli/src/cli/diagnostics.rs:87-106 | of each floored crate's directive the result holds one more than was asked for, or as many when the text names the crate or a module in it |
| Diagnostics.ResultNamesAll | lablet/apps/lablet-cli/src/cli/diagnostics.rs:87-106 | the result names every floored crate |
| Diagnostics.FlooredTwice | lablet/apps/lablet-cli/src/cli/diagnostics.rs:87-106 | flooring what was floored changes nothing |
| Diagnostics.SplitIsOneToOne | lablet/apps/lablet-cli/src/cli/diagnostics.rs:89 | two texts with the same directives are the same text |
| Report.Grouped | lablet/apps/lablet-cli/src/cli/report.rs:67-77 | without its commas it is the number; a comma stands at exactly every fourth place from the right, and never first |

## Left out

- The wording of findings, reports and failures: which of them arise, and in what order, is kept.
- Integer widths: the source's `u64` and `usize` counts are unbounded here, and a saturating `2 * runs` is a plain one.
- Git, cargo, weaver and their arguments, PATH building and terminal output: their outcomes are open choices.
- TOML, YAML and JSON parsing, and reading one finding or outcome from JSON: parsed values are taken as given.
- The tracked part of the scoped run's diff, which git writes, and the name of the merge-base it's taken from.
- The check that the variable of `model.api_key` is set, and the refusal's wording.
- Which characters are alphanumeric, white space or decimal digits is a parameter.
- Files changed by other programs meanwhile, symbolic links, permissions, and a directory removed in part: each file operation happens altogether or is refused.
- Listener.Listener.StopNow: a kill that's refused is waited out, but a `wait` that itself fails is not among what may happen.
- A report written by a program the step didn't start, while the step runs, is not among what may happen in the listener's world.
- RedactRun.RedactingTwiceIsOnce: that a plain path is replaced within the texts of a JSON document only is a law asked of the parser, which is not modelled; of JSON redacted with a path holding a quote, a backslash or a control character no more is said than that the second run leaves it alone if no top-level metadata is read in it.
- RedactRun.Capture.Run: where the directory resolves to, and the order the files are walked in, are given to it.
- Skeleton.SkeletonOf: a text with a lone surrogate, which `json.loads` gives and encoding it raises on, is no text of the model's.
- A number the model reads as zero is one written `0`, `0.0` or `-0.0`.
- The regular expression of the mock's steps is written out as a reader; the HTTP serving, delays and bodies are left out.
- The floors' `conclude` and `report`, `defines_a_function`, `skips_mutants`, and the CLI's `duration`, `counted` and exit codes would add easy members only.
- The composition roots, the SDK driver and the OTLP sink wire up crates that are not part of this model.
