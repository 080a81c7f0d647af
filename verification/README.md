# Verified model of the repository analysis and campaign scripts

These Dafny files model the algorithmic parts of the Python scripts under `scripts/` and prove what
those scripts tell their users.

- **Dependency cycles** (`scripts/analyze_root_crate.py`): Tarjan's component search as a class with
  its mutable tables, the Eades-Lin-Smyth greedy ordering, the back-edges of that order, and the
  eviction list. Files `Digraph`, `Components`, `Tarjan`, `Sums`, `Orders`, `Eades`, `Repair`,
  `CycleReport`, `Sorting`.
- **Grouped imports** (same script): the comma splitter. File `Splitter`.
- **Resumable campaign** (`scripts/run_terminal_bench_campaign.py`): the manifest as an object that
  survives invocations, with its keyed records. Files `Records`, `Campaign`.
- **Fit planner** (`scripts/mermaid_fit_probe.py`): zoom, containment and scroll. File `FitPlanner`.
- **Smaller cores**: process trees (`ProcessTree`), the two test-block scanners (`TestBlocks`), the
  budget ratchets (`Ratchet`), memory growth (`MemoryLog`), reload-log attribution (`ReloadAudit`).
- **Shared**: optional values (`Options`), the values present in a list of them (`Sifting`).

Wherever the scripts iterate over a set, break a tie with `max`, sort names before a loop, or wait for
whichever job completes first, the model chooses freely, so each result holds for every order. The
exception is job adoption, where the name order decides and is modelled. Node, file, pattern and pid
types are type parameters. The greedy ordering is specified by the legal sequences of its moves: the
method returns one as a ghost value, and the theorems hold for all of them.

A generic digraph may mention a node only as a successor; the search then still puts it into a
component, as the script does. `eades_order` raises an error for an edge that leaves its node list, so
`Covers` is required there and established in `Analyse`.

## Where the scripts fall short

- A campaign entry with an empty name is accepted on the command line and its run can succeed, but
  `completed_recorded_jobs` never lists it (`SuccessLands`, `EmptyNameMisses`). It is adopted anew at
  every later invocation, each time with the record replaced by one without the return code
  (`EmptyNameAdoptedAgain`), and run again if and only if no adoptable directory is left
  (`SuccessRerunIff`).
- With `--n-attempts` below one, a job without any numeric reward is adopted but not accepted
  (`StepLands`, `AdoptionCanMiss`); with at least one attempt an adoption always lands
  (`AdoptionLands`).
- A new job is named after the number of existing job directories. All names to come are unused
  exactly while no directory bears a name numbered above that count (`FreshForGoodIff`), as when none
  was ever deleted (`NextJobIsFresh`); after a deletion a name can collide (`NextJobCanCollide`).
- Adoption takes the last job by name, which is the newest only as long as the names are equally long:
  `OlderFirstIff` says exactly when, and `ThousandthIsNotLast` is the first case where it is not.
- With an empty axis or a zero font the fit zoom need not be the smaller of the two axis fill zooms;
  `FitIsFillIff` says exactly when it is (`FitOfZeroFontDiffers` is a pane where it is not).
- The two test-block scanners fall out of step at other spellings of the attribute, at nested
  attributes, at a module declared without a body, and when the next brace after an attribute is opened
  by anything but the module or function both expect (`SpellingSeparates`, `NestingSeparates`,
  `ScannersDiffer`). `AgreeIff` says exactly when they keep the same lines on files without the first
  two; `InStepIff` characterises the files in step among all.

## Model

| member | source | states |
|---|---|---|
| `Tarjan.Search.StrongConnect` | scripts/analyze_root_crate.py:290-310 | Expanding a node keeps the whole stack, index and lowlink invariant; its lowlink is exact in both directions: it names an older stack node it reaches, and bounds the index of every older stack node an edge of the new part leads to |
| `Tarjan.Search.Follow` | scripts/analyze_root_crate.py:296-301 | Looking at one successor keeps the invariant in all three cases: unseen, on the stack, already in a component |
| `Tarjan.TreeEdge` | scripts/analyze_root_crate.py:297-299 | After a recursive expansion, the minimum of the two lowlinks is again sound and covering for the parent |
| `Tarjan.StackEdge` | scripts/analyze_root_crate.py:300-301 | The same for a successor found on the stack |
| `Tarjan.StayKeeps` | scripts/analyze_root_crate.py:302 | A node whose lowlink is below its index can be deactivated: everything that climbed to it climbs on to an older active node |
| `Tarjan.TopIsClass` | scripts/analyze_root_crate.py:302-310 | When lowlink equals index, the stack from that node up is exactly one class of mutually reachable nodes |
| `Tarjan.Search.PopTo` | scripts/analyze_root_crate.py:303-309 | The pop loop removes exactly the nodes above the old stack, each once, and clears their flags |
| `Tarjan.StronglyConnectedComponents` | scripts/analyze_root_crate.py:271-315 | For every finite digraph and iteration order, the lists partition the nodes, each is exactly a class of mutual reachability, and no edge leads to a later list |
| `Components.SameListIffMutual` | scripts/analyze_root_crate.py:271-278 | Two nodes share a list if and only if each reaches the other |
| `Components.SccsUnique` | scripts/analyze_root_crate.py:271-278 | Any two results for one graph have the same member sets |
| `CycleReport.NoMultiIffAcyclic` | scripts/analyze_root_crate.py:405-411 | Without self-edges, the list of multi-node components is empty if and only if the graph is acyclic |
| `Eades.EadesOrder` | scripts/analyze_root_crate.py:483-522 | Terminates, returns a permutation of the nodes that is the order of a legal run, and at most half of all edge weight points backwards |
| `Eades.Peel` | scripts/analyze_root_crate.py:498-511 | The inner rounds are legal removals and end only when neither a sink nor a source is left |
| `Eades.ComputeScore` | scripts/analyze_root_crate.py:515-518 | The two loops compute out-weight minus in-weight within the remaining nodes |
| `Eades.ScoreSaves` | scripts/analyze_root_crate.py:515-518 | The score of a node is exactly the backward weight saved by placing it before the other remaining nodes instead of after them |
| `Eades.MoveMeaning` | scripts/analyze_root_crate.py:498-522 | In terms of edges between the nodes still there: a sink has no edge to, a source none from, any of them; a node is picked only when each has both, and then saves at least as much backward weight by going first as any other would |
| `Eades.OrderByMoves` | scripts/analyze_root_crate.py:498-522 | A node removed earlier stands further left, except that a removed sink stands right of all that is still to come |
| `Eades.AfterMeaning` | scripts/analyze_root_crate.py:483-522 | What remains after some moves are the nodes none of them removed |
| `Eades.BestScore` | scripts/analyze_root_crate.py:515-519 | A node of greatest score has a score of at least zero, because scores balance out over the remaining nodes |
| `Eades.OrderIsPermutation` | scripts/analyze_root_crate.py:483-522 | Every complete legal run yields each node once |
| `Eades.HalfBound` | scripts/analyze_root_crate.py:483-522 | For every legal run twice the backward weight is at most the total weight; self-edges and zero weights are allowed |
| `Eades.BackwardIffPicked` | scripts/analyze_root_crate.py:496-522 | An edge points backwards if and only if its target was taken for its score while its source was remaining |
| `Eades.AcyclicNeverPicks` | scripts/analyze_root_crate.py:496-521 | While nothing remaining lies on a cycle, no node is taken for its score |
| `Eades.NoBackArcsIffAcyclic` | scripts/analyze_root_crate.py:483-485 | Without self-edges there is no backward edge if and only if the nodes carry no cycle |
| `CycleReport.BackEdges` | scripts/analyze_root_crate.py:430-437 | The collected edges are exactly the backward edges, each once with its own reference count, cheapest first, and the total is their weight |
| `CycleReport.ComponentsByReferences` | scripts/analyze_root_crate.py:396-404 | The components hold exactly the modules that are no full facades, and two modules share a list if and only if each depends on the other through a chain of references between such modules |
| `CycleReport.Largest` | scripts/analyze_root_crate.py:422 | The largest cycle by lines of code, the first of them in a tie |
| `CycleReport.SizeAdds` | scripts/analyze_root_crate.py:407-413 | The size of a cycle adds up the lines of its modules |
| `CycleReport.CycleWeightsShape` | scripts/analyze_root_crate.py:425-428 | The weighted subgraph has exactly the references between different modules of the cycle, each with its reference count |
| `CycleReport.Analyse` | scripts/analyze_root_crate.py:396-446 | From module sizes and references to the report: components, exactly those of more than one module as cycles, a largest one, and for it exactly the references that point backwards in a greedy order, cheapest first, each with the count of references from its source to its target; cutting or inverting them makes the cycle acyclic, and they carry at most half of its references |
| `Repair.RepairDissolves` | scripts/analyze_root_crate.py:417-443 | Cutting or inverting the listed edges, in any mixture, makes every member of the cycle its own class and leaves all other classes of the whole graph unchanged |
| `Repair.RerunAfterRepair` | scripts/analyze_root_crate.py:405-443 | A second component search after that returns the members as singletons and the other components with the same members |
| `CycleReport.RerunReports` | scripts/analyze_root_crate.py:405-443 | The second report lists exactly the other cycles of the first |
| `Repair.EvictedIff` | scripts/analyze_root_crate.py:450-470 | A module leaves its class if and only if all its edges into the class are among the cut or inverted ones |
| `Repair.EvictionSound` | scripts/analyze_root_crate.py:450-470 | The same for the lists returned by a second search |
| `Repair.EvictionLocal` | scripts/analyze_root_crate.py:450-454 | After an eviction every list lies inside one of the old ones, and every list outside the cycle has the same members as before |
| `CycleReport.EvictionCost` | scripts/analyze_root_crate.py:455-477 | The edges listed for a module are exactly those that have to be cut or inverted, and there is always at least one |
| `Splitter.SplitTopLevel` | scripts/analyze_root_crate.py:34-53 | The character loop computes the stripped non-empty pieces between commas at depth zero |
| `Splitter.PiecesIff` | scripts/analyze_root_crate.py:34-53 | For every body, the pieces it is cut into are the one non-empty list that joins to it and can be told apart after joining: no comma at depth zero, balanced except perhaps the last; so no character is lost |
| `Splitter.DepthCounts` | scripts/analyze_root_crate.py:39-44 | The depth is the number of opening braces less that of closing ones |
| `Splitter.NoTopCommaIff` | scripts/analyze_root_crate.py:45-47 | A piece has a top-level comma if and only if one stands where the braces before it balance out |
| `Splitter.CleanMeaning` | scripts/analyze_root_crate.py:53 | The items are the pieces stripped, in order, without those of which nothing is left |
| `Splitter.SplitInvertsJoin` | scripts/analyze_root_crate.py:34-53 | Splitting a comma-joined list gives it back if and only if its items are trimmed, non-empty, without a comma at depth zero, and balanced except perhaps the last |
| `Splitter.SplitOfJoin` | scripts/analyze_root_crate.py:34-53 | With any white space around the items, splitting gives them back stripped |
| `Splitter.SplitGood` | scripts/analyze_root_crate.py:34-53 | The items of any input whatever satisfy those conditions |
| `Splitter.StripMeaning` | scripts/analyze_root_crate.py:53 | Stripping removes white space from both ends, and all of it |
| `Splitter.AsciiSpaces` | scripts/analyze_root_crate.py:53 | Among ASCII characters white space is the blank, the tab, the line breaks and the four separators |
| `Splitter.SplitStable` | scripts/analyze_root_crate.py:34-53 | Splitting, joining and splitting again changes nothing, for every input |
| `Records.NumericCounts` | scripts/run_terminal_bench_campaign.py:201-202 | The numeric rewards are the rewards there are, zero among them, each as often as it occurs |
| `Records.MeanMeaning` | scripts/run_terminal_bench_campaign.py:210 | There is a mean if and only if some trial has a reward; times their number it is their sum, and it lies between any bounds of them |
| `Records.SumOfConcat` | scripts/run_terminal_bench_campaign.py:210 | The sum adds up over any division of the rewards |
| `Records.UpsertKeepsPositions` | scripts/run_terminal_bench_campaign.py:157-168 | Records keep their positions, only the one with the written key changes, and the list grows exactly for a new key |
| `Records.UpsertIdempotent` | scripts/run_terminal_bench_campaign.py:154-171 | Writing a record twice is writing it once |
| `Records.UpsertAllKeepsUnique` | scripts/run_terminal_bench_campaign.py:154-171 | Any sequence of writes keeps at most one record per campaign entry and job |
| `Records.UpsertAllKeepsLatest` | scripts/run_terminal_bench_campaign.py:154-171 | After any sequence of writes each key holds the record written last |
| `Records.LastWriteWins` | scripts/run_terminal_bench_campaign.py:154-171 | Of the records written for one entry and job the last is there in the end |
| `Records.UnwrittenStays` | scripts/run_terminal_bench_campaign.py:154-171 | A record of an entry and job that is never written again stays |
| `Records.CompletionOrderIrrelevant` | scripts/run_terminal_bench_campaign.py:485-514 | Records with different keys written in any two orders leave the same set of records |
| `Campaign.Runner.AppendResult` | scripts/run_terminal_bench_campaign.py:154-171 | The loop with its early return performs the keyed update, and the results log mirrors the manifest |
| `Campaign.Runner.EnsureManifest` | scripts/run_terminal_bench_campaign.py:119-140 | Accepts exactly a first run or one in which each of the twelve pinned settings, named one by one, agrees, and changes nothing otherwise |
| `Campaign.Runner.CompletedRecordedJobs` | scripts/run_terminal_bench_campaign.py:215-238 | The keys are exactly the named entries with a completed record that has a mean and enough numeric trials, one if the attempt count is zero, each with its last such record |
| `Campaign.Runner.AdoptExistingJob` | scripts/run_terminal_bench_campaign.py:241-261 | Adopts and records, with its trials and their mean, the last job by name that has a result, a trial and enough numeric trials; gives up exactly when there is none |
| `Campaign.Runner.FinalizeTaskResult` | scripts/run_terminal_bench_campaign.py:318-393 | Success is exactly a job result with enough numeric trials, each failure status has its exact cause, the record carries the trials and their mean, the last branch is unreachable, nothing else is affected, and afterwards the entry needs a run exactly if it has no adoptable directory |
| `Campaign.Runner.PrepareTask` | scripts/run_terminal_bench_campaign.py:396-413 | Asks for a run exactly of what is neither accepted nor adoptable and then records nothing; otherwise, unless accepted, records the adoption of the last adoptable job; runs nothing itself |
| `Campaign.LoadTasks` | scripts/run_terminal_bench_campaign.py:46-62 | The list is the first mentions, in order, of the given names followed by the usable file lines |
| `Campaign.UsableMeaning` | scripts/run_terminal_bench_campaign.py:48-53 | Usable are, stripped and in file order, exactly the lines that are neither blank nor begin with a number sign after stripping |
| `Campaign.FirstMentionsMeaning` | scripts/run_terminal_bench_campaign.py:54-59 | Exactly the elements that do not stand earlier are kept, in order |
| `Campaign.FirstMentionsDistinct` | scripts/run_terminal_bench_campaign.py:54-59 | First mentions have no duplicates and lose no name |
| `Campaign.Runner.PrepareAll` | scripts/run_terminal_bench_campaign.py:447-456 | Pending is exactly what was asked for and needs a run at the start, in the order asked, each once and under the next job name; with at least one attempt required everything else that has a name is accepted; nothing is run |
| `Campaign.JobNameMeaning` | scripts/run_terminal_bench_campaign.py:455 | A job name is the prefix and the job number in decimal, padded with zeros to three digits and no further |
| `Campaign.NameLessIff` | scripts/run_terminal_bench_campaign.py:242 | Job directories are compared at the first place where they differ, a name that ends coming first |
| `Campaign.OlderFirstIff` | scripts/run_terminal_bench_campaign.py:242 | Of two jobs the older comes first by name if and only if their names are equally long or its number is at most that of the newer one without the digits it has more |
| `Campaign.ThousandthIsNotLast` | scripts/run_terminal_bench_campaign.py:242 | The thousandth job sorts before the one before it |
| `Campaign.FreshForGoodIff` | scripts/run_terminal_bench_campaign.py:453-455 | For every set of directories: all later job names are unused when they are taken if and only if no directory bears the name of a job numbered above the directory count |
| `Campaign.NextJobIsFresh` | scripts/run_terminal_bench_campaign.py:453-455 | So it is if the directories are those of the first n jobs |
| `Campaign.NextJobCanCollide` | scripts/run_terminal_bench_campaign.py:453-455 | It is not once the first of two directories has been deleted |
| `Campaign.Runner.RunSequentially` | scripts/run_terminal_bench_campaign.py:461-483 | Runs a prefix of the pending list under the assigned job names, stopping at the first failure unless told to continue; the exit code is zero exactly without a failure or when told to continue, and otherwise the return code of the failing job, or 1 if that is zero; every accepted name is kept |
| `Campaign.Runner.RunInParallel` | scripts/run_terminal_bench_campaign.py:485-514 | In every completion order all pending entries are run once under the assigned job names, the exit code says whether one failed, and every accepted name is kept |
| `Campaign.Runner.Invoke` | scripts/run_terminal_bench_campaign.py:416-514 | One invocation is refused, without effect, exactly without a task or when a pinned setting differs; otherwise it runs only entries asked for that need a run at its start, in the order asked unless in parallel, and all of them when it exits with zero, which it does exactly when no run fails or it was told to continue; it keeps the history legal with at most one record per entry and job, loses no accepted name, and when no run fails every named entry it was asked for is accepted, given at least one attempt |
| `Campaign.AcceptedGrows` | scripts/run_terminal_bench_campaign.py:225-261 | Over every legal history the accepted names never shrink |
| `Campaign.AcceptedIsFinal` | scripts/run_terminal_bench_campaign.py:396-413 | What is accepted at some point is not run, adopted or recorded again by any later step |
| `Campaign.CompletedOnce` | scripts/run_terminal_bench_campaign.py:396-413 | Hence each named entry is completed at most once in a whole history |
| `Campaign.StepLands` | scripts/run_terminal_bench_campaign.py:225-261 | A step makes its entry accepted if and only if it is named, completed and has a numeric trial |
| `Campaign.SuccessLands` | scripts/run_terminal_bench_campaign.py:344-350 | A successful run is accepted if and only if its name is not empty |
| `Campaign.EmptyNameMisses` | scripts/run_terminal_bench_campaign.py:231-236 | A success under the empty name is not accepted |
| `Campaign.SuccessRerunIff` | scripts/run_terminal_bench_campaign.py:396-413 | After a success anywhere in a legal history, whatever followed and whatever directories exist by now, the next preparation asks for a run of the same entry if and only if its name is empty and no adoptable directory is left |
| `Campaign.EmptyNameAdoptedAgain` | scripts/run_terminal_bench_campaign.py:231-261 | Under the empty name an adoption is possible again after any history, never makes the name accepted, and replaces the record of its job by one without a return code |
| `Campaign.AdoptionLands` | scripts/run_terminal_bench_campaign.py:249-260 | With at least one attempt required, so is an adoption |
| `Campaign.AdoptionCanMiss` | scripts/run_terminal_bench_campaign.py:249-260 | With no attempt required, an adopted job can stay unaccepted |
| `FitPlanner.FitZoomIsLargest` | scripts/mermaid_fit_probe.py:40-45 | The fit zoom is the largest zoom from 1 to 1000 at which the image fits both axes, and 1 if there is none |
| `FitPlanner.PreferredFillZoom` | scripts/mermaid_fit_probe.py:80 | The larger fill zoom, raised to 70 or lowered to 1000 |
| `FitPlanner.FitIsTighterFill` | scripts/mermaid_fit_probe.py:34-45 | It equals the smaller axis fill zoom, a zero font counting as one |
| `FitPlanner.AxisFillIsLargest` | scripts/mermaid_fit_probe.py:34-37 | The fill zoom of an axis is the largest zoom from 1 to 1000 at which the axis holds its image |
| `FitPlanner.FitIsFillIff` | scripts/mermaid_fit_probe.py:34-45 | For every pane, image and font, whether it equals the smaller computed fill zoom: always with real ones, with an empty axis if and only if the other axis holds its image at full size, with a zero font under the stated coincidences |
| `FitPlanner.FillsAtFullSize` | scripts/mermaid_fit_probe.py:34-37 | An axis fills at 100 or more if and only if it holds its image at full size |
| `FitPlanner.FitOfZeroFontDiffers` | scripts/mermaid_fit_probe.py:34-45 | A concrete zero-font pane where they differ |
| `FitPlanner.ViewIsLongest` | scripts/mermaid_fit_probe.py:67 | What a pane shows of an axis is the longest stretch whose scaled size it holds |
| `FitPlanner.ScrollCentres` | scripts/mermaid_fit_probe.py:64-72 | The scrolled window stays inside the image and the far margin exceeds the near one by 0 to less than two zoomed cells |
| `FitPlanner.NoScrollIff` | scripts/mermaid_fit_probe.py:64-72 | There is no scroll if and only if a size is missing or the image overhangs the view by less than two zoomed cells |
| `FitPlanner.CellCovers` | scripts/mermaid_fit_probe.py:30-31 | A zoomed cell is the least number of pixels whose scaled size covers the cell |
| `FitPlanner.ContainFits` | scripts/mermaid_fit_probe.py:48-61 | The contained image lies in the pane, is centred to within a cell, fills one axis, and takes the fewest cells that hold it |
| `FitPlanner.ContainMeaning` | scripts/mermaid_fit_probe.py:48-61 | In terms of pixels: at the largest scale at which both axes of the image are no longer than those of the pane, each takes the fewest cells that hold it; without a pane or an image the whole pane |
| `FitPlanner.FillScrollsOneAxis` | scripts/mermaid_fit_probe.py:75-100 | A fill zoom not raised to the floor does not scroll along the axis that determined it |
| `FitPlanner.FillCrops` | scripts/mermaid_fit_probe.py:90-100 | For every pane, image and font, a filling plan crops if and only if pane and image are not both empty along one axis |
| `FitPlanner.UnderutilizedIsArea` | scripts/mermaid_fit_probe.py:82-89 | For every pane, image and font, the area check alone decides the three utilisation checks |
| `FitPlanner.PlanModes` | scripts/mermaid_fit_probe.py:82-124 | For every pane, image and font, when each of the two rules fills, with the thresholds 70, 85 and 5 spelled out, and with which zoom and scroll |
| `FitPlanner.DefaultPlan` | scripts/mermaid_fit_probe.py:238-240 | The plans for the pane, image and font assumed by default |
| `FitPlanner.ClippingDefect` | scripts/mermaid_fit_probe.py:82-124 | For every pane, image and font, the rules differ exactly on a crop of a diagram that fits into at least the target share of the pane and whose fit zoom is below the floor |
| `ProcessTree.CollectDescendants` | scripts/bench_memory_cli.py:287-300 | Returns exactly the roots and the pids that lead to a root from parent to parent, and terminates on cyclic parent maps and repeated stack entries |
| `TestBlocks.AtMostOneBlockKept` | scripts/check_panic_budget.py:82-104 | Whatever the file, the skip stack holds at most one entry, which is positive, with no attribute pending |
| `TestBlocks.BudgetMeaning` | scripts/check_panic_budget.py:79-105 | On every file the budget scanner leaves out exactly the test attributes in either spelling, the modules and functions that one of them outside test items waits for, and the lines up to the one that closes such an item |
| `TestBlocks.DepMeaning` | scripts/analyze_root_crate.py:225-245 | On every file the dependency scanner leaves out exactly the plain test attributes, whatever opens the next brace after one, and the lines up to the one that closes what it took last |
| `TestBlocks.SelectMeaning` | scripts/analyze_root_crate.py:245 | The output is the lines marked as kept, in order |
| `TestBlocks.BracesCount` | scripts/check_panic_budget.py:69-76 | The brace balance is the number of opening braces less that of closing ones |
| `TestBlocks.ProductionLines` | scripts/check_panic_budget.py:79-105 | The loop outputs exactly those lines; on files in step these are all but the test attributes and the items they belong to |
| `TestBlocks.LibraryLines` | scripts/analyze_root_crate.py:225-245 | The same for the dependency scanner |
| `TestBlocks.KeptMeaning` | scripts/analyze_root_crate.py:230-245 | On a file in step both scanners leave out exactly the test attributes and each item such an attribute waits for, up to the line that closes its braces |
| `TestBlocks.ScannersAgree` | scripts/analyze_root_crate.py:230-245 | While every line keeps them in step, both scanners keep exactly the same lines |
| `TestBlocks.BreachSeparates` | scripts/analyze_root_crate.py:230-245 | Any other line separates them: at once, or for a nested attribute and a spelling that opens a brace, within two lines free of test attributes |
| `TestBlocks.ShownAgreeIff` | scripts/analyze_root_crate.py:230-245 | From any common place, unless the first line out of step is one of those two, the scanners keep the same lines if and only if the file is in step |
| `TestBlocks.AgreeIff` | scripts/analyze_root_crate.py:230-245 | On every file without nested test attributes and without other spellings that open a brace on their line, the scanners keep the same lines if and only if it is in step |
| `TestBlocks.InStepIff` | scripts/analyze_root_crate.py:230-245 | Any file is in step if and only if the scanners agree on each of its beginnings, alone or with harmless lines behind a test attribute |
| `TestBlocks.ScannersDiffer` | scripts/analyze_root_crate.py:232-238 | When a test attribute stands on code such as an import, or on a module declared without a body, the dependency scanner leaves out the next line that opens a brace, after any number of lines that open none, and the budget scanner keeps it |
| `TestBlocks.SpellingSeparates` | scripts/check_panic_budget.py:29-30 | A spelling only the budget scanner recognises separates them within one further line |
| `TestBlocks.NestingSeparates` | scripts/analyze_root_crate.py:232-243 | A nested test attribute separates them within two further lines, whatever the depth |
| `Ratchet.Check` | scripts/check_panic_budget.py:160-187 | The regressions are exactly the grown total, the new files and the grown files |
| `Ratchet.TotalAddsUp` | scripts/check_panic_budget.py:150 | A total adds up the counts |
| `Ratchet.FilesDecide` | scripts/check_panic_budget.py:134-187 | Against a written baseline the per-file checks alone decide the outcome |
| `Ratchet.RatchetHolds` | scripts/check_panic_budget.py:134-187 | Over any run of renewals from passing trees no count, no total and no set of tracked files ever grows |
| `Ratchet.TotalCounts` | scripts/check_swallowed_error_budget.py:130-139 | The nested loops give each pattern its total, and the pattern totals add up to the grand total |
| `Ratchet.TableAddsUp` | scripts/check_swallowed_error_budget.py:126-139 | Grand total and pattern totals add up the rows of the table |
| `Ratchet.ByFileIsByPattern` | scripts/check_swallowed_error_budget.py:126-139 | Adding up by file and by pattern gives the same number |
| `Ratchet.FilesBoundGrandTotal` | scripts/check_swallowed_error_budget.py:202-225 | The per-file check bounds the grand total |
| `Ratchet.FilesBoundPatternIff` | scripts/check_swallowed_error_budget.py:207-225 | It bounds the total of one pattern if and only if no file of the baseline has any other pattern, which is why patterns are checked separately |
| `MemoryLog.ComputeSpikes` | scripts/analyze_runtime_memory_log.py:394-404 | Returns exactly the spikes, largest first, and they bound the net growth |
| `MemoryLog.SpikesMeaning` | scripts/analyze_runtime_memory_log.py:394-404 | The spikes are, in log order, those of all neighbouring pairs that go up or down by the threshold or more, with both sizes and the signed difference |
| `MemoryLog.SizesMeaning` | scripts/analyze_runtime_memory_log.py:395 | Samples without a process size are skipped, and no others |
| `MemoryLog.GrowthIsSum` | scripts/analyze_runtime_memory_log.py:594 | The net growth is the sum of the steps from sample to sample, negative when the process shrank |
| `MemoryLog.GrowthBound` | scripts/analyze_runtime_memory_log.py:578-604 | Net growth is at most the spikes plus threshold minus one for every other pair, for any threshold |
| `MemoryLog.NoSpikesNoGrowth` | scripts/analyze_runtime_memory_log.py:578-604 | Without spikes it is at most threshold minus one per pair |
| `MemoryLog.PeakBound` | scripts/analyze_runtime_memory_log.py:584-596 | With a positive threshold the same bound holds for every sample and so for the peak |
| `ReloadAudit.Parser.ParseLogs` | scripts/reload_recovery_audit.py:244-412 | After the pass every intent holds exactly the events attributed to its key, in order; of two kinds the latest |
| `ReloadAudit.AttributedIff` | scripts/reload_recovery_audit.py:244-412 | An event belongs to a key exactly when its line gives rise to it there |
| `ReloadAudit.AttributedMeaning` | scripts/reload_recovery_audit.py:244-412 | In terms of the lines alone: an event belongs to a key exactly when its line names the key itself, or names the session and follows, as the closest, a line naming that reload for it |
| `ReloadAudit.FieldsHold` | scripts/reload_recovery_audit.py:206-241 | Each field of an intent holds the events of its kind, two of them the latest |
| `ReloadAudit.AttributedInOrder` | scripts/reload_recovery_audit.py:244-412 | The events attributed to a key stand in log order, each once |
| `ReloadAudit.LastReloadIsClosest` | scripts/reload_recovery_audit.py:328-399 | A session-only line takes the reload of the closest earlier line naming one for its session |
| `ReloadAudit.NoReloadIff` | scripts/reload_recovery_audit.py:328-399 | It is dropped if and only if there is no such line |
| `ReloadAudit.OkIffEvidence` | scripts/reload_recovery_audit.py:121-154 | The verdict is fine if and only if some line of the log is attributed to the intent as queued or accepted |
| `ReloadAudit.VerdictMeaning` | scripts/reload_recovery_audit.py:139-154 | For each of the seven verdicts, exactly the events of the log and the durable status that give it |
| `ReloadAudit.DurableSetsStatus` | scripts/reload_recovery_audit.py:139-154 | A durable record changes the status of its intent and nothing else |
| `ReloadAudit.OkIsFinal` | scripts/reload_recovery_audit.py:121-154 | No later log event, trace event or durable record takes a fine verdict back |

## Left out

- Printed reports, `--json` output, argument parsing, and the sorting of cycles and of eviction
  candidates. Back-edges are sorted by reference count; ties may come in any order.
- The dead `in_w` and `out_w` tables of `eades_order`, which are filled and never read.
- Python's recursion limit in the component search.
- Regular expressions, file reading and JSON: a source line is its kind and brace counts, a log line
  the fields that are matched, and facade classification and reference counting are inputs.
- Floating point in the containing rectangle and the utilisation ratios: exact reals and integers are
  used, so rounding at a cell boundary is not covered.
- Visual metrics of a rendered image (`scripts/mermaid_fit_probe.py`).
- A crash between the two file writes of `append_result`: both happen in one step.
- Two invocations of one campaign running at the same time.
- The contents a job leaves behind: any directories may appear, so nothing is said about rewards.
  In a parallel run they appear just before the result is recorded, which is when they are first read.
- Timestamps, hashes and other unpinned manifest entries.
- Summing process memory over a tree (`scripts/bench_memory_cli.py`): rounding of measured values.
- Improvements listed by the ratchets, and the other budget scripts that repeat the same ratchet.
- Transcript markers and roles in the reload audit.
- Files on which the scanners fall out of step at a nested attribute, or at a spelling that opens a brace
  on its own line, and yet happen to end with the same lines.
- Entry names that are paths: every entry is taken to have a job directory of its own, whereas that of
  the empty name also holds the directories of all other entries.
