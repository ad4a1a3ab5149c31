# Prumo: a verified model of its deterministic cores

Prumo drives coding agents through recipes, budgets, compiled instructions and compiled context.
This project models the parts of it that decide something by computation alone, and proves what
they promise for every input, every run and every interleaving. Code that works by assignment and
loops (the depth-first search, the saga executor, the YAML scanners, the polling session, the
timeline, the context packer, the decision engine, the budget manager) is modelled as classes and
methods with loop invariants; each method is proved equal to a function of its inputs or of the old
state, and the theorems are lemmas about those functions, stated with notions that stand apart
from the code (walks and cycles, selections and per-authority counts, printed documents,
windows on a log, the order of versions position by position).

Verify everything with `dafny verify dfyconfig.toml`.

| file | what it holds |
|---|---|
| `text.dfy`, `sorting.dfy` | string helpers and a stable sort, with the uniqueness and stability of what it yields |
| `recipe_lint.dfy`, `recipe_executor.dfy` | the recipe linter and the saga executor |
| `yaml_flow.dfy`, `yaml_block.dfy` | the legacy YAML parser: scanner and scalars, then the block descent |
| `yaml_flow_print.dfy`, `yaml_block_print.dfy`, `yaml_document.dfy` | a reference printer and the proof that the parser undoes it |
| `yaml_reading.dfy` | what was read of any accepted text, and what is rejected |
| `timeline.dfy`, `run_observation.dfy` | the bounded timeline, the polling session and the daemon it observes |
| `context_packer.dfy`, `context_theorems.dfy` | the context packer and what its pack achieves |
| `agent_rules.dfy`, `agent_theorems.dfy` | scoped instruction rules, their compilation order, and inheritance between scopes |
| `agent_rendering.dfy`, `agent_precedence.dfy` | what a surface shows of the effective rules, when a conflict is reported, and which declaration of an id wins |
| `decision_engine.dfy` | the rule provider and the batched decision engine |
| `semver.dfy`, `semver_precedence.dfy` | version order and updates, and where the order of tags is that of Semantic Versioning |
| `budget_manager.dfy`, `placeholders.dfy` | budget envelopes, pseudo-localisation |

## How the environment is modelled

- Iterating over a Go map is picking remaining keys arbitrarily, so the linter's results hold for
  every iteration order. `sort.Slice` is any sorted arrangement; `sort.SliceStable` also keeps ties.
- A step handler and a compensation are arbitrary functions of a world and a step that yield a new
  world and may fail, so an attempt can fail now and succeed later. Handler calls are recorded in a
  ghost trace.
- Failing or successful daemon reads are inputs of `Poll`; in the interleaved system the daemon
  may move between any two client steps. Its write order (last event before the terminal status)
  is the assumption stated at `archive/tui/session.go:116-118`.
- Decision providers are arbitrary functions from a request to answers or an error. Rule conditions
  are predicates on the state.
- The text normaliser of the conflict check is an arbitrary function parameter.
- Money, confidence and metered quantities are reals. Other integers are unbounded, except that
  reading a number accepts exactly the 64-bit range and otherwise fails or saturates as
  `strconv.Atoi` does.
- A result that a reconnect overtakes stays in the view's queue ahead of the replay.
- Text is a sequence of characters. Pseudo-localisation and the placeholder check are the
  exception: they work on bytes, valid UTF-8 or not.

## What the proofs found

- **List items with colons.** A list item that contains a colon anywhere, even inside quotes, and
  does not start with `[` is read as a map. A flow map with fields is then read as a map whose
  first key is empty, whatever its fields are, so it loses them; `{}` has no colon and survives,
  and so does a map that means `{"": ""}`, as `{: ""}` does, because that is what it is read as.
  `ScalarItemExactly` gives the exact condition for every flow value and `EmptyKeyedMapSurvives`
  that one surviving map.
- **Indentation errors.** The test at `internal/cliops/legacy_yaml.go:36-38` never fails: every caller
  passes the indentation of the line it starts at (`AcceptedIsWhole`).
- **Empty documents.** The YAML entry point indexes line 0 of the content lines, so it panics
  exactly when there are none (`ParseLegacyYaml`).
- **Scopes.** `NormalScope` is not idempotent, and depth is computed after normalising again. For
  the scope `"a/ /"` this breaks the inheritance order; `InheritanceExactly` says for which rule
  lists inheritance holds, and scopes that normalise once and for all are among them.
- **Who wins.** The comment at `internal/agentsurface/ir.go:89-91` says that nested scopes take
  precedence, but rendering keeps the first declaration of an id in compilation order, with
  canonical scopes the broadest one. `InnerDeclarationLoses` is an input: a rule declared at the
  root and again at `a` shows its root text even at `a`. `NarrowestWinsExactly` says for every rule
  list when the comment does hold: each enabled declaration must say what the declaration compiled
  first among those around its scope says. Where the enabled rules nest in compilation order, this
  is one text for one id in nested scopes (`NarrowestWinsWhereNested`); elsewhere texts may differ
  (`DifferentTextsCanWin`).
- **Decision slots.** An abstention without a question id does not count as recorded: a later one
  overwrites it, and in the end the question is escalated.
- **Panics and confidence.** A provider that returns more answers than questions makes the
  remapping panic (`TooManyAnswersPanic`), and no further provider prevents that. The comment at
  `internal/decision/decision.go:170-172` promises answers that meet the threshold, but the engine
  compares no confidence (`LowConfidenceIsPassedOn`). `HonestProvidersExactly` says which providers
  may be chained without either; rule providers are among them.
- **Prerelease tags.** Tags compare as plain strings, so `rc.9` is above `rc.10`
  (`NinthAboveTenth`). `TagPrecedenceExactly` says for which tags this is the precedence of section
  11 of Semantic Versioning 2.0.0; besides numbers of different length it takes numbers against
  names and hyphens, which sort before the dot. `VersionPrecedenceExactly` says it for whole
  versions, whose numbers are read with 64 bits: beyond them different versions compare as equal
  (`SaturatedVersionsEqual`).
- **Budgets.** `IsBlocked` is set on refusals and never taken back (`BlockedExactly`), but no charge
  reads it (`BlockIsIgnored`): a smaller charge is accepted afterwards (`BlockedEnvelopeAccepts`).
- **Invalid bytes.** Ranging over a string replaces its invalid bytes, so pseudo-localising a text
  with one inside a placeholder fails its own placeholder check (`PseudoLocalizationExactly`).
- **Capital letters.** Pseudo-localisation upper-cases the first byte of a multi-byte character, so
  every capital letter outside placeholders except `Q` leaves invalid UTF-8.
- **Reconnecting during delivery.** A reconnect that overtakes a poll still to be delivered shows
  that poll's events and then the whole log. `ReconnectRepeats` is a run that shows one event twice;
  `ReconnectDuringDelivery` says, over all runs with such reconnects, that the view is exact if and
  only if the overtaken polls carried no events. The main theorems have one poll in flight.

## Model

| member | source | states |
|---|---|---|
| RecipeLint.LintRecipeDag | internal/automation/recipe_dag.go:51-145 | for every iteration order: no findings exactly for the recipes that are structurally sound (existing start, owners, retry limits 0 to 10, compensations, no dangling transition, no cycle), every finding names a defect the recipe has, every defect but further cycles is found, and a cycle is reported exactly when the transition graph has a closed walk |
| RecipeLint.CycleSearch.Visit | internal/automation/recipe_dag.go:107-129 | terminates on the unvisited ids; either it has found a path that is a walk of the graph and whose last node points back into it, or its node is finished, the finishing order has only grown and still lists successors first, and grey ids are exactly the current path |
| RecipeLint.DetectCycle | internal/automation/recipe_dag.go:102-142 | at most one report, none exactly on acyclic graphs, and the reported path is a genuine walk closed by its last edge |
| RecipeLint.GenuineCycleIsCyclic | internal/automation/recipe_dag.go:115-118 | what the search reports is a closed walk of the graph |
| RecipeLint.OrderedIsAcyclic | internal/automation/recipe_dag.go:128-142 | a finishing order that lists every step admits no closed walk |
| RecipeLint.CheckStep | internal/automation/recipe_dag.go:66-99 | the findings of one step in the order they are appended |
| RecipeLint.StepFindingsEmpty | internal/automation/recipe_dag.go:65-100 | the step checks stay silent exactly when every listed step has an owner, a legal retry limit, a compensation if destructive, and only existing successors |
| RecipeLint.FindingsMean | internal/automation/recipe_dag.go:54-142 | which defect gives which finding, in both directions |
| RecipeExecutor.Executor.RunStep | internal/automation/recipe_dag.go:181-188 | the retry loop: result and handler calls of at most retry limit plus one attempts |
| RecipeExecutor.AttemptsInTurn | internal/automation/recipe_dag.go:181-188 | those attempts told by single handler calls: each starts in the world the one before it left, all but the last fail, and the last succeeds or uses up the limit |
| RecipeExecutor.RetryCompletes | internal/automation/recipe_dag.go:181-211 | a recipe whose one step fails, leaves its mark, succeeds on the retry because of it, and completes |
| RecipeExecutor.TryCallsBounded | internal/automation/recipe_dag.go:181-188 | a step is called at least once and at most as often as allowed, and a step that ends in failure exactly that often |
| RecipeExecutor.Executor.Compensate | internal/automation/recipe_dag.go:191-199 | the unwinding loop applies the registered compensations of the completed steps from last to first |
| RecipeExecutor.Executor.WalkSteps | internal/automation/recipe_dag.go:171-213 | on a sound recipe the walk terminates although it keeps no visited set; it follows first successors from the start, stops at a terminal step or the first failing one, and its calls and final world are those of that path |
| RecipeExecutor.Executor.Execute | internal/automation/recipe_dag.go:164-214 | refuses exactly the unsound recipes, touching nothing; otherwise visits pairwise distinct steps with at most eleven forward calls per step of the recipe |
| RecipeExecutor.PathFollowsFirst | internal/automation/recipe_dag.go:172-211 | a run starts at the start step and goes from each step to its first successor |
| RecipeExecutor.CompletedAtTheEnd | internal/automation/recipe_dag.go:190-213 | it completes only at a step with no successor or an empty one, and a failure names the step it reached |
| RecipeExecutor.UnhandledRecipeCompletes | internal/automation/recipe_dag.go:176-179 | where nothing has a handler a sound recipe completes and touches nothing |
| RecipeExecutor.AcyclicWalkIsDistinct | internal/automation/recipe_dag.go:174-211 | what the linter's search established is why the executor never comes back to a step |
| RecipeExecutor.FirstPathFits | internal/automation/recipe_dag.go:174-211 | a path of first successors on a sound recipe is no longer than the recipe and costs at most eleven calls a step |
| RecipeExecutor.UndoCallsAreReverse | internal/automation/recipe_dag.go:191-199 | compensation calls are the completed destructive steps with a registered handler, each once, in strict reverse |
| RecipeExecutor.FailedRunCompensates | internal/automation/recipe_dag.go:190-200 | the whole trace of a failed run: the forward calls, then those compensations, the failing step never among them |
| RecipeExecutor.FailedRunRestores | internal/automation/recipe_dag.go:190-200 | for any view of the world: if compensations undo their steps in that view, and failed attempts and uncompensated steps leave the view alone, a failed run returns a world with the view it started from, through any number of failed and then successful retries |
| RecipeExecutor.FailedRunRestoresWorld | internal/automation/recipe_dag.go:190-200 | with the whole world in view, the world itself is restored |
| YamlFlow.SplitYamlKey | internal/cliops/legacy_yaml.go:108-134 | the loop finds the first colon outside quotes and brackets and trims both sides |
| YamlFlow.SplitYamlValues | internal/cliops/legacy_yaml.go:181-211 | the loop cuts at exactly the commas outside quotes and brackets |
| YamlFlow.CutResets | internal/cliops/legacy_yaml.go:181-211 | at every cut the scanner is back in its starting state |
| YamlFlow.JoinSplitValues | internal/cliops/legacy_yaml.go:181-211 | for every string, well formed or not, joining the pieces with commas gives the string back |
| YamlFlow.PiecesAreAtoms | internal/cliops/legacy_yaml.go:181-211 | for every string, each piece splits to itself |
| YamlFlow.ParseYamlScalar | internal/cliops/legacy_yaml.go:136-179 | the recursive scalar parser terminates on every text and yields the value its specification reads |
| YamlFlowPrint.PrintIsTidy | internal/cliops/legacy_yaml.go:136-211 | every printed flow value is trimmed, balanced and free of commas the scanner would cut at |
| YamlFlowPrint.FlowRoundTrip | internal/cliops/legacy_yaml.go:136-211 | for every nested list, map, integer, boolean, null (in both spellings), quoted or bare string the scalar parser undoes the printer; brackets, commas and colons inside quotes are inert |
| YamlBlock.ParseBlock | internal/cliops/legacy_yaml.go:32-102 | for every input the descent terminates, and on success it consumes at least one line and never reads past the end |
| YamlBlock.ParseYamlBlock | internal/cliops/legacy_yaml.go:32-102 | the loop over the keys of a map, with its error positions, computes the specified descent |
| YamlBlock.ParseYamlList | internal/cliops/legacy_yaml.go:39-82 | the loop over list items computes the specified descent |
| YamlBlock.ParseYamlItem | internal/cliops/legacy_yaml.go:42-79 | one list item: a scalar, or a map whose further keys are all lines deeper than the dash |
| YamlBlock.ParseYamlEntry | internal/cliops/legacy_yaml.go:89-99 | the value of a key: the deeper block below it when nothing follows the colon, else the scalar |
| YamlBlock.ParseLegacyYaml | internal/cliops/legacy_yaml.go:9-30 | the entry point with its comment, blank and line-end filter, its three rejections, and a panic exactly when no content line is left |
| YamlReading.AcceptedIsWhole | internal/cliops/legacy_yaml.go:9-102 | for every text: if it is accepted, no content line stands left of the first one, and every one at the first one's column has a key that is in the result; if it is rejected, it is for one of its lines or because its root is a list, never for its indentation; it panics only without content lines |
| YamlReading.MapReadsItsKeys | internal/cliops/legacy_yaml.go:83-101 | for every text: the key loop reads only lines from its column on and drops none of the keys at its column |
| YamlReading.LineTooManyIsRejected | internal/cliops/legacy_yaml.go:22-24 | a printed block followed by a line further left, or a printed map ending in a scalar followed by a deeper line, is rejected at exactly that line, whatever comes after |
| YamlReading.CommentsAreDropped | internal/cliops/legacy_yaml.go:10-17 | a comment or an empty line, indented or not, changes nothing wherever it stands |
| YamlBlockPrint.BlockRoundTrip | internal/cliops/legacy_yaml.go:32-102 | a printed block, nested to any depth and followed by anything further left, is read back whole and ends where it ends |
| YamlBlockPrint.MapRoundTrip | internal/cliops/legacy_yaml.go:83-101 | the same for the remaining keys of a map, whatever was read before |
| YamlBlockPrint.ListRoundTrip | internal/cliops/legacy_yaml.go:39-82 | the same for the remaining items of a list |
| YamlBlockPrint.ItemMapRoundTrip | internal/cliops/legacy_yaml.go:57-74 | the same for the keys of a list item after its first |
| YamlDocument.LegacyRoundTrip | internal/cliops/legacy_yaml.go:9-102 | a printed map comes back from the entry point at every indentation and step, for either line end, with comments and blank lines anywhere; a printed list is rejected as a root |
| YamlDocument.PrintedRoundTrip | internal/cliops/legacy_yaml.go:9-102 | the printed text itself round-trips when no line reads as a comment or holds a newline |
| YamlDocument.ScalarItemExactly | internal/cliops/legacy_yaml.go:42-79 | every printable flow value written as a list item is read back if and only if it holds no colon or starts with a bracket, or it means the map with one empty key and an empty text and no line below belongs to the item |
| YamlDocument.FlowMapItemHasEmptyKey | internal/cliops/legacy_yaml.go:42-75 | a flow map with fields written as a list item is read as an item whose first key is empty, whatever its fields and whatever stands below it |
| YamlDocument.EmptyKeyedMapSurvives | internal/cliops/legacy_yaml.go:42-56 | the item `{: ""}` is taken for a map and read back all the same |
| Timelines.Timeline.Append | archive/tui/timeline.go:80-95 | the new row, the dropped rows and the renumbering, as one change of the view |
| Timelines.Timeline.Reindex | archive/tui/timeline.go:117-121 | every row carries its absolute one-based position and nothing else changes |
| Timelines.AppendSlides | archive/tui/timeline.go:80-95 | appending turns the window on a log into the window on the longer log: the last rows that fit, absolute positions, dropped count |
| Timelines.AppendAllSlides | archive/tui/timeline.go:63-121 | after any further events the timeline is the window on all of them |
| RunObservation.Session.Poll | archive/tui/session.go:119-147 | the events past the cursor, or the whole of a log shorter than the cursor, the cursor at the end of the log read, the first permission asked for, and finished exactly for a status other than running and awaiting approval; an unchanged session on either failed read |
| RunObservation.PollsAddUp | archive/tui/session.go:131-135 | what a session hands over in any number of polls of a growing log is the last log read from the first cursor on: no event twice, none left out |
| RunObservation.App.constructor | archive/tui/app.go:178-184 | a session message starts the view on an empty timeline |
| RunObservation.App.OnPoll | archive/tui/app.go:186-198 | the poll's events reach the timeline in order, and a finished run shows its evidence |
| RunObservation.App.Reconnect | archive/tui/app.go:383-404 | the rows are dropped and only the cursor of the session is rewound |
| RunObservation.InvariantKept | archive/tui/session.go:106-147 | every daemon and client step keeps: handed-out events are the log up to the cursor, the view is their window, and a terminal status already read means that the log is complete |
| RunObservation.ViewIsWindowOnPrefix | archive/tui/timeline.go:79-121 | in every run, at every moment and across reconnects, the timeline is the window on a prefix of the log |
| RunObservation.FinishingPollIsLast | archive/tui/session.go:106-118 | in every run, when a poll first reports the end, the polls since the last connect add up to the whole log, without loss or repetition |
| RunObservation.FinishedIsComplete | archive/tui/session.go:106-147 | when the evidence is shown the view is complete, and the log never grows afterwards |
| RunObservation.PollFinishes | archive/tui/app.go:186-198 | once the daemon has ended, one undisturbed poll leads to a complete view with the evidence shown |
| RunObservation.ReconnectRebuilds | archive/tui/app.go:383-404 | a reconnect followed by one poll shows exactly what incremental polling would show |
| RunObservation.EventsFirstLoses | archive/tui/session.go:109-114 | with the reads swapped there is a run that shows the evidence with events unseen |
| RunObservation.EventsFirstInvariantKept | archive/tui/session.go:109-114 | with the reads swapped every step still keeps the handed-out events equal to the log up to the cursor |
| RunObservation.EventsFirstExactly | archive/tui/session.go:109-114 | in every run with the reads swapped, a poll that reports the end adds up to the whole log if and only if the log did not grow between its two reads |
| RunObservation.CrossingInvariantKept | archive/tui/app.go:383-404 | with reconnects that overtake undelivered polls, what is shown and still queued is always the overtaken events followed by the log up to the cursor |
| RunObservation.ReconnectDuringDelivery | archive/tui/app.go:383-404 | in every such run, once everything is delivered, the view is the window on what was read of the log if and only if the overtaken polls carried no events |
| RunObservation.ReconnectRepeats | archive/tui/app.go:383-404 | a run in which a log of one event is shown as two |
| ContextPacker.SortSources | internal/contextcompiler/context.go:31-39 | the caller's array is rearranged in place into some sorted order of the same sources |
| ContextPacker.Pack | internal/contextcompiler/context.go:40-51 | in the caller's array exactly the picked sources end as included, with the pack's reason; references, authorities, freshness, costs and other reasons are unchanged, and the total is the cost of what was picked |
| ContextPacker.Compile | internal/contextcompiler/context.go:30-60 | the sorted array packed that way, and a manifest whose estimate is the cost of the sources the array says are included |
| ContextTheorems.PackedMeans | internal/contextcompiler/context.go:42-51 | of the packed array: the included sources cost no more than a budget that is not negative, none repeats a reference, and each one left out repeats an included reference or would not fit beside those included |
| ContextTheorems.PackedIsOptimal | internal/contextcompiler/context.go:30-51 | of the packed array with distinct references and no negative cost: no other selection of its sources within the budget has a greater vector of per-authority counts, read in authority order, than those marked as included |
| ContextTheorems.PackedAlike | internal/contextcompiler/context.go:31-59 | two calls on the same sources in any two orders leave arrays that include the same references at the same total |
| ContextTheorems.PackIsOptimal | internal/contextcompiler/context.go:30-51 | with distinct references and no negative cost, no selection within budget has a greater vector of per-authority counts, read in authority order |
| ContextTheorems.GroupOptimal | internal/contextcompiler/context.go:42-51 | inside one authority no selection that fits has more sources, and none with as many is cheaper |
| ContextTheorems.OrderDoesNotMatter | internal/contextcompiler/context.go:31-59 | the included references and the total, hence the pressure, depend only on the multiset of sources, not on their order or on how the unstable sort breaks ties |
| ContextTheorems.EstimateWithinBudget | internal/contextcompiler/context.go:42-51 | the included costs never pass a budget that is not negative |
| ContextTheorems.ExcludedForAReason | internal/contextcompiler/context.go:43-50 | an excluded source repeats an included reference or still does not fit at the end, and no reference is included twice |
| ContextTheorems.PressureLevels | internal/contextcompiler/context.go:52-58 | the truncated integer thresholds are exactly 80 and 100 percent of the budget |
| AgentRules.EffectiveRules | internal/agentsurface/ir.go:103-122 | the rules whose scope contains the target, normalised, in the stable compilation order |
| AgentRules.EffectiveOrder | internal/agentsurface/ir.go:100-120 | of two effective rules the earlier has the shallower scope, with equal depth the smaller precedence, and with that equal too the smaller id |
| AgentTheorems.ScopeSpellings | internal/agentsurface/ir.go:78-87 | spaces, a leading "./" or slash and a trailing slash around a clean path are dropped, and the root has three spellings |
| AgentRules.SortStable | internal/agentsurface/ir.go:111-120 | the same rules, sorted by depth, precedence and id, ties in declared order |
| AgentRules.WithinComparable | internal/agentsurface/ir.go:92-98 | two scopes around one target are nested in one another |
| AgentRules.WithinTransitive | internal/agentsurface/ir.go:92-98 | containment of scopes is transitive |
| AgentRules.RenderBullets | internal/agentsurface/adapters.go:130-148 | the ids and the joined bullets of the effective rules enabled for the adapter, one per id, and the sources those rules list, in strictly ascending order and without empty ones |
| AgentRules.Dedupe | internal/agentsurface/adapters.go:150-161 | exactly the values that are not empty, each once; in ascending order if they came sorted |
| AgentRules.Conflicts | internal/agentsurface/ir.go:163-192 | the reports of the scan that remembers only the latest rule per text and per id, sorted by kind and rule id |
| AgentTheorems.EffectiveHas | internal/agentsurface/ir.go:103-110 | every rule whose scope contains the target is effective there |
| AgentTheorems.EffectiveOrigin | internal/agentsurface/ir.go:103-122 | every effective rule is a declared one whose scope contains the target |
| AgentTheorems.SortsApart | internal/agentsurface/ir.go:103-122 | where the compilation order respects the nesting of the declared scopes, the effective rules of an inner scope are those of the outer scope followed by the sorted additions |
| AgentTheorems.InheritanceExactly | internal/agentsurface/ir.go:103-122 | for every pair of nested scopes the outer one's effective rules are a prefix of the inner one's, if and only if the compilation order respects the nesting of the declared scopes |
| AgentTheorems.CanonicalScopesInherit | internal/agentsurface/ir.go:79-122 | this always holds when every declared scope normalises once and for all |
| AgentTheorems.TwiceNormalisedScopeBreaksInheritance | internal/agentsurface/ir.go:79-150 | a two-rule list whose scope needs normalising twice and whose inheritance fails |
| AgentRendering.RenderingInherits | internal/agentsurface/adapters.go:130-148 | where the enabled rules nest in compilation order, the ids and the text rendered for a scope are a prefix of those of any scope inside it |
| AgentRendering.RenderingInheritsExactly | internal/agentsurface/adapters.go:130-148 | if the enabled rules have pairwise different ids, this holds between all nested scopes if and only if they nest in compilation order |
| AgentRendering.EffectiveKeeps | internal/agentsurface/adapters.go:134-137 | a rendering is that of the enabled rules alone: leaving out the others before or after sorting is the same |
| AgentRendering.RenderedOnce | internal/agentsurface/adapters.go:130-148 | every enabled rule's id is rendered, and each only once |
| AgentRendering.FirstDeclarationWins | internal/agentsurface/adapters.go:134-145 | a rendered bullet is that of the first enabled rule with its id in compilation order |
| AgentRendering.RenderedSources | internal/agentsurface/adapters.go:134-147 | the sources a rendering carries are exactly those of the first enabled rule of each id |
| AgentPrecedence.ShownIsFirst | internal/agentsurface/adapters.go:130-148 | at every target an id shows the text of the declaration compiled first, ties by declared order, among its enabled declarations that apply there |
| AgentPrecedence.NarrowestWinsExactly | internal/agentsurface/ir.go:89-98 | for every list of rules: at every target each id shows its narrowest enabled declaration, if and only if every enabled declaration says what the one compiled first among those around its own scope says |
| AgentPrecedence.NarrowestWinsWhereNested | internal/agentsurface/ir.go:89-98 | one text for one id in nested scopes is always enough, and where the enabled rules nest in compilation order it is also necessary |
| AgentPrecedence.DifferentTextsCanWin | internal/agentsurface/ir.go:79-150 | two declarations, one with a scope that is not canonical, whose texts differ and of which the narrowest still wins everywhere |
| AgentPrecedence.InnerDeclarationLoses | internal/agentsurface/adapters.go:134-145 | two canonical declarations of one id whose outer text is shown at the inner scope |
| AgentRendering.ConflictFreeExactly | internal/agentsurface/ir.go:160-192 | no conflict is reported if and only if among the rules the normalised text determines the id and the id the text, although only the latest rule per key is remembered |
| AgentRendering.ReportsAreClashes | internal/agentsurface/ir.go:168-184 | every duplicate reported is of two rules with one text and different ids, every conflict of two rules with one id and different texts, the later rule named first |
| DecisionEngines.RuleDecisionProvider.Decide | internal/decision/decision.go:103-158 | one answer per question, that of the first matching rule, or an abstention below the threshold or without a match |
| DecisionEngines.DecidedByFirstMatch | internal/decision/decision.go:112-148 | a question is decided if and only if its first matching rule meets the threshold, and then with that rule's outcome |
| DecisionEngines.BatchDecided | internal/decision/decision.go:104-137 | in a batch a question is decided if and only if its first matching rule is as confident as the request asks, or as 70 percent if it asks for nothing |
| DecisionEngines.DecisionEngine.Unanswered | internal/decision/decision.go:186-193 | the open questions in order with their original positions |
| DecisionEngines.DecisionEngine.RecordBatch | internal/decision/decision.go:205-214 | the batch is put back at the original positions; it panics exactly when it is longer than what was asked |
| DecisionEngines.DecisionEngine.Evaluate | internal/decision/decision.go:173-241 | the provider loop with its remapping, its skipped errors and its early stop |
| DecisionEngines.EvaluationIsPerQuestion | internal/decision/decision.go:173-241 | for providers that treat questions one by one the batched, remapped, early-stopping evaluation gives every question what the providers, asked in turn about it alone, would give |
| DecisionEngines.FirstDecisionWins | internal/decision/decision.go:207-209 | that is the first answer that is not an abstention |
| DecisionEngines.FirstAbstentionStands | internal/decision/decision.go:210-213 | else the first abstention that names its question |
| DecisionEngines.NobodyEscalates | internal/decision/decision.go:217-230 | else the escalation |
| DecisionEngines.DecidedStays | internal/decision/decision.go:183-215 | whatever providers follow, and however they answer, a decided question keeps its answer |
| DecisionEngines.AppendingKeepsDecisions | internal/decision/decision.go:183-215 | appending providers of any kind never changes a decided answer and never repairs a panic |
| DecisionEngines.HonestProvidersExactly | internal/decision/decision.go:170-215 | every chain drawn from some providers answers every request without a panic and with no decision below the request's threshold, if and only if each of the providers, asked anything, fails or gives at most one answer a question and only decisions that meet the threshold |
| DecisionEngines.TooManyAnswersPanic | internal/decision/decision.go:205-206 | a provider that answers a question twice makes the engine panic |
| DecisionEngines.RuleProvidersAreHonest | internal/decision/decision.go:103-158 | every rule provider meets that condition, whatever its rules |
| DecisionEngines.LowConfidenceIsPassedOn | internal/decision/decision.go:170-215 | a provider whose answer far below the threshold is returned as a decision |
| DecisionEngines.RuleChainAnswers | internal/decision/decision.go:103-158 | in a chain of rule providers every answer names its own question, and every answer that is not an abstention meets the threshold |
| Semver.CompareSemver | internal/autoupdate/autoupdate.go:124-179 | the loop over the longer part list compares what the specification compares |
| Semver.CompareMeans | internal/autoupdate/autoupdate.go:143-178 | the result is the order of versions stated position by position with missing parts as zero, in both directions, and zero exactly for equal numbers and equal tags |
| Semver.CompareReflexive | internal/autoupdate/autoupdate.go:124-179 | every string compares equal to itself |
| Semver.CompareAntisymmetric | internal/autoupdate/autoupdate.go:124-179 | swapping the versions negates the result, on all strings |
| Semver.CompareTransitive | internal/autoupdate/autoupdate.go:124-179 | the comparison is transitive on all strings, strictly if either step is |
| Semver.ReleaseAbovePrerelease | internal/autoupdate/autoupdate.go:164-170 | with equal numbers a release is above its prereleases, as in section 11 of Semantic Versioning 2.0.0 |
| SemverPrecedence.TagPrecedenceExactly | internal/autoupdate/autoupdate.go:164-176 | for all tags made of identifiers the string comparison gives the precedence of section 11 of Semantic Versioning 2.0.0 if and only if their first differing identifiers are not numbers of different length in the wrong string order, nor a number above a name, nor one that ends before a dot where the other goes on with a hyphen |
| SemverPrecedence.VersionPrecedenceExactly | internal/autoupdate/autoupdate.go:124-179 | for all well-formed versions the comparison of their texts gives the precedence of section 11 if and only if the first two numbers that differ differ within 64 bits, or none differ and a tag is missing or the tags agree; past 64 bits only if what follows happens to compare the same way |
| SemverPrecedence.SaturatedVersionsEqual | internal/autoupdate/autoupdate.go:148-162 | two versions whose major numbers have twenty digits and differ compare as equal |
| SemverPrecedence.SameNumbersPrecedenceExactly | internal/autoupdate/autoupdate.go:164-176 | any two texts with equal numbers and tags compare by precedence if and only if their tags agree |
| SemverPrecedence.NinthAboveTenth | internal/autoupdate/autoupdate.go:171-176 | 1.0.0-rc.9 compares above 1.0.0-rc.10, against the standard |
| Semver.UpdatesAscend | internal/autoupdate/autoupdate.go:530-542 | along any sequence of offers the version installed by default updates stays or goes strictly up |
| Semver.UpdatesNeverRevisit | internal/autoupdate/autoupdate.go:530-542 | a version once left is never installed again |
| Semver.UpdatesReachNewest | internal/autoupdate/autoupdate.go:530-542 | after any sequence of offers the installed version is the current one or one of them, and none of them is above it |
| Semver.ChosenVersions | internal/autoupdate/autoupdate.go:530-535 | a forced update takes the offer whatever its order, and a named target is taken without its prefix |
| Semver.PrefixIsIgnored | internal/autoupdate/autoupdate.go:116-120 | white space and a "v" before a version do not matter |
| BudgetManager.Manager.SetEnvelope | internal/budget/hierarchy.go:91-106 | a fresh envelope replaces whatever the scope had |
| BudgetManager.Manager.RecordConsumption | internal/budget/hierarchy.go:109-145 | cost, verdict and the whole new map of envelopes; other scopes are untouched; an accepted call books its cost within the limits, a refused one changes neither cost nor metrics and was implementation work reaching into the reserve or a call past the hard limit |
| BudgetManager.RunIsSound | internal/budget/hierarchy.go:109-145 | over every run the observed cost is the price of the accumulated metrics and never passes the hard limit |
| BudgetManager.BlockedExactly | internal/budget/hierarchy.go:124-137 | after any run the envelope is marked blocked if and only if it was before or some call was refused |
| BudgetManager.BlockIsIgnored | internal/budget/hierarchy.go:109-145 | over every run, costs, metrics and verdicts are those of an envelope that was never blocked |
| BudgetManager.BlockedEnvelopeAccepts | internal/budget/hierarchy.go:124-144 | a run whose first call is refused and whose second is accepted with the flag still set |
| BudgetManager.ImplementationLeavesReserve | internal/budget/hierarchy.go:124-131 | no sequence of implementation charges reaches into the review reserve |
| BudgetManager.ImplementationAcceptedExactly | internal/budget/hierarchy.go:124-144 | an implementation-only run on a fresh envelope with a reserve is accepted call by call, and booked in full, if and only if its costs never add up to more than the hard limit without the reserve |
| BudgetManager.PriceOfThousands | internal/budget/hierarchy.go:118-120 | prices are per thousand tokens and per tool call |
| BudgetManager.ReserveIsThereForReview | internal/budget/hierarchy.go:124-144 | after any implementation-only run every review charge is accepted while the review charges total at most the reserve |
| Placeholders.PseudoLocalize | internal/doclifecycle/lifecycle.go:226-252 | on any bytes, the loop with its placeholder flag computes the expansion between the two marks, an invalid byte becoming the replacement character |
| Placeholders.LocalizedExpands | internal/doclifecycle/lifecycle.go:224-252 | every letter and space outside placeholders makes the text longer, and nothing makes it shorter |
| Placeholders.LettersChange | internal/doclifecycle/lifecycle.go:240-257 | a letter outside placeholders becomes something longer that starts with another byte |
| Placeholders.PlaceholderNames | internal/doclifecycle/lifecycle.go:313-329 | the braces scanner collects exactly the placeholders, an unclosed one running to the end, in sorted order |
| Placeholders.PlaceholdersBalanced | internal/doclifecycle/lifecycle.go:300-311 | true exactly when the sorted placeholders agree |
| Placeholders.BalancedExactly | internal/doclifecycle/lifecycle.go:297-329 | which is exactly equality as multisets |
| Placeholders.LocalizedNames | internal/doclifecycle/lifecycle.go:226-252 | the placeholders of a localised text are those of the text with invalid bytes replaced, except that one never closed takes in what follows |
| Placeholders.PseudoLocalizationExactly | internal/doclifecycle/lifecycle.go:226-252 | any string passes its own placeholder check after pseudo-localisation if and only if every opening brace is closed later and no placeholder holds an invalid byte, and then its placeholders are kept in order |
| Placeholders.LocalizedIsTextExactly | internal/doclifecycle/lifecycle.go:242-244 | the result is valid UTF-8 if and only if no capital letter but Q stands outside placeholders |

## Left out

- Messages, descriptive step fields, row titles, details and severities: findings and errors keep the data their messages are formatted from, and the abstention below the threshold carries no formatted numbers.
- Timestamps, latency, cost and trace metadata of decisions, contexts and cancellation, and mutexes.
- Floating-point rounding in confidences and costs, and 64-bit overflow of sums and of `budget*80`.
- RunObservation.FinishingPollIsLast: does not model two polls reading at once or a daemon whose log shrinks; a shorter log is covered for one call by the contract of Session.Poll.
- DecisionEngines.EvaluationIsPerQuestion: is stated for providers that answer each question of a batch on its own; DecidedStays and AppendingKeepsDecisions hold for all providers that depend on their request alone.
- YamlBlockPrint.BlockRoundTrip: does not print a list directly inside a list or a list at the column of its key, which the parser does not support.
- Session start, approval, denial and cancellation, the evidence summary, and how the terminal renders any of it.
- Rule validation, and the vendor adapters' file formats.
- AgentRules.EffectiveRules: does not model path separators other than the slash.
- Downloading, verifying and applying an update, the update cache and the periodic check; only the decision which version to install is modelled.
- Build metadata in versions: a tag with a plus sign is compared by the code but is outside SemverPrecedence.
- Budget checkpoints, the pointer that SetEnvelope returns, the parent scope and the currency.
- Translation records, review queues and the other status computations around the placeholder check.
- The command line, scaffolding, sockets and subprocesses.
