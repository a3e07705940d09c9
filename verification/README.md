# Verification of QuantBT's signature, strategy, tape, documentation, ledger and gate logic

This project models the algorithmic parts of QuantBT's tools, parity oracle and runnable strategies in
Dafny and proves what they are relied on for. It needs nothing but Dafny 4.11: `dafny verify dfyconfig.toml`.

- **Signatures and call binding** (`Signatures`, `CallBinding`). The endpoint compatibility report, and Python
  call binding as an independent reference (Python Language Reference, section 6.3.4 "Calls", with the defaults
  of section 8.7 "Function definitions"). An empty report keeps old callers working, except in one exactly
  characterised case.
- **Strategies against an order matcher** (`Matching`, `CommandWriter`, `Grid`, `WakeBatch`, `Controller`, `TargetPath`,
  `Ladder`, `LadderSafety`). `Matching` states the environment: any working order may fill in any order and in any part;
  a limit fills at its price or better; a reduce-only order is clipped to the position; every fill is reported in the
  next callback; commands take effect in emission order; an order that may open exposure can be rejected at any time;
  there is no liquidation. What is proved over every such run, and what needs more:
  - the grid: everything, with no further premise;
  - the ladder: the position bound holds in exactly those runs that enter on a zero position, whatever fills;
  - the entry-and-exit candidates: the position bound with arbitrary fills, and the exact condition for ending flat;
    the account at every bar (`AccountAt`, `FlatBeforeEnd`) assumes full fills at the next open;
  - the target and mean-reversion callbacks: with arbitrary fills, the exact overshoot of one callback and of runs;
    being on target (`StaysClose`, `RegainsExactly`, `CallbackRegainsTarget`, `TapeFollowsExactly`,
    `ClosedEqualsOpen`) assumes full fills at the next open.
- **Order tape** (`OrderTape`). The stable sort, counting pass and in-place prefix sum against a naive scan.
- **Documentation links** (`Fences`, `Anchors`, `Decimal`). The fence filter and the anchor counter.
- **Gamma-scalping ledger** (`GammaLedger`). The in-place accounting loop, over exact reals.
- **Promotion gate** (`EvidenceGate`, `RegistryMeaning`). The report, and what it means for the registry as data: when
  it is empty, what each finding stands for, and when the gate raises.

## Results where the code does less than its reader might expect

Each of these but the last is a theorem with its exact condition, and a lemma at a concrete input.

- An empty compatibility report does not protect callers of a signature with both `*args` and `**kwargs` that gains a
  positional-or-keyword parameter. `CallBinding.AcceptanceExactly` shows that this is the only way,
  `CallBinding.AddedOptionCollides` that `f(1, 2, b=3)` stops binding when `f(a, *args, **kw)` becomes
  `f(a, b=None, *args, **kw)`.
- Conversely the report is stricter than callers need: it also names changes no call can notice, such as `f(a)` becoming
  `f(a=0)` (`CallBinding.AddedDefaultHarmsNobody`). `CallBinding.NoCallBreaksExactly` and
  `CallBinding.ReportedThoughHarmless` say which.
- The ladder opens its next step without looking at the position. If a reduce-only exit fills only in part, the next
  entry can take the position beyond its lot (`LadderSafety.PartialExitOvershoots`: 0.9 of 0.5).
  `LadderSafety.BoundExactly` gives the condition on a run, `LadderSafety.SurelyWithinExactly` the one before any run.
- The entry-and-exit candidate does not cancel its entry. What is left of it when the exit is written can reopen the
  position after the exit (`WakeBatch.EndsFlatExactly`, `WakeBatch.ResidualAtExit`).
- The callbacks look at the position but not at their own working orders, so after a partial fill they order the missing
  part again (`Controller.PartialFillOvershoots`: 1.6 of 1). `Controller.OvershootExactly` gives the condition and
  `Controller.OvershootBound` the size; over runs, `Controller.LoopNeverPastExactly` and `Controller.ExposureGrows`.
- The closed form `slug`, `slug-1`, `slug-2`, ... for anchors fails for headings such as `a`, `a`, `a-1`
  (`Anchors.RepeatedThenLiteral`). `Anchors.ClosedFormExactly` gives the exact condition; uniqueness never fails.
- The rollover branch of the ledger overwrites the previous row's mark-to-market cell with zero, because the position
  value it compares with is always the previous mid. Cumulative P&L is conserved all the same, but the column no longer
  telescopes and the row no longer satisfies its own identity (`GammaLedger.RowIdentityExactly`,
  `GammaLedger.MtmColumnDeficit`, `GammaLedger.RolloverErases`).
- A sparse candidate whose task leaves no room for an exit names a wake bar that the runner refuses, so it trades
  nothing, while the every-bar callback enters and never exits (`WakeBatch.SparseEqualsEveryBar`, `WakeBatch.NoRoom`).
  A candidate whose exit bar is negative raises instead, and the runner aborts the whole batch, sound
  candidates included (`WakeBatch.OneNegativeExitAbortsAll`).
- The command tape drops a transition worth no more than the order threshold and so leaves the target path, by more than
  the threshold after a few of them, where the callback stays within it (`TargetPath.DroppedTransition`).
  `TargetPath.TapeFollowsExactly` gives the exact condition on prices; prices below 2e15 meet it.
- Nothing stops the delivery route at its second contract's flatten timestamp (`Ladder.SecondFlattenReached`,
  `Ladder.FourDaysReachFlatten`).
- `docs/order_fill_policies.md` says that partial fills are not modelled; the matcher fills partially
  (`rust/crates/quantbt-engine/src/session.rs`). The model follows the matcher.

## Model

| member | source | states |
|---|---|---|
| `Signatures.Parameters` | tools/check_endpoint_compatibility.py:33-39 | positional-only, then positional-or-keyword, then keyword-only rows; the defaults belong to the last positional parameters, in order, and each keyword-only parameter has its own |
| `Signatures.BreakingChanges` | tools/check_endpoint_compatibility.py:42-55 | the report says exactly which parameter was removed or changed, newly required, which variadic was lost and whether the positional prefix moved, each once; it is empty exactly for compatible signatures |
| `Signatures.CompatibleExactly` | tools/check_endpoint_compatibility.py:33-55 | compatibility on the raw signature alone: the old positional names are a prefix with kinds and defaults kept, every old keyword-only parameter keeps its default, everything added is optional, and no variadic is lost or renamed |
| `Signatures.ChangedKeywordDefaultIsReported` | tools/check_endpoint_compatibility.py:33-55 | a keyword-only `backend` whose default goes from "auto" to "python" is reported, and nothing else is |
| `Signatures.MethodBreakingChanges` | tools/check_endpoint_compatibility.py:58-66 | adds one finding exactly when the node type or the decorators differ |
| `Signatures.CompatiblePreorder` | tools/check_endpoint_compatibility.py:42-66 | an empty report is reflexive and transitive, decorators and sync/async kind included |
| `CallBinding.RejectionNeedsBothVariadics` | tools/check_endpoint_compatibility.py:42-55 | every call the old signature accepts is accepted by the new one, unless the old one has both variadics and the new one adds a positional-or-keyword parameter |
| `CallBinding.CollidingCall` | tools/check_endpoint_compatibility.py:42-55 | in that case some old call is rejected |
| `CallBinding.AcceptanceExactly` | tools/check_endpoint_compatibility.py:42-55 | both directions together: the exact condition under which an empty report keeps all callers working |
| `CallBinding.OldParametersKeepTheirValues` | tools/check_endpoint_compatibility.py:42-55 | in any call both accept, each old parameter receives the same value |
| `CallBinding.Soundness` | tools/check_endpoint_compatibility.py:42-55 | without variadics: old calls bind, old parameters keep their values, added ones take their defaults, nothing spills over |
| `CallBinding.VariadicsAreAbsorbed` | tools/check_endpoint_compatibility.py:42-55 | what leaves `*args` and `**kwargs` is exactly what the added parameters receive |
| `CallBinding.HarmBreaksACall` | tools/check_endpoint_compatibility.py:42-55 | for any signatures: a lost or moved parameter, a narrowed kind, a changed default, a new required parameter or a lost variadic makes some old call stop binding or changes an old parameter's value |
| `CallBinding.NoCallBreaksExactly` | tools/check_endpoint_compatibility.py:42-55 | for any two signatures: no old call breaks or changes a value if and only if the change is none of these and no value that went to `*args` or `**kwargs` can meet another one |
| `CallBinding.CollisionBreaksACall` | tools/check_endpoint_compatibility.py:42-55 | the three ways it can: an added parameter under both variadics, a positional-only one opened to keywords under `**kwargs`, a keyword-only one opened to positions under `*args` |
| `CallBinding.AddedDefaultHarmsNobody` | tools/check_endpoint_compatibility.py:42-55 | a concrete pair of signatures that is reported although no call breaks |
| `CallBinding.ReportedThoughHarmless` | tools/check_endpoint_compatibility.py:42-55 | what the report names in a change that is none of these: widened kinds, added defaults and renamed variadics, nothing else |
| `CallBinding.AddedOptionCollides` | tools/check_endpoint_compatibility.py:42-55 | the concrete pair of signatures with an empty report, and the call that stops binding |
| `Matching.ApplyAllConcat` | rust/crates/quantbt-engine/src/session.rs:2770-2840 | commands applied in emission order compose |
| `Matching.OtherBooks` | rust/crates/quantbt-engine/src/session.rs:2770-2840 | commands for other symbols leave a book as it is |
| `Matching.AllowedExactly` | rust/crates/quantbt-engine/src/session.rs:2849-3060 | which fills and rejections may happen, in signed terms: at the limit or better, and reducing by no more than the opposite position |
| `Matching.FullPassAllowed` | rust/crates/quantbt-engine/src/session.rs:2849-3060 | filling every market order completely at the open, oldest first, is within the contract and leaves none working |
| `Matching.OpenedOne` | rust/crates/quantbt-engine/src/session.rs:2887-2915 | the position after one market order fills completely, reduce-only clip included |
| `Matching.PassExposure` | rust/crates/quantbt-engine/src/session.rs:2849-3060 | whatever fills or is dropped, position plus working quantity on a side never grows |
| `Matching.PassKeepsOneSided` | rust/crates/quantbt-engine/src/session.rs:2849-3060 | a book whose other side only reduces keeps its position between 0 and its lot in any pass |
| `Matching.PassKeepsCovered` | rust/crates/quantbt-engine/src/session.rs:2849-3060 | while only reduce-only orders work, the position shrinks and one of them could close it, so once none works it is zero |
| `Matching.CoveringFillFlattens` | rust/crates/quantbt-engine/src/session.rs:2887-2915 | an exit at least as large as the position leaves it flat when it fills completely, whatever part of the entry had filled |
| `CommandWriter.Writer.Market` | examples/wfo_meta_reactive_grid.py:33 | appends one market order to the buffer |
| `CommandWriter.Writer.Limit` | examples/wfo_meta_reactive_grid.py:27-28 | appends one limit order to the buffer |
| `CommandWriter.Writer.CancelAll` | examples/wfo_meta_reactive_grid.py:30 | appends one cancel-all to the buffer |
| `Grid.FillFeedbackGrid.constructor` | examples/wfo_meta_reactive_grid.py:14-16 | a new grid has counted no fill |
| `Grid.FillFeedbackGrid.Reset` | examples/wfo_meta_reactive_grid.py:18-20 | takes the new task and clears the fill count |
| `Grid.FillFeedbackGrid.OnBarClose` | examples/wfo_meta_reactive_grid.py:22-35 | counts every fill and appends exactly the exits of the buy fills, then, when due, the reset of the book |
| `Grid.ExitsMean` | examples/wfo_meta_reactive_grid.py:24-28 | the k-th exit is a reduce-only sell of the k-th bought quantity at 1.003 times its price |
| `Grid.CommandsMean` | examples/wfo_meta_reactive_grid.py:22-35 | exits first; then, exactly at multiples of twice the window from the start, a cancel and either a market exit of the position or a bid for 0.5 at 0.998 of the close |
| `Grid.ExitsMatchFills` | examples/wfo_meta_reactive_grid.py:24-28 | the exits written for a list of fills sell exactly what was bought, at its cost |
| `Grid.ExitsAreCovered` | examples/wfo_meta_reactive_grid.py:27-28 | the reduce-only clip of a working exit does not bind |
| `Grid.StepKeeps` | examples/wfo_meta_reactive_grid.py:22-35 | one bar of arbitrary fills followed by the callback keeps the inventory, exposure and cost invariant |
| `Grid.InventoryCovered` | examples/wfo_meta_reactive_grid.py:22-35 | after every callback of every run the working sell quantity equals the position |
| `Grid.ExposureBounded` | examples/wfo_meta_reactive_grid.py:22-35 | at every step of every run the position is never short, position plus working buys never exceeds 0.5, and no exit is clipped or dropped |
| `Grid.RecordMeans` | examples/wfo_meta_reactive_grid.py:24-28 | what one fill adds to the accounts the next row speaks of, in quantity times price |
| `Grid.ExitsAreProfitable` | examples/wfo_meta_reactive_grid.py:24-28 | limit exits realise at least 0.3% of what their units cost, and purchase cost and quantity are conserved |
| `WakeBatch.Commands` | examples/wfo_reactive_samplers.py:30-39 | appends the entry at the start bar, else the reduce-only exit at the exit bar, and returns the exit bar |
| `WakeBatch.ExitBarMeans` | examples/wfo_reactive_samplers.py:31-33 | the exit bar is the earlier of the planned one and the last bar but one |
| `WakeBatch.DecisionMeans` | examples/wfo_reactive_samplers.py:34-38 | a market entry on the side of the direction at the start, the opposite reduce-only exit at the exit bar, nothing otherwise |
| `WakeBatch.PlanMeans` | examples/wfo_reactive_samplers.py:63-70 | at its start a candidate asks for its exit bar, later for no bar; a negative bar raises |
| `WakeBatch.EveryBarTrace` | examples/wfo_reactive_samplers.py:30-39 | the whole every-bar trace: the entry, and the exit if its bar comes later and in time |
| `WakeBatch.Strategy.OnBarClose` | examples/wfo_reactive_samplers.py:52-53 | the every-bar callback appends the decision of its bar |
| `WakeBatch.Strategy.Reset` | examples/wfo_reactive_samplers.py:49-50 | takes the new task |
| `WakeBatch.CandidateBatchStrategy.OnWakeBatch` | examples/wfo_reactive_samplers.py:63-70 | each woken candidate's writer receives its own decision, every other writer is untouched, and each woken candidate gets a plan naming its exit bar at its start and nothing later; a negative exit bar raises, after the writers up to that candidate were written |
| `WakeBatch.BatchStands` | rust/native_event/src/reactive_numeric.rs:4606-4628 | the first callback aborts the batch exactly when some exit bar is negative; otherwise, where every candidate stands before every bar |
| `WakeBatch.SparseEqualsEveryBar` | rust/native_event/src/reactive_numeric.rs:2517-2531 | in a batch over one window, the run completes and a candidate's sparse trace equals its every-bar trace exactly when the window leaves it room for an exit after the start and no candidate of the batch has a negative exit bar; without room the runner refuses that candidate's plan, a negative exit bar aborts the batch |
| `WakeBatch.OneNegativeExitAbortsAll` | src/quantbt/strategies/reactive_protocols.py:191-193 | a concrete batch in which one candidate takes a sound one down with it, and a window of one bar |
| `WakeBatch.RoomMeansLaterExit` | examples/wfo_reactive_samplers.py:31-33 | the exit bar lies after the start bar exactly when the task has more than two bars left and the hold is at least one bar |
| `WakeBatch.AccountAt` | examples/wfo_reactive_samplers.py:30-39 | with full fills, the position and the working order at every bar |
| `WakeBatch.FlatBeforeEnd` | examples/wfo_reactive_samplers.py:30-39 | with full fills the task ends flat exactly when it leaves room, and then it is flat from the bar after its exit on |
| `WakeBatch.HeldWithinQuantity` | examples/wfo_reactive_samplers.py:30-39 | with arbitrary fills, at every moment of every run the position lies between 0 and the signed quantity |
| `WakeBatch.EndsFlatExactly` | examples/wfo_reactive_samplers.py:34-38 | with arbitrary fills, every continuation is flat once the exit has ended, if and only if nothing of the entry still works when the exit is written |
| `WakeBatch.NothingAfterExit` | examples/wfo_reactive_samplers.py:34-38 | after the exit bar nothing is written, so those continuations are all later bars |
| `WakeBatch.ResidualAtExit` | examples/wfo_reactive_samplers.py:34-38 | a concrete run in which 0.6 of the entry still works at the exit |
| `WakeBatch.NoRoom` | examples/wfo_reactive_samplers.py:30-39 | a concrete task of two bars: nothing traded when sparse, entered and never left when called on every bar |
| `TargetPath.TargetHasTheSide` | examples/intrabar_bracket_diagnostic.py:64-68 | the sign of the target is the side at every bar, and its size was frozen at the entry |
| `TargetPath.TargetMeans` | examples/intrabar_bracket_diagnostic.py:64-68 | the target is worth the side times 2000 at the price of the bar it was entered on |
| `TargetPath.IntentsMean` | examples/intrabar_bracket_diagnostic.py:31-35 | an entry on each change to a side, a technical exit on each change to none, the given size on every bar |
| `TargetPath.TransitionExactly` | examples/intrabar_bracket_diagnostic.py:80-84 | a change of side clears the order threshold exactly under a condition on the two prices |
| `TargetPath.NoTransitionLostExactly` | examples/intrabar_bracket_diagnostic.py:77-84 | the threshold loses no executable transition exactly on the frames that meet the price condition |
| `TargetPath.BelowLimitIsValid` | examples/intrabar_bracket_diagnostic.py:15-16 | all prices below 2e15 suffice |
| `TargetPath.IntentsHoldTheSide` | src/quantbt/core/intrabar_reference.py:376-432 | under the engine's rule for pending entries and exits, whatever protective exits and rejections do, the engine holds exactly the side of the bar before, or is flat until the next change of side because that side was knocked out |
| `TargetPath.AtOpenMeans` | src/quantbt/core/intrabar_reference.py:376-432 | one bar of that rule: no entry or one on the side held keeps it unless an exit flattens it, another side replaces it, with size |
| `Controller.TargetCallback.OnBarClose` | examples/intrabar_bracket_diagnostic.py:54-61 | the commands, filled at any open, leave nothing working and the position on the target, or where it was if that is within the threshold |
| `Controller.MeanReversionCallback.OnBarClose` | examples/wfo_meta_execution.py:51-60 | the same towards half the side, flat where no side is given |
| `Controller.ChaseLands` | examples/intrabar_bracket_diagnostic.py:54-61 | from any position, one full fill lands on the target or leaves a distance within the threshold |
| `Controller.StaysClose` | examples/intrabar_bracket_diagnostic.py:54-61 | with full fills, for any target and from any position, every later bar ends within the threshold of the target with nothing working |
| `Controller.RegainsExactly` | examples/intrabar_bracket_diagnostic.py:54-61 | with full fills, every later bar is exactly on target if and only if neither the first order nor any later move of the target is suppressed by the threshold |
| `Controller.MeanReversionHoldsHalfTheSide` | examples/wfo_meta_execution.py:51-60 | with full fills, over any run: within the threshold of half the side, exactly on it unless the first order was suppressed |
| `Controller.MeanReversionFromFlat` | examples/wfo_meta_execution.py:51-60 | with full fills from flat, after every bar the position is 0.5 where the side was 1, -0.5 where it was -1, and 0 where it was 0 or absent |
| `Controller.OvershootBound` | examples/intrabar_bracket_diagnostic.py:54-61 | with arbitrary fills, the position passes its target by no more than what still works on the new order's side |
| `Controller.OvershootReached` | examples/intrabar_bracket_diagnostic.py:54-61 | and some permitted pass takes it exactly that far |
| `Controller.OvershootExactly` | examples/wfo_meta_execution.py:51-60 | the callback cannot pass its target if and only if nothing still works on the side of its new order |
| `Controller.PartialFillOvershoots` | examples/intrabar_bracket_diagnostic.py:54-61 | a concrete run that aims at 1 and ends at 1.6 |
| `Controller.LoopNeverPastExactly` | examples/intrabar_bracket_diagnostic.py:54-61 | in any run with arbitrary fills, no callback can pass its target if and only if each one that sends an order meets nothing working on that order's side |
| `Controller.IdleLoopApproaches` | examples/intrabar_bracket_diagnostic.py:54-61 | with a constant target and arbitrary fills, while callbacks meet empty books, the position only approaches the target and never passes it |
| `Controller.ExposureGrows` | examples/intrabar_bracket_diagnostic.py:54-61 | with arbitrary fills, from flat and below its targets, k callbacks expose at most the sum of k targets |
| `Controller.ExposureReached` | examples/intrabar_bracket_diagnostic.py:54-61 | and exactly that sum while nothing fills |
| `TargetPath.Event` | examples/intrabar_bracket_diagnostic.py:76-84 | the loop over changed bars builds the tape |
| `TargetPath.CommandsOfBar` | examples/intrabar_bracket_diagnostic.py:77-84 | on any frame, the commands of a bar chase the change of side one bar before, if there was one |
| `TargetPath.OneCommandPerTransition` | examples/intrabar_bracket_diagnostic.py:77-84 | each transition but one on the last bar yields exactly one command, stamped on the next bar, and nothing else yields any |
| `TargetPath.TapeTelescopes` | examples/intrabar_bracket_diagnostic.py:77-84 | the signed sum of commands up to bar t+1 is the target of bar t |
| `TargetPath.TapeFollowsExactly` | examples/intrabar_bracket_diagnostic.py:76-85 | with full fills at the open, the tape holds the target path at every bar exactly on those frames |
| `TargetPath.CallbackRegainsTarget` | examples/intrabar_bracket_diagnostic.py:54-61 | with full fills, on any priced frame and from any perturbed position the callback stays within the threshold of the path; on a valid frame it is exactly on it unless its first order was suppressed |
| `TargetPath.ClosedEqualsOpen` | examples/intrabar_bracket_diagnostic.py:64-86 | with full fills, on valid frames, callback and tape hold the same account at every bar |
| `TargetPath.DroppedTransition` | examples/intrabar_bracket_diagnostic.py:80-84 | a concrete frame on which the tape ends further than the threshold from a flat target and the callback does not |
| `Ladder.Generate` | examples/wfo_meta_execution.py:76-97 | the nested loops build the tape of all steps and legs, in emission order |
| `Ladder.TapeMeans` | examples/wfo_meta_execution.py:76-97 | exactly which commands the tape holds: symbols, sides, prices, quantities, identifiers and timestamps |
| `Ladder.CancelsHitSubmittedOrders` | examples/wfo_meta_execution.py:87-96 | order identifiers are unique, and every cancel names an order placed strictly earlier |
| `Ladder.OrdersPrecedeFlatten` | examples/wfo_meta_execution.py:39-44 | on consecutive days every command on the first contract, cancels included, is stamped before its flatten timestamp, and none on the second one before the roll |
| `Ladder.CalendarDays` | examples/wfo_meta_execution.py:40-80 | the flatten dates and the roll date in days |
| `Ladder.SecondFlattenReached` | examples/wfo_meta_execution.py:39-44 | on consecutive days the tape concerns the second contract at or after its flatten timestamp exactly when some step leaves at or after it |
| `Ladder.FourDaysReachFlatten` | examples/wfo_meta_execution.py:39-44 | four concrete days on which it is reached |
| `LadderSafety.TapeAt` | examples/wfo_meta_execution.py:77-97 | in stable timestamp order each bar receives the entries of one step or the exits of one step |
| `LadderSafety.EntryCommands` | examples/wfo_meta_execution.py:87-91 | a step adds its entry to the books of exactly the symbols it trades |
| `LadderSafety.ExitCommands` | examples/wfo_meta_execution.py:92-96 | the cancel removes what is left of the entry before the exit is placed, and no other leg is disturbed |
| `LadderSafety.BarKeeps` | examples/wfo_meta_execution.py:77-97 | any bar of any fills keeps the ladder's invariant, an entry bar provided that the position is zero |
| `LadderSafety.LadderStaysWithin` | examples/wfo_meta_execution.py:77-97 | at every moment of every run that enters on zero positions only, a leg lies between 0 and its signed 0.5 with at most one entry working |
| `LadderSafety.BoundExactly` | examples/wfo_meta_execution.py:77-97 | a run cannot leave those bounds at any moment if and only if it enters on zero positions only |
| `LadderSafety.SurelyWithinExactly` | examples/wfo_meta_execution.py:77-97 | every permitted run stays within the lot if and only if at most one step of the tape trades the symbol |
| `LadderSafety.PartialExitOvershoots` | examples/wfo_meta_execution.py:77-97 | a permitted run with a partly filled exit that reaches 0.9 |
| `LadderSafety.SevenBarsExist` | examples/wfo_meta_execution.py:77-97 | the seven bars of that run |
| `LadderSafety.LadderFlatAfterExit` | examples/wfo_meta_execution.py:77-97 | outside a step no entry works and a working exit covers the position, so the leg is flat once its market orders have completed, and stays at zero until the next entry |
| `LadderSafety.CompleteExitsSuffice` | examples/wfo_meta_execution.py:77-97 | market orders that complete on their own bar make every entry meet a flat book |
| `LadderSafety.OneOrderAtATime` | examples/wfo_meta_execution.py:77-97 | runs that enter on flat books have at most one order of a symbol working at any moment |
| `OrderTape.SearchSortedExactly` | benchmarks/compare_phase9_parity.py:253 | on a sorted index the bisection finds the first position whose value is at or after the key |
| `OrderTape.AfterTheData` | benchmarks/compare_phase9_parity.py:253-255 | on a sorted index a timestamp has no bar exactly when all of the data lie before it |
| `OrderTape.KeyOrders` | benchmarks/compare_phase9_parity.py:247-258 | every order's bar, or failure when a timestamp is after the data |
| `OrderTape.SortIsScan` | benchmarks/compare_phase9_parity.py:258 | the stable sort by bar is the naive scan over bars |
| `OrderTape.CountAndPrefix` | benchmarks/compare_phase9_parity.py:277-281 | counting pass and in-place prefix sum: consecutive pointers differ by the number of orders of the bar |
| `OrderTape.WriteRow` | benchmarks/compare_phase9_parity.py:269-276 | one order is coded into its row and earlier rows are kept |
| `OrderTape.FillRows` | benchmarks/compare_phase9_parity.py:259-276 | all rows describe the sorted orders, or an unknown symbol stops the fill |
| `OrderTape.Compile` | benchmarks/compare_phase9_parity.py:246-282 | exact error conditions with their precedence, and on success a pointer array, permutation and columns that agree with the scan |
| `OrderTape.SignedSum` | benchmarks/compare_phase9_parity.py:269-276 | over the rows of any bar, side times quantity sums to what its orders buy less what they sell |
| `OrderTape.CodesMean` | benchmarks/compare_phase9_parity.py:269-276 | buys and only buys carry 1, sells -1, market orders 0, and the time in force its position in GTC, IOC, FOK, GTD |
| `OrderTape.OneInstantOneBar` | benchmarks/compare_phase9_parity.py:247-255 | one instant written naive and with an offset falls on the same bar |
| `OrderTape.SliceIsBucket` | benchmarks/compare_phase9_parity.py:277-281 | the pointers rise from 0 to the number of orders and each slice is exactly one bar's orders |
| `OrderTape.BucketMeaning` | benchmarks/compare_phase9_parity.py:247-256 | on a sorted index a bar's orders are, in input order, those whose first bar at or after their timestamp it is |
| `OrderTape.OriginalIsPermutation` | benchmarks/compare_phase9_parity.py:258-276 | every order appears exactly once |
| `OrderTape.ScanOrdered` | benchmarks/compare_phase9_parity.py:258 | order by bar, then by input position |
| `OrderTape.ReplayIsScan` | benchmarks/compare_phase9_parity.py:246-282 | replaying the index bar by bar visits the orders of the naive scan in its order |
| `Fences.VisibleMarkdown` | tools/check_docs_links.py:25-38 | the loop keeps exactly the visible lines, none of which is a fence marker |
| `Fences.MarkerExactly` | tools/check_docs_links.py:29-32 | a line is a marker exactly when at most three blanks precede at least three backticks or tildes, character by character |
| `Fences.SpaceCodes` | tools/check_docs_links.py:32 | what counts as whitespace, by code point |
| `Fences.ClosesExactly` | tools/check_docs_links.py:30-33 | a marker closes a block exactly when it repeats the opening character at least as often, with nothing but whitespace after it |
| `Fences.VisibleIdempotent` | tools/check_docs_links.py:25-38 | filtering twice is filtering once |
| `Fences.VisibleConcat` | tools/check_docs_links.py:25-38 | the filter distributes over concatenation in the state the first part ends in |
| `Fences.VisibleIsTexts` | tools/check_docs_links.py:28-37 | of a document made of text lines and fenced blocks exactly the text lines stay |
| `Fences.ParseRoundTrip` | tools/check_docs_links.py:28-37 | every list of lines is such a document |
| `Fences.VisibleIsSubsequence` | tools/check_docs_links.py:25-38 | the output is a subsequence of the input |
| `Decimal.SuffixedInjective` | tools/check_docs_links.py:71 | the numbered slug determines both slug and number |
| `Decimal.NoLeadingZero` | tools/check_docs_links.py:71 | a number is written without a leading zero |
| `Decimal.SomeTexts` | tools/check_docs_links.py:71 | concrete numbers and numbered slugs as text |
| `Anchors.AheadShrinks` | tools/check_docs_links.py:69-71 | each round of the uniqueness loop uses up one taken anchor |
| `Anchors.Assign` | tools/check_docs_links.py:67-73 | a heading gets an anchor nobody has, and the table gains exactly that key |
| `Anchors.Deduplicate` | tools/check_docs_links.py:68-72 | the loop ends within as many rounds as there are anchors, each raising the counter by one, and yields the slug or its first free numbered form |
| `Anchors.MarkdownAnchors` | tools/check_docs_links.py:56-74 | the result is the explicit identifiers and the headings' anchors |
| `Anchors.NamesDistinct` | tools/check_docs_links.py:67-73 | no two headings share an anchor, and the table's keys are exactly the anchors given |
| `Anchors.ClosedFormExactly` | tools/check_docs_links.py:67-73 | `slug`, `slug-1`, ... in order of occurrence, exactly when no slug equals a numbered form that a repeated slug receives |
| `Anchors.RepeatedThenLiteral` | tools/check_docs_links.py:67-73 | headings `a`, `a`, `a-1` get `a`, `a-1`, `a-1-1` |
| `Anchors.RepeatedThenLiteralText` | tools/check_docs_links.py:67-73 | the same three anchors, spelled out |
| `GammaLedger.HedgeAndPnl` | benchmarks/gamma_scalping_backtestsample.py:165-264 | the loop's in-place writes, earlier rows included, leave the closed-form ledger; the rows below say what is in it |
| `GammaLedger.EntryRow` | benchmarks/gamma_scalping_backtestsample.py:183-203 | the first row books nothing |
| `GammaLedger.HedgeMeans` | benchmarks/gamma_scalping_backtestsample.py:229-232 | the hedge P&L cancels the previous delta times the spot move where that delta exceeds the threshold, and is zero elsewhere |
| `GammaLedger.HedgeFeeMeans` | benchmarks/gamma_scalping_backtestsample.py:233-236 | a hedged row pays for the size of its change in delta, any other nothing |
| `GammaLedger.OptionFeeMeans` | benchmarks/gamma_scalping_backtestsample.py:207-222 | a row pays the option commission on the notional exactly when the row before it was below the minimum days to expiry |
| `GammaLedger.PnlMeans` | benchmarks/gamma_scalping_backtestsample.py:226-252 | a row earns its mid change plus its hedge, less its fees |
| `GammaLedger.ReturnMeans` | benchmarks/gamma_scalping_backtestsample.py:186-259 | cumulative return times the entry value is cumulative P&L, an entry value of zero counting as one |
| `GammaLedger.DeltaNeutral` | benchmarks/gamma_scalping_backtestsample.py:226-252 | where the mid moves by exactly delta times the spot move, a hedged row loses exactly its commissions |
| `GammaLedger.HedgedLedger` | benchmarks/gamma_scalping_backtestsample.py:165-259 | a concrete ledger with delta, threshold, a rollover and both fees |
| `GammaLedger.PnlConserved` | benchmarks/gamma_scalping_backtestsample.py:190-259 | cumulative P&L is the sum of the P&L column and equals mid change plus hedge P&L minus both commissions, after every bar |
| `GammaLedger.RowIdentityExactly` | benchmarks/gamma_scalping_backtestsample.py:207-244 | a row's P&L identity survives exactly where no rollover erases a non-zero cell |
| `GammaLedger.MtmColumnDeficit` | benchmarks/gamma_scalping_backtestsample.py:207-225 | the mark-to-market column misses the mid change by exactly what rollovers erase |
| `GammaLedger.RolloverErases` | benchmarks/gamma_scalping_backtestsample.py:207-225 | three concrete bars on which a rollover breaks the row identity and the column sum |
| `EvidenceGate.CheckEvidence` | tools/check_benchmark_governance.py:90-129 | one piece of evidence has no problem exactly when it meets every demand of its status |
| `EvidenceGate.CheckHeader` | tools/check_benchmark_governance.py:76-83 | which declaration fault each finding stands for, and that there is none exactly when the declaration names this contract and its path |
| `EvidenceGate.CheckRules` | tools/check_benchmark_governance.py:131-143 | no violation exactly when every rule is backed by verified, eligible evidence or disabled; an exception exactly when a rule, or the evidence an enabled rule names, is not an object |
| `EvidenceGate.ValidateRegistryEvidence` | tools/check_benchmark_governance.py:70-143 | the whole report, and that it is empty exactly when the gate's demands hold |
| `EvidenceGate.EnabledRulesAreBacked` | tools/check_benchmark_governance.py:131-142 | an empty report backs every enabled rule, duplicates included, with evidence that is current, passing, faster, memory-flat and bound |
| `EvidenceGate.EligibleMeansCurrent` | tools/check_benchmark_governance.py:113-129 | an empty report means that evidence is promotion eligible if and only if it is the verified current candidate |
| `RegistryMeaning.RegistryExactly` | tools/check_benchmark_governance.py:70-143 | the report is empty if and only if the registry, as decoded data, meets every demand |
| `RegistryMeaning.EvidenceMetExactly` | tools/check_benchmark_governance.py:90-129 | the demands on one piece of evidence, by its key-value pairs alone |
| `RegistryMeaning.EnabledRuleHasEvidence` | tools/check_benchmark_governance.py:131-142 | an empty report gives every enabled rule of the policy, wherever it stands, passing and eligible evidence for its workload |
| `RegistryMeaning.FindingsMean` | tools/check_benchmark_governance.py:76-143 | which fault in the registry each finding of a report stands for |
| `RegistryMeaning.MissingReported` | tools/check_benchmark_governance.py:95-104 | exactly the absent keys are reported missing |
| `RegistryMeaning.BindingReported` | tools/check_benchmark_governance.py:105-110 | a wrong contract, an unknown route and an unknown profile pair are each reported exactly when they occur |
| `RegistryMeaning.StatusReported` | tools/check_benchmark_governance.py:111-129 | every finding about status and eligibility, with the condition that causes it |
| `RegistryMeaning.NotAnObjectReported` | tools/check_benchmark_governance.py:92-94 | evidence that is no object is reported as that and nothing else |
| `RegistryMeaning.EarlyReports` | tools/check_benchmark_governance.py:76-89 | without a declaration, or with evidence that is no object, the report ends there |
| `RegistryMeaning.ReportRaisesExactly` | tools/check_benchmark_governance.py:131-139 | the gate raises exactly when it reaches the rules and they are not a list of objects whose evidence, where enabled, is an object |

## Left out

- Matching.Allowed: margin, fees and liquidation are not modelled; a margin rejection of an opening order is covered, one of a reducing order is not.
- Matching: the engine's price model (touch, gap, slippage) is replaced by an arbitrary price within the limit.
- Matching.Apply: every placement is accepted as written. The runner rounds a placed quantity down to `qty_step` and drops it below `min_qty` or `min_notional` (rust/native_event/src/reactive_numeric.rs:3121-3143), so that a small partial fill may get no exit and `Grid.InventoryCovered` needs those to be zero; and it takes a fill within 1e-12 of the request as complete (rust/crates/quantbt-engine/src/execution_model.rs:721).
- Signatures: parsing and unparsing of source, exports and the git history; defaults and decorators are opaque text.
- CallBinding: argument unpacking and duplicate keywords in one call, which Python rejects before binding.
- Grid, Ladder, WakeBatch and TargetPath: floating point; quantities and prices are exact reals.
- WakeBatch.AccountAt, WakeBatch.FlatBeforeEnd: full fills at the next open, as their rows say; arbitrary fills are the subject of `HeldWithinQuantity` and `EndsFlatExactly`.
- WakeBatch: wake reasons other than the next bar, which this strategy does not use; the runner's context objects.
- Controller.StaysClose, Controller.RegainsExactly, TargetPath.TapeFollowsExactly, TargetPath.CallbackRegainsTarget, TargetPath.ClosedEqualsOpen: full fills at the next open; with partial fills they are false, by the overshoot that `Controller.OvershootExactly` characterises.
- TargetPath: the bracket engine beyond its rule for pending entries and exits (prices, sizes, sessions); protective exits and rejections are arbitrary.
- Ladder.Generate: the intrabar and event-driven routes of `generate`, and the rolling mean that yields the side.
- LadderSafety.LadderStaysWithin: steps of three bars or more, the declared parameter range being 3 to 9.
- OrderTape.StableSort: Python's `sorted` is modelled by its result, numpy's `searchsorted` by its bisection; what it returns on an unsorted index is not characterised, and the 64-bit width of the arrays is not modelled.
- Fences.VisibleMarkdown: comment removal and line splitting; text is taken as lines. The rule that a backtick info string may not contain backticks is not in the code.
- Anchors.MarkdownAnchors: heading and explicit-anchor extraction; slugs and identifiers are inputs.
- GammaLedger.HedgeAndPnl: Greek normalisation and aggregation, simulated paths and the `gamma_attrib` column, which are formulae without state.
- EvidenceGate.ValidateRegistryEvidence: `current_candidate_evidence_violations`, `str` and `==` are parameters; errors raised inside them are not modelled.
- EvidenceGate: manifest validation and file fingerprints.
- Benchmark timing, subprocesses, reports, argument parsing, the optimisation runtime and the remaining examples.
