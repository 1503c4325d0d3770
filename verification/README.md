# A.P.C. state and synchronization: a verified model

This project models the causal core of A.P.C., its reference models and its recovery and
synchronization runtime in Dafny, and proves what the design promises about them over every
input and every run.

- **Causal registers.** `CausalGraph`, `ScalarRegister`: finite graphs of immutable revisions with
  direct-frontier parents; validation, merge, frontier and ancestry as the original loops.
  `OracleRefinement`, `Checkpoint` and `Squash` prove that three compressions of the history
  preserve its meaning; `LedgerRuns`, `FinalizationLab` and
  `SquashObservability` lift squashing to whole runs of the finalization ledger, beside runs
  that never squash.
- **Hierarchy cycles.** `CycleBreaking` proves that repeated cycle breaking is confluent,
  `CycleSearch` the cycle enumeration, `HierarchyResolvers`, `HierarchyBounded` and `HierarchyLab`
  the full-history, root-fallback and one-witness resolvers.
- **Positions.** `FuguePositions`: the position forest, its order, insertion and merge.
- **The local domain.** `DomainMachine` is the transition system of one scalar domain,
  `DomainReachability` the exact set of states it reaches, `LocalDomain` the objects that
  perform it.
- **Synchronization.** `RangeAssembly` (multipart assembly and projection merge),
  `RecoveryProtocol` (one replica, its durable record and the shared log as events, with the
  safety theorems), `SyncPorts` (record, store, transport and batches with every way they fail)
  and `RecoverySession` (staging, catch-up, resume and the bounded cycle, each proved to be a run
  of protocol events).
- **Bytes.** `Bytes`, `CrcEnvelope` (the checksummed envelope), `CodecPrimitives`, `CodecIo`,
  `ProjectionCodec`, `TrustedStateCodec`, `SyncRecordCodec`, `WireCodec`; `CodecForms` and
  `CodecAcceptance` say exactly which bytes each decoder accepts, `CodecLayouts` writes out one
  value of each format.

Identities are natural numbers; their order is the byte order of the original. The codecs bound
them by 32 bytes. The transport and the store fail by nondeterministic choice inside their
methods; other replicas' commits arrive the same way. Protection is an injective wrapper, and in
the protocol the trusted-state codec and the cursor codec are the identity (the former is
justified by `TrustedStateCodec.ContainerRoundTrip`).

Four places where the code promises less than one might expect are stated as results, each
with its exact condition:

- An observation can seal and then fail, leaving a sealed revision that is not local
  (`DomainMachine.SealCanEscape`; exactly when, `SealEscapesExactly`).
- Restoring accepts images no run produces: unfrozen exposure
  (`DomainMachine.RestoreAcceptsUnfrozenExposure`), concurrent local revisions
  (`DomainReachability.RestoreAcceptsConcurrentLocals`). `ReachableExactly` says which states
  runs reach, `RestoredRunHasInvExactly` and `LocalOrderIsForever` what heals later and what
  never does.
- Range assembly depends on order when a part of several was sealed twice, or one publication
  carries two totals, and only then (`RangeAssembly.OrderNeverMattersIff`, with
  `OrderMattersForResealedParts` as the smallest case).
- A squash rewrites an exposed statement when its parents are no antichain, and the ledger then
  refuses a remote it had merged before (`LedgerRuns.SquashCanBlockARemote`; exactly when,
  `CopyAcceptedAfterSquash`). So squashing can be observed
  (`SquashObservability.SquashCanBeObserved`); `RunInStepIff` says exactly in which runs. With
  captured parents no exposed statement ever moves (`LedgerRuns.ExposedStatementsNeverMove`) and
  squashing is unobservable (`SquashObservability.SquashingIsUnobservable`).

`dafny verify dfyconfig.toml` checks the whole project.

## Model

| member | source | states |
|---|---|---|
| `CausalGraph.UnionIsValid` | crates/apc-core/src/scalar.rs:125-141 | merging two valid registers that agree where they overlap can lose no parent and close no cycle, so the validation at the end of merge never fails |
| `CausalGraph.AssignObservesAll` | crates/apc-core/src/scalar.rs:88-91 | a fresh assignment becomes the only frontier member and descends from everything known before |
| `CausalGraph.AncestorClosure` | reference_model/private_causal_lab.py:48-60 | the worklist returns exactly the roots and all their ancestors, or an identity it met that is unknown |
| `CausalGraph.BelowFrontier` | crates/apc-core/src/scalar.rs:144-164 | every revision of a valid register is on the frontier or below a member of it |
| `CausalGraph.FrontierIsMaximal` | crates/apc-core/src/scalar.rs:143-164 | in a closed register being named by nobody and being nobody's ancestor are the same thing |
| `ScalarRegisters.MergeCommutes` | crates/apc-core/src/scalar.rs:123-141 | merge is commutative, refusals included |
| `ScalarRegisters.MergeAssociates` | crates/apc-core/src/scalar.rs:123-141 | merge is associative, including whether it is refused |
| `ScalarRegisters.MergeIdempotent` | crates/apc-core/src/scalar.rs:123-141 | merging a register with itself changes nothing |
| `ScalarRegisters.KnownIdIsNotFrontierSuccessor` | crates/apc-core/src/scalar.rs:88-121 | no statement already in a valid register names the whole frontier, so assigning a known identity is always refused |
| `ScalarRegisters.VisitForCycle` | crates/apc-core/src/scalar.rs:225-247 | one depth-first visit either completes everything below its root without a cycle or names a revision on a real cycle; the open-visit set is restored |
| `ScalarRegisters.ScalarRegister.Validate` | crates/apc-core/src/scalar.rs:203-223 | validation succeeds exactly on closed acyclic registers, and each refusal names a real missing parent or a real cycle |
| `ScalarRegisters.ScalarRegister.FromRevisions` | crates/apc-core/src/scalar.rs:46-69 | import accepts a list exactly when some valid register holds precisely its statements; repeated equal statements are harmless, two statements of one identity are refused |
| `ScalarRegisters.ScalarRegister.InsertRevision` | crates/apc-core/src/scalar.rs:99-121 | equal re-insertion is harmless, a conflicting one and an unknown (least) parent are refused, and validity is kept |
| `ScalarRegisters.ScalarRegister.Assign` | crates/apc-core/src/scalar.rs:88-91 | refused exactly for a known identity; otherwise the new revision is the sole frontier member and observes everything |
| `ScalarRegisters.ScalarRegister.Merge` | crates/apc-core/src/scalar.rs:125-141 | succeeds exactly when no identity has two statements, with the least conflicting identity in the refusal; the result is the valid union |
| `ScalarRegisters.ScalarRegister.FrontierIds` | crates/apc-core/src/scalar.rs:144-164 | the worklist computes exactly the causally maximal revisions, and some exist when the register is not empty |
| `ScalarRegisters.ScalarRegister.MaterializedRevision` | crates/apc-core/src/scalar.rs:170-173 | nothing for an empty register, otherwise the greatest identity of the frontier |
| `ScalarRegisters.ScalarRegister.IsAncestor` | crates/apc-core/src/scalar.rs:180-201 | the worklist decides strict ancestry |
| `OracleRefinement.RefinementFixesFrontier` | reference_model/causality_lab.py:82-90 | when strict ancestors equal oracle contexts both representations have the same frontier |
| `OracleRefinement.OracleAssignStores` | reference_model/apc_model.py:65-83 | an oracle assignment is refused exactly for an identity observed before; otherwise it observes everything and is alone on the frontier |
| `OracleRefinement.OracleMergeStores` | reference_model/apc_model.py:85-92 | an oracle merge is refused exactly for two statements of one identity and otherwise holds both sides |
| `OracleRefinement.CompactAssignStores` | reference_model/causality_lab.py:92-104 | on valid registers the same for frontier parents: refused exactly for a known identity |
| `OracleRefinement.CompactMergeStores` | reference_model/causality_lab.py:106-115 | and for merges: the validation after the union never refuses |
| `OracleRefinement.AssignRefines` | reference_model/causality_lab.py:92-104 | both registers accept a fresh assignment, refuse a known identity, and still correspond afterwards |
| `OracleRefinement.MergeRefines` | reference_model/causality_lab.py:106-115 | merges of corresponding registers are accepted together and still correspond |
| `OracleRefinement.HistoryRefines` | reference_model/apc_model.py:65-113 | correspondence holds on every replica after every history of fresh assignments and merges |
| `OracleRefinement.RepresentationsAgree` | reference_model/causality_lab.py:92-146 | starting from empty replicas, on every replica: same identities and values, strict ancestors equal the oracle context, same frontier |
| `Squash.SquashAddsNothing` | reference_model/private_causal_lab.py:82-138 | every ancestry of the squashed register was there before |
| `Squash.SquashLosesNothing` | reference_model/private_causal_lab.py:93-138 | every ancestry between kept revisions survives the rewriting of parents to maximal boundary parents |
| `Squash.SquashPreservesMeaning` | reference_model/private_causal_lab.py:74-138 | the squashed register is valid, keeps all values, has ancestry exactly as before between kept revisions, and the same frontier |
| `Squash.StatementKept` | reference_model/private_causal_lab.py:93-138 | a kept revision's statement is left untouched exactly when no parent was removed and its parents form an antichain |
| `Squash.ExposureAwareCausalState.MarkExposed` | reference_model/private_causal_lab.py:62-72 | refused exactly for an unknown identity; otherwise the whole ancestor closure moves from private to exposed |
| `Squash.ExposureAwareCausalState.SquashUnexposedDominated` | reference_model/private_causal_lab.py:74-138 | removes exactly the private, unexposed, dominated revisions and rewrites the rest, leaving a sound state |
| `Squash.ExposureAwareCausalState.BoundaryParents` | reference_model/private_causal_lab.py:93-117 | the removable-path worklist with its reduction yields exactly the maximal kept ancestors reached through removed ones |
| `LedgerRuns.RunKeepsInv` | reference_model/finalization_lab.py:113-238 | in every run, whatever parents are named, private, local, finalized, exposed and handed-off sets keep their containments, and exposure stays closed under ancestry |
| `LedgerRuns.RunKeepsHandedOffFrozen` | reference_model/finalization_lab.py:188-220 | in every run each local revision at or below a handed-off one is finalized |
| `LedgerRuns.DefaultAppendObservesAll` | reference_model/finalization_lab.py:113-152 | an append without named parents is private, becomes the only frontier member and descends from everything known |
| `LedgerRuns.SquashKeepsExposedAndFinalized` | reference_model/finalization_lab.py:222-238 | a squash removes no exposed or finalized revision and changes no finalized statement; an exposed statement is reduced exactly when its parents are no antichain and something is removed |
| `LedgerRuns.ExposedStatementsNeverMove` | reference_model/finalization_lab.py:113-238 | with captured parents no later run changes the statement of an exposed revision |
| `LedgerRuns.HandedOffComesBack` | reference_model/finalization_lab.py:154-238 | so what left the replica is accepted when it comes back and changes nothing, however much was squashed since |
| `LedgerRuns.CopyAcceptedAfterSquash` | reference_model/finalization_lab.py:154-238 | without that assumption, after one squash a copy of what left is still accepted exactly when nothing was removed or the parents of all its revisions are antichains |
| `LedgerRuns.SquashCanBlockARemote` | reference_model/finalization_lab.py:154-238 | a concrete run in which a squash makes the ledger refuse a remote it had merged |
| `LedgerRuns.SquashRefusedIff` | reference_model/finalization_lab.py:222-238 | a squash is refused exactly when it removes something and a finalized revision would go, names one that would go, or has parents that are no antichain |
| `SquashObservability.RunSimulates` | reference_model/finalization_lab.py:113-238 | with captured parents, over every run that names no removed identity, rewritten revisions coming back included, the squashing state keeps simulating the unsquashed one, takes every remote that side takes, and every rewritten revision's old form names something removed |
| `SquashObservability.MergeSimulatesIff` | reference_model/finalization_lab.py:154-166 | for an accepted remote the simulation survives the merge exactly when the remote names no removed identity |
| `SquashObservability.MergeAcceptedAlike` | reference_model/finalization_lab.py:154-166 | with any parents, the two sides decide differently about a remote exactly when it agrees with all they share and carries either all new or all old statements of the rewritten and removed revisions it names, but not both |
| `SquashObservability.FullAcceptedIsAccepted` | reference_model/finalization_lab.py:154-166 | with captured parents a remote that names nothing removed and that the unsquashed side takes is taken by the squashed side |
| `SquashObservability.SquashKeepsTraceable` | reference_model/private_causal_lab.py:93-138 | with antichain parents every revision a squash rewrites named, before, something now removed |
| `SquashObservability.FullRunIsRun` | reference_model/finalization_lab.py:113-238 | the unsquashed side is a run of the ledger without squashes: each remote it would refuse only for a rewritten statement is given to it unfolded, and it takes it by its own check |
| `SquashObservability.SquashingIsUnobservable` | reference_model/finalization_lab.py:113-238 | with captured parents, after every such run the squashed ledger has the frontier, the winner and the visible values of a run of the same ledger that never squashes and decides by its own rules, remotes with rewritten statements reaching it unfolded |
| `SquashObservability.StepInStepIff` | reference_model/finalization_lab.py:113-238 | with any parents and any operation: the ledger and the one given the same operation without squashing stay in step exactly when a stated guard on the operation holds |
| `SquashObservability.RunInStepIff` | reference_model/finalization_lab.py:113-238 | so over whole runs they stay in step after every operation if and only if every operation meets that guard |
| `SquashObservability.UntouchedRunIsInStep` | reference_model/finalization_lab.py:113-238 | with any parents, runs whose remotes hold no rewritten and no removed identity meet it; both forms of the unsquashed side then coincide |
| `SquashObservability.SquashingIsUnobservableUntouched` | reference_model/finalization_lab.py:113-238 | such a run shows exactly what the very same operations minus the squashes show |
| `SquashObservability.SquashCanBeObserved` | reference_model/finalization_lab.py:113-238 | a concrete run, with parents that are no antichain, in which a remote is shown without the squash and refused after it, though it names nothing removed |
| `SquashObservability.ReportedRunIsOblivious` | reference_model/finalization_lab.py:113-220 | runs with handoffs, fresh appends and remotes whose known identities had all left the replica never name a removed identity |
| `FinalizationLab.FinalizationLedger.FromCausal` | reference_model/finalization_lab.py:92-94 | performs exactly the initial ledger state, refused exactly for an invalid register |
| `FinalizationLab.FinalizationLedger.AppendLocal` | reference_model/finalization_lab.py:113-152 | performs exactly one append step: refused for a known identity or an unknown parent |
| `FinalizationLab.FinalizationLedger.MergeRemote` | reference_model/finalization_lab.py:154-166 | performs exactly one merge step: refused for an invalid or conflicting remote; remote identities become exposed |
| `FinalizationLab.FinalizationLedger.Finalize` | reference_model/finalization_lab.py:168-186 | performs exactly one finalize step; repeating it returns the frozen statement and costs no transition |
| `FinalizationLab.FinalizationLedger.Handoff` | reference_model/finalization_lab.py:202-220 | performs exactly one handoff step: accepted exactly when all identities are known and every local revision at or below them is finalized; exposes exactly those at or below them |
| `FinalizationLab.FinalizationLedger.SquashPrivate` | reference_model/finalization_lab.py:222-238 | performs exactly one squash step, refused when a finalized statement would go or change |
| `Checkpoint.FromFullCovers` | reference_model/checkpoint_lab.py:61-71 | a register built from full history represents it |
| `Checkpoint.FromFullStores` | reference_model/checkpoint_lab.py:61-71 | and keeps exactly the revisions nothing supersedes, covering all others |
| `Checkpoint.CompactStores` | reference_model/checkpoint_lab.py:200-213 | compaction of a valid register is always accepted, drops exactly the superseded revisions into the coverage, and doing it again changes nothing |
| `Checkpoint.ImportStores` | reference_model/checkpoint_lab.py:149-198 | an import is refused exactly for a mismatched key, a contradicted statement, an unknown parent or a cycle; otherwise every statement not covered is there afterwards |
| `Checkpoint.CompactedKeepsOnlyFrontier` | reference_model/checkpoint_lab.py:131-213 | right after a compaction in any run exactly the frontier of the full history is retained and the rest of it covered |
| `Checkpoint.RunCovers` | reference_model/checkpoint_lab.py:131-213 | every interleaving of assign, authentic import and compact keeps representing the full history |
| `Checkpoint.CheckpointSimulatesHistory` | reference_model/checkpoint_lab.py:131-213 | after every such run frontier, winner and visible statements are those of the uncompacted register and covered identities are closed under parents |
| `Checkpoint.CoveredContentIsIgnored` | reference_model/checkpoint_lab.py:149-198 | an incoming statement for a covered, dropped identity is ignored whatever it says, which is why imports must be authentic |
| `Checkpoint.ValidateCoverage` | reference_model/checkpoint_lab.py:73-104 | accepts exactly disjoint retained and covered sets in which every parent is retained or covered and no retained revision is on a cycle |
| `Checkpoint.ImportRevisions` | reference_model/checkpoint_lab.py:149-198 | computes exactly the import: covered identities skipped, retained ones compared, new ones added with every parent retained or covered, the result validated; refused otherwise |
| `CycleBreaking.CyclesDisjoint` | reference_model/hierarchy_bounded_lab.py:63-84 | cycles of a parent function are disjoint |
| `CycleBreaking.BreakSpends` | reference_model/hierarchy_validity_lab.py:77-107 | every breaking step uses up one placement, so breaking ends |
| `CycleBreaking.Diamond` | reference_model/hierarchy_torture_lab.py:116-149 | breaking two different current cycles commutes, exhaustion included |
| `CycleBreaking.ChoiceDoesNotMatter` | reference_model/hierarchy_torture_lab.py:116-149 | whichever cycle is broken next, the final outcome is the same |
| `CycleBreaking.EveryRunAgrees` | reference_model/hierarchy_torture_lab.py:116-149 | every complete run of legal choices ends in one and the same state, after the same number of steps |
| `CycleSearch.WalkFrom` | reference_model/hierarchy_bounded_lab.py:63-84 | one walk up the parents finds the cycle it runs into, if any, and nothing on the walk is on another cycle |
| `CycleSearch.FindCycle` | reference_model/hierarchy_validity_lab.py:43-61 | finds a cycle exactly when there is one, listed along the parents |
| `CycleSearch.AllCycles` | reference_model/hierarchy_torture_lab.py:73-100 | lists every cycle exactly once |
| `HierarchyResolvers.MaterializeAll` | reference_model/hierarchy_torture_lab.py:51-71 | shows for every atom its winning unrejected placement, or reports a real missing, unknown or self parent |
| `HierarchyResolvers.ChooseLoser` | reference_model/hierarchy_bounded_lab.py:90-98 | picks the cycle member whose source revision has the least key |
| `HierarchyResolvers.NextLoser` | reference_model/hierarchy_torture_lab.py:116-149 | counts the cycles exactly and picks the loser of one of them, or reports that there is none |
| `HierarchyResolvers.LowestRevision` | reference_model/hierarchy_validity_lab.py:103-104 | the least active revision on the cycle, and who holds it |
| `HierarchyResolvers.LowestRevisionLoses` | reference_model/hierarchy_validity_lab.py:103-107 | rejecting the lowest revision on a cycle is choosing the least-key loser |
| `HierarchyResolvers.PlacementsAfter` | reference_model/hierarchy_torture_lab.py:40-48 | rejecting the first placements of an atom reveals exactly the rest of one fixed order |
| `HierarchyResolvers.ResolveByRejectingLowest` | reference_model/hierarchy_validity_lab.py:63-107 | for distinct identities and known non-self parents returns the unique full-history outcome; a result is always cycle free and materialized; the no-progress error cannot occur |
| `HierarchyResolvers.ResolveWithMetrics` | reference_model/hierarchy_torture_lab.py:106-149 | returns the same outcome as the other resolver although it breaks the least-key cycle, one rejection an iteration |
| `HierarchyBounded.RootBreaksOneCycle` | reference_model/hierarchy_bounded_lab.py:153-190 | sending one member to the root removes exactly its own cycle |
| `HierarchyBounded.FallBackToRoot` | reference_model/hierarchy_bounded_lab.py:153-190 | never fails; exactly one iteration per initial cycle; exactly the atoms with the lowest source revision on their cycle move to the root, once each; the result is cycle free |
| `HierarchyBounded.FallBackToWitness` | reference_model/hierarchy_bounded_lab.py:192-248 | with usable witnesses always succeeds, and then is acyclic within two steps an atom and twice as many iterations as atoms; every atom shows its placement, its witness or the root as its mode says, and exactly the others' placements are rejected; the outcome is the one every choice of cycles leads to |
| `HierarchyLab.PlaceKeepsWellFormed` | reference_model/hierarchy_lab.py:31-54 | a placement stores a known, non-self parent |
| `HierarchyLab.MergeKeepsWellFormed` | reference_model/hierarchy_lab.py:64-74 | merging keeps every stored parent known and non-self |
| `HierarchyLab.LabRunWellFormed` | reference_model/hierarchy_lab.py:31-74 | every history of placements, deletions and merges stores only known non-self parents |
| `HierarchyLab.PlaceStores` | reference_model/hierarchy_lab.py:31-54 | a placement is refused exactly for the stated reasons; otherwise it is the one its atom shows, has observed all earlier ones, and nothing else changes |
| `HierarchyLab.DeleteStores` | reference_model/hierarchy_lab.py:56-62 | a deletion is refused exactly for an unknown atom and otherwise only marks it |
| `HierarchyLab.MergeStores` | reference_model/hierarchy_lab.py:64-74 | a merge holds exactly the atoms, placements and deletions of either side, refused exactly when one placement has two statements |
| `HierarchyLab.PlacementRemembersParent` | reference_model/hierarchy_bounded_lab.py:100-124 | the default witness of a placement is the parent its atom showed just before it |
| `HierarchyLab.WitnessNeverChanges` | reference_model/hierarchy_bounded_lab.py:100-124 | and no later placement, deletion or merge changes it |
| `HierarchyLab.PreviousParentWitnesses` | reference_model/hierarchy_bounded_lab.py:100-124 | for every revision the parent shown by the revisions it had observed |
| `HierarchyLab.DefaultWitnessesUsable` | reference_model/hierarchy_bounded_lab.py:100-124 | those default witnesses are known and never the atom itself, so the witness policy is total on them |
| `HierarchyLab.ResolveWithRootFallback` | reference_model/hierarchy_bounded_lab.py:153-190 | with well-formed parents fails only for an atom without placement; otherwise it is the exact root fallback: parents, modes, rejected revisions, steps and iterations |
| `HierarchyLab.ResolveWithOneWitness` | reference_model/hierarchy_bounded_lab.py:192-248 | uses the given witnesses or computes the default ones; with usable witnesses fails only for an atom without placement; a witness error means the given witnesses were not usable |
| `FuguePositions.PrecedesIsStrictTotalOrder` | reference_model/sequence_lab.py:150-208 | document order on a valid forest is irreflexive, total and transitive |
| `FuguePositions.OrderIsStable` | reference_model/sequence_lab.py:45-54 | merging in other positions never reorders the old ones |
| `FuguePositions.SubtreeIsContiguous` | reference_model/sequence_lab.py:150-203 | between two positions of one subtree there are only positions of that subtree |
| `FuguePositions.SubtreeIsAncestry` | reference_model/sequence_lab.py:90-96 | lying below on root paths is the parent-chain ancestry |
| `FuguePositions.ChildrenSurroundParent` | reference_model/sequence_lab.py:150-203 | everything below a left child comes before the parent, everything below a right child after it |
| `FuguePositions.SiblingsInOrder` | reference_model/sequence_lab.py:182-203 | of two children of one parent, with all below them, the left comes first, and on one side the smaller identity |
| `FuguePositions.CreatedIsBetween` | reference_model/sequence_lab.py:98-148 | hanging a fresh position by the parent-and-side rule keeps the forest valid and lands strictly between the neighbours |
| `FuguePositions.TypedRun` | reference_model/sequence_lab.py:98-148 | forward typing always succeeds, and the run is in order and lies below its first position |
| `FuguePositions.RunsDoNotInterleave` | reference_model/sequence_lab.py:98-208 | two runs typed forward on any two forests are, in any valid forest that holds both, one wholly before the other |
| `FuguePositions.MergedRunsDoNotInterleave` | reference_model/sequence_lab.py:45-208 | in particular in the merge of the two replicas, which succeeds whenever their forests agreed |
| `FuguePositions.Depth` | reference_model/sequence_lab.py:82-88 | the length of the root path |
| `FuguePositions.IsAncestorOrSelf` | reference_model/sequence_lab.py:90-96 | decides subtree membership by climbing |
| `FuguePositions.ClimbTo` | reference_model/sequence_lab.py:158-180 | climbing one side up to a depth reaches the prefix of its root path and remembers the last side; the failure branches are unreachable |
| `FuguePositions.ClimbToSiblings` | reference_model/sequence_lab.py:182-198 | lock-step climbing ends at two different children of one parent; the failure branches are unreachable |
| `FuguePositions.Compare` | reference_model/sequence_lab.py:150-203 | refuses exactly unknown positions, and otherwise answers by the lexicographic order of root paths |
| `FuguePositions.CreateBetween` | reference_model/sequence_lab.py:98-148 | succeeds exactly for a fresh identity and left before right, so neither post-check can fire; every refusal has its stated reason |
| `FuguePositions.ValidateTree` | reference_model/sequence_lab.py:56-80 | accepts exactly the valid forests |
| `FuguePositions.MergeTrees` | reference_model/sequence_lab.py:45-54 | refused exactly when one position has two descriptions; the union is valid and keeps the order of both sides |
| `DomainMachine.CallKeepsInv` | crates/apc-core/src/domain.rs:52-104 | every call, refused or not, keeps handed-off within exposed within finalized within local within known, and exposure closed under local ancestry |
| `DomainMachine.RunKeepsInv` | crates/apc-core/src/domain.rs:52-104 | the same for every run |
| `DomainMachine.RunOnlyGrows` | crates/apc-core/src/domain.rs:52-104 | no run takes back a statement, ownership, a frozen statement or an exposure |
| `DomainMachine.FrozenStatementsNeverConflict` | crates/apc-core/src/finalization.rs:103-152 | in reachable states the statement-conflict error never occurs, and handoff is refused only for unknown or unfrozen revisions |
| `DomainMachine.RefusedCallsAreSilent` | crates/apc-core/src/domain.rs:73-88 | a refused call changes nothing, except an observation refused after it sealed |
| `DomainMachine.CallRefusedExactly` | crates/apc-core/src/domain.rs:52-122 | which calls fail: a second epoch, an update or seal without one, a known seal identity, finalizing what is not owned, handing off something unknown or above something unfrozen, and no other |
| `DomainMachine.ObservationRefusedExactly` | crates/apc-core/src/working.rs:119-137 | which refusal an observation reports in which case |
| `DomainMachine.SealEscapesExactly` | crates/apc-core/src/domain.rs:73-88 | a sealed revision stays unregistered exactly when the observed remote contradicts the register just after the seal |
| `DomainMachine.SealCanEscape` | crates/apc-core/src/working.rs:126-136 | a concrete failed observation that leaves a sealed, unregistered revision |
| `DomainMachine.RestoreAcceptsUnfrozenExposure` | crates/apc-core/src/finalization.rs:222-233 | restore does not check that exposed revisions are frozen: a concrete accepted image |
| `DomainMachine.SealsObserveTheirBeginning` | crates/apc-core/src/working.rs:67-117 | in every run the strict ancestors of a sealed revision are exactly the revisions known when its epoch began |
| `DomainReachability.RunKeepsReachInv` | crates/apc-core/src/domain.rs:52-104 | in every run local revisions form one ancestry chain, each names exactly the maximal revisions it saw, and some handoff accounts for every exposure |
| `DomainReachability.ReachableExactly` | crates/apc-core/src/domain.rs:28-104 | a state is reached by some run from some valid register if and only if it satisfies the invariant, the local order and accounted exposure: the run is constructed |
| `DomainReachability.RestoreAcceptsConcurrentLocals` | crates/apc-core/src/finalization.rs:212-247 | restore accepts an image with two concurrent local revisions, which no run reaches |
| `DomainReachability.RestoredRunGaps` | crates/apc-core/src/finalization.rs:212-247 | after restoring any accepted image and any run: exposed revisions without a frozen statement are exactly the restored ones never finalized, holes in exposure exactly the restored ones no handoff covered |
| `DomainReachability.ExposedExactly` | crates/apc-core/src/finalization.rs:155-203 | a local revision becomes exposed in a run exactly when a handoff accepted in it covers it |
| `DomainReachability.RestoredRunHasInvExactly` | crates/apc-core/src/finalization.rs:212-247 | so the invariant is back exactly when all of them were finalized and every hole was covered by a handoff accepted in the run |
| `DomainReachability.LocalOrderIsForever` | crates/apc-core/src/finalization.rs:212-247 | the order of local revisions holds after a restart and any run exactly when the image had it: it never recovers and never breaks |
| `DomainReachability.RunKeepsHandoff` | crates/apc-core/src/finalization.rs:155-203 | a handoff that is possible once stays possible, with the same closure, in every later run |
| `LocalDomain.WorkingScalar.FromCausal` | crates/apc-core/src/working.rs:40-46 | accepts exactly valid registers |
| `LocalDomain.WorkingScalar.WorkingValue` | crates/apc-core/src/working.rs:60-65 | the pending value if there is one, otherwise the materialized one |
| `LocalDomain.WorkingScalar.BeginEpoch` | crates/apc-core/src/working.rs:69-82 | captures the current frontier, refused while an epoch is open |
| `LocalDomain.WorkingScalar.UpdatePending` | crates/apc-core/src/working.rs:86-92 | replaces only the pending value |
| `LocalDomain.WorkingScalar.Seal` | crates/apc-core/src/working.rs:95-113 | checks a known identity before a missing epoch; otherwise the seal has exactly the captured frontier as parents |
| `LocalDomain.WorkingScalar.ObserveRemote` | crates/apc-core/src/working.rs:119-137 | validates, seals, then merges; a refused merge keeps the seal |
| `LocalDomain.WorkingScalar.Restore` | crates/apc-core/src/working.rs:146-158 | accepts exactly a valid register whose pending epoch observed its frontier; an invalid register is reported before an invalid snapshot |
| `LocalDomain.FinalizationLedger.RegisterLocal` | crates/apc-core/src/finalization.rs:89-99 | refused exactly for an unknown revision |
| `LocalDomain.FinalizationLedger.Finalize` | crates/apc-core/src/finalization.rs:103-126 | freezes once; the three refusals in their order |
| `LocalDomain.FinalizationLedger.ValidateAgainst` | crates/apc-core/src/finalization.rs:130-148 | accepts exactly valid registers holding every frozen statement, naming the least broken one |
| `LocalDomain.FinalizationLedger.Handoff` | crates/apc-core/src/finalization.rs:154-201 | exposes exactly the local ancestors and hands off exactly the local requested revisions; refused exactly when something is unknown or unfrozen |
| `LocalDomain.FinalizationLedger.Restore` | crates/apc-core/src/finalization.rs:212-247 | accepts exactly well-formed ledgers that fit the register, and returns them unchanged |
| `LocalDomain.LocalScalarDomain.FromCausal` | crates/apc-core/src/domain.rs:29-34 | starts a domain over a valid register |
| `LocalDomain.LocalScalarDomain.BeginEpoch` | crates/apc-core/src/domain.rs:52-54 | one machine step |
| `LocalDomain.LocalScalarDomain.UpdatePending` | crates/apc-core/src/domain.rs:56-58 | one machine step |
| `LocalDomain.LocalScalarDomain.SealLocal` | crates/apc-core/src/domain.rs:62-67 | one machine step: the sealed revision becomes local |
| `LocalDomain.LocalScalarDomain.ObserveRemote` | crates/apc-core/src/domain.rs:73-88 | one machine step, including the case that seals and then fails |
| `LocalDomain.LocalScalarDomain.Finalize` | crates/apc-core/src/domain.rs:90-96 | one machine step; the only possible refusal is an unowned revision |
| `LocalDomain.LocalScalarDomain.Handoff` | crates/apc-core/src/domain.rs:98-104 | one machine step |
| `LocalDomain.LocalScalarDomain.Snapshot` | crates/apc-core/src/domain.rs:106-111 | the image is the whole state |
| `LocalDomain.LocalScalarDomain.Restore` | crates/apc-core/src/domain.rs:113-121 | accepts exactly restorable images and returns the imaged state |
| `LocalDomain.CrashAndRestart` | crates/apc-core/src/domain.rs:106-121 | restoring the snapshot of any reachable state always succeeds and gives the same state |
| `RangeAssembly.AcceptedRangeIsExact` | crates/apc-runtime/src/catchup_set.rs:137-146 | an accepted range amounts to exactly the domains and statements of its objects, contents included |
| `RangeAssembly.RangeOutcomeIsSetOutcome` | crates/apc-runtime/src/catchup_set.rs:202-236 | when every publication of several parts has one total and one wire object an index, and single-part ones any number, acceptance and result depend only on the set of objects: all readable, all parts present, no conflict |
| `RangeAssembly.OrderNeverMatters` | crates/apc-runtime/src/catchup_set.rs:202-236 | any two ranges of the same such objects give the same result or the same failure |
| `RangeAssembly.OrderNeverMattersIff` | crates/apc-runtime/src/catchup_set.rs:202-236 | a range accepted in one order has the same outcome in every order and repetition if and only if its objects satisfy that condition |
| `RangeAssembly.SomeOrderFails` | crates/apc-sync/src/protected.rs:199-244 | readable objects that violate it can always be sent in an order that fails |
| `RangeAssembly.OrderMattersForResealedParts` | crates/apc-sync/src/protected.rs:199-244 | the smallest such failure: a re-sealed part is harmless before completion and fails the range after it |
| `RangeAssembly.MergeProjections` | crates/apc-sync/src/projection.rs:73-86 | succeeds exactly when no shared domain holds two statements of one identity; the result is the domain-wise union |
| `RangeAssembly.MergeParts` | crates/apc-sync/src/protected.rs:235-242 | merging a completed publication's parts in index order gives their union, and fails exactly when none exists |
| `RangeAssembly.MultipartInbox.Ingest` | crates/apc-sync/src/protected.rs:199-244 | one step of assembly; nothing appears before a publication is complete; a refused part leaves the inbox alone, except that a conflict while completing drops the publication |
| `RangeAssembly.DecodeCompleteProjections` | crates/apc-runtime/src/catchup_set.rs:202-236 | skips exact copies, fails on any unreadable, conflicting or incomplete publication, and otherwise returns every assembled projection |
| `RangeAssembly.CombineRange` | crates/apc-runtime/src/catchup_set.rs:137-146 | returns the projection the whole range amounts to, and fails exactly when there is none |
| `RecoveryProtocol.StageKeepsInv` | crates/apc-runtime/src/publication_set.rs:193-236 | staging, however its write ends, keeps the protocol invariant |
| `RecoveryProtocol.CatchUpKeepsInv` | crates/apc-runtime/src/catchup_set.rs:120-200 | applying a range and moving the cursor in one record keeps it |
| `RecoveryProtocol.ObservedMeansInLog` | crates/apc-runtime/src/resume_recovery_batch.rs:317-329 | identity-only evidence suffices: an observed publication's statements are in the log with identical content |
| `RecoveryProtocol.RetireObservedKeepsInv` | crates/apc-runtime/src/resume_recovery_batch.rs:218-266 | retiring on observation keeps the invariant |
| `RecoveryProtocol.RetirePublishedKeepsInv` | crates/apc-runtime/src/resume_recovery_batch.rs:282-305 | moving the cursor over one's own accepted commit without refetching keeps it |
| `RecoveryProtocol.RunKeepsInv` | crates/apc-runtime/src/resume_recovery_batch.rs:151-315 | the invariant holds after every event of every run, with crashes, lost answers, failed writes and other replicas' commits anywhere |
| `RecoveryProtocol.NoExposedWorkIsLost` | crates/apc-runtime/src/resume_recovery_batch.rs:218-315 | a publication staged successfully is, after any later run, still in the outbox in memory and on disk, or the log holds all its statements with identical content |
| `RecoveryProtocol.AcceptedAtMostOnce` | crates/apc-sync/src/batch.rs:42-91 | no publication identity of this replica is in two commits of the log |
| `RecoveryProtocol.CursorNeverOutrunsState` | crates/apc-runtime/src/catchup_set.rs:120-200 | every commit up to the cursor, and every outbox entry, is contained in the trusted state stored in the same record |
| `SyncPorts.DurableSyncRecord.PrepareOutbox` | crates/apc-sync/src/recovery.rs:99-127 | identical re-staging is harmless, a different entry under a used identity is refused unchanged |
| `SyncPorts.DurableSyncRecord.ApplyReceived` | crates/apc-sync/src/recovery.rs:134-137 | state and cursor move together, the outbox stays |
| `SyncPorts.DurableSyncRecord.RetireOutbox` | crates/apc-sync/src/recovery.rs:142-154 | removes one known entry together with the state and cursor change |
| `SyncPorts.RecordStore.Persist` | crates/apc-core/src/durability.rs:22-46 | success means durable; failure leaves the old or the new record |
| `SyncPorts.OpaqueTransport.FetchSince` | crates/apc-sync/src/transport.rs:49-52 | exactly the objects after a known head, an up-to-date answer only at the head, or no answer |
| `SyncPorts.OpaqueTransport.Publish` | crates/apc-sync/src/transport.rs:56-60 | appends exactly when the head still is the expected one; an error may hide an accepted commit |
| `SyncPorts.CommitReceived` | crates/apc-sync/src/session.rs:143-160 | clone, apply, persist, swap: a failed write leaves memory alone |
| `SyncPorts.StageOutbound` | crates/apc-sync/src/session.rs:60-81 | refused exactly for no objects or another entry under the identity; otherwise one write decides: the entry targets the applied cursor, and only after a successful write does memory hold it |
| `SyncPorts.PublishStagedBatch` | crates/apc-sync/src/batch.rs:42-91 | exactly one request when all members are known and target one cursor, with all their objects in ascending order, and then the transport's answer is the result; otherwise nothing is sent and the refusal names its reason |
| `SyncPorts.CommitReconciledOutboxBatch` | crates/apc-sync/src/batch.rs:99-132 | retires the whole set in one durable record or leaves memory alone; each refusal has its reason, and a write failure is reported exactly when the write failed |
| `RecoverySession.PrepareDomain` | crates/apc-runtime/src/publication_set.rs:143-176 | eligible exactly when the handoff rule accepts; carries exactly the selected revisions and their ancestors, unchanged |
| `RecoverySession.PrepareRecoveryHandoff` | crates/apc-runtime/src/publication_set.rs:129-186 | succeeds exactly when every selected domain may hand off its nonempty selection |
| `RecoverySession.PreparedStaysPrepared` | crates/apc-runtime/src/publication_set.rs:193-236 | what was prepared in one state still fits, and can still be staged, after any runs of its domains |
| `RecoverySession.SessionRunsDomains` | crates/apc-runtime/src/catchup_set.rs:102-200 | every run of the session without a crash only runs its domains on |
| `RecoverySession.PreparedUntilCrash` | crates/apc-runtime/src/publication_set.rs:193-236 | so a handoff prepared in a session can be staged later in it, until the next crash |
| `RecoverySession.ApplyHandoffs` | crates/apc-runtime/src/publication_set.rs:204-222 | applies all handoffs on a copy, or none; each refusal names a domain that is missing or not eligible |
| `RecoverySession.ObserveAllDomains` | crates/apc-runtime/src/catchup_set.rs:148-184 | every touched domain crosses its own boundary with its own seal identity; fails exactly when one of them refuses; reports exactly the seals made, with their statements |
| `RecoverySession.ApplyObjects` | crates/apc-runtime/src/catchup_set.rs:122-184 | assembles and observes a range on a copy, with the observed identities per domain |
| `RecoverySession.DecodePendingRecoveryPublication` | crates/apc-runtime/src/resume_recovery_batch.rs:331-376 | an entry decodes exactly when all objects are its own, one of them is the first to complete the publication, and all later ones repeat earlier ones; single-part entries always decode to what was staged |
| `RecoverySession.ProjectionIsObserved` | crates/apc-runtime/src/resume_recovery_batch.rs:317-329 | every identity of every carried domain is among the observed ones |
| `RecoverySession.Replica.constructor` | crates/apc-sync/src/recovery.rs:72-78 | a fresh record beside any log satisfies the protocol invariant |
| `RecoverySession.Replica.Restart` | crates/apc-core/src/durability.rs:12-29 | a restart keeps exactly what is durable |
| `RecoverySession.Replica.StagePreparedRecoveryHandoff` | crates/apc-runtime/src/publication_set.rs:193-236 | refused without a trace exactly when some selected domain or revision is missing or not frozen; otherwise refused only for another entry under its identity or a failed write; success makes exposure and entry durable and acknowledged; all are protocol runs |
| `RecoverySession.Replica.CatchUp` | crates/apc-runtime/src/catchup_set.rs:102-200 | is a protocol run with one fetch, and what it reports and does is fixed by the answer and its one write: no answer, nothing new and a lost baseline are reported as such; a change is applied unless its range or an observation refuses it or the write fails |
| `RecoverySession.Replica.Classify` | crates/apc-runtime/src/resume_recovery_batch.rs:202-216 | current entries are exactly those expecting the applied cursor |
| `RecoverySession.Replica.FindObserved` | crates/apc-runtime/src/resume_recovery_batch.rs:225-246 | exactly the stale entries all of whose identities were observed; decoding never fails on staged entries |
| `RecoverySession.Replica.RetireStale` | crates/apc-runtime/src/resume_recovery_batch.rs:218-266 | retires exactly those entries, in one durable step |
| `RecoverySession.Replica.PublishCurrent` | crates/apc-runtime/src/resume_recovery_batch.rs:282-315 | exactly one request for all current entries; reports the transport's answer, and retires them exactly after an acceptance whose write succeeded |
| `RecoverySession.Replica.Resume` | crates/apc-runtime/src/resume_recovery_batch.rs:151-315 | is a protocol run with one fetch and at most one publish; the answers and the write fix the report: which entries are retired on evidence, which block as stale, which are published; a failure is a failed catch-up, an unanswered publish or a failed write; an entry accepted without an answer is retired from evidence with no publish unless the baseline is unavailable |
| `RecoverySession.Replica.ResumeBounded` | crates/apc-runtime/src/resume_recovery_cycle.rs:33-84 | at most two passes and two publishes, the second pass exactly after a lost race, each reporting what its own answers lead to; an unanswered acceptance needs no publish unless the baseline is unavailable |
| `CrcEnvelope.ShiftIsLinear` | crates/apc-storage-fs/src/recovery.rs:101-111 | the conditional shift step is linear over exclusive or |
| `CrcEnvelope.ShiftKeepsNonzero` | crates/apc-storage-fs/src/recovery.rs:101-111 | and sends only zero to zero |
| `CrcEnvelope.ShiftIsTimesX` | crates/apc-storage-fs/src/recovery.rs:101-111 | the shift step multiplies by x modulo the generator of section 3.2.9 of IEEE 802.3, given by its exponents |
| `CrcEnvelope.CheckValue` | crates/apc-storage-fs/src/recovery.rs:101-111 | start value and final complement: the checksum of the nine digits is the published 0xCBF43926 |
| `CrcEnvelope.CrcOfDifference` | crates/apc-storage-fs/src/recovery.rs:101-111 | the checksums of equally long inputs differ by the checksum of their difference |
| `CrcEnvelope.ShortInputIsOneWord` | crates/apc-storage-fs/src/recovery.rs:101-111 | up to four bytes act as one word mixed in at once |
| `CrcEnvelope.ShortBurstChangesCrc` | crates/apc-storage-fs/src/recovery.rs:101-111 | equally long inputs differing only within four consecutive bytes never share a checksum |
| `CrcEnvelope.Crc32Ieee` | crates/apc-storage-fs/src/recovery.rs:101-111 | the nested loops compute that checksum |
| `CrcEnvelope.Encode` | crates/apc-storage-fs/src/recovery.rs:41-52 | magic, version, length, payload and the checksum of all of it |
| `CrcEnvelope.Decode` | crates/apc-storage-fs/src/recovery.rs:54-96 | the checks in their order, each with its refusal |
| `CrcEnvelope.KnownEnvelope` | crates/apc-storage-fs/src/recovery.rs:41-52 | one envelope byte for byte |
| `CrcEnvelope.EnvelopeRoundTrip` | crates/apc-storage-fs/src/recovery.rs:41-96 | every payload comes back |
| `CrcEnvelope.OnlyEncodingsDecode` | crates/apc-storage-fs/src/recovery.rs:54-96 | whatever decodes is byte for byte the encoding of its result |
| `CrcEnvelope.DamageIsRejected` | crates/apc-storage-fs/src/recovery.rs:54-96 | damage within four consecutive bytes of the framed part, or within the checksum, is always rejected |
| `CrcEnvelope.OneByteIsRejected` | crates/apc-storage-fs/src/recovery.rs:54-96 | one changed byte anywhere is always rejected |
| `CrcEnvelope.WrongLengthIsRejected` | crates/apc-storage-fs/src/recovery.rs:75-80 | a torn or extended buffer whose 18 header bytes are unchanged is always rejected |
| `CodecPrimitives.IdSetRoundTrip` | crates/apc-sync/src/codec.rs:145-162 | identity sets come back from their ascending listing |
| `CodecPrimitives.RegisterRoundTrip` | crates/apc-sync/src/codec.rs:120-143 | valid registers come back |
| `CodecIo.WriteIdSet` | crates/apc-sync/src/codec.rs:145-151 | writes the ascending listing |
| `CodecIo.WriteStatementMap` | crates/apc-sync/src/codec.rs:120-131 | writes statements in ascending key order |
| `CodecIo.Reader.ReadExact` | crates/apc-sync/src/codec.rs:190-201 | advances by exactly the bytes returned, or reports the end of input |
| `CodecIo.Reader.ReadIdentities` | crates/apc-sync/src/codec.rs:153-162 | reads a set, refusing a repeated identity |
| `CodecIo.Reader.ReadScalarRegister` | crates/apc-sync/src/codec.rs:133-143 | reads a register, refusing what import refuses |
| `CodecForms.HeaderRefusals` | crates/apc-sync/src/codec.rs:90-99 | a header is refused as too short, of another magic or of another version, each exactly in its case |
| `CodecForms.RepeatedIdRefused` | crates/apc-sync/src/codec.rs:153-162 | an identity listed twice is refused as a duplicate |
| `ProjectionCodec.ProjectionRoundTrip` | crates/apc-sync/src/codec.rs:72-118 | every projection of valid registers comes back with every byte consumed |
| `ProjectionAcceptance.ProjectionAcceptedExactly` | crates/apc-sync/src/codec.rs:90-118 | the decoder accepts exactly the listings of a projection, each domain once and each register in any order, as that projection |
| `ProjectionAcceptance.ProjectionTailRefused` | crates/apc-sync/src/codec.rs:113-117 | and refuses accepted bytes with anything appended, so no strict prefix of accepted bytes is accepted |
| `ProjectionAcceptance.RepeatedDomainRefused` | crates/apc-sync/src/codec.rs:90-118 | a domain listed twice is refused as a duplicate |
| `ProjectionAcceptance.EmptyIdentifierRefused` | crates/apc-sync/src/projection.rs:15-23 | an empty domain identifier is refused as such |
| `DomainKeyOrder.KeyOrderIsByAtom` | crates/apc-sync/src/projection.rs:9-14 | domain keys are ordered by atom, then by identifier |
| `CodecLayouts.RegisterLayout` | crates/apc-sync/src/codec.rs:120-131 | registers of one and two statements byte for byte |
| `CodecLayouts.ProjectionLayout` | crates/apc-sync/src/codec.rs:72-88 | one projection byte for byte |
| `CodecLayouts.StatementLayout` | crates/apc-sync/src/codec.rs:120-131 | one statement byte for byte |
| `DomainKeyOrder.BytesOrderIsLexicographic` | crates/apc-sync/src/projection.rs:10-14 | domain identifiers are ordered by their first difference, a prefix first |
| `ProjectionCodec.EncodeScalarProjection` | crates/apc-sync/src/codec.rs:72-88 | writes the encoding in ascending domain order, refusing an invalid register |
| `ProjectionCodec.DecodeScalarProjection` | crates/apc-sync/src/codec.rs:90-118 | is exactly the decoding function, refusals included |
| `TrustedStateCodec.SnapshotRoundTrip` | crates/apc-runtime/src/trusted_state.rs:99-189 | every restorable snapshot comes back |
| `TrustedStateAcceptance.SnapshotAcceptedExactly` | crates/apc-runtime/src/trusted_state.rs:133-189 | the decoder accepts exactly the listings of images a restart accepts |
| `TrustedStateAcceptance.SnapshotTailRefused` | crates/apc-runtime/src/trusted_state.rs:133-189 | and refuses accepted bytes with anything appended |
| `TrustedStateAcceptance.UnrestorableRefused` | crates/apc-runtime/src/trusted_state.rs:133-189 | bytes that list an image a restart would refuse are refused as such |
| `TrustedStateAcceptance.RepeatedStatementRefused` | crates/apc-runtime/src/trusted_state.rs:133-189 | a finalized statement listed twice is refused as a duplicate |
| `CodecLayouts.SnapshotLayout` | crates/apc-runtime/src/trusted_state.rs:99-130 | one snapshot byte for byte |
| `TrustedStateCodec.EncodeLocalScalarSnapshot` | crates/apc-runtime/src/trusted_state.rs:99-130 | refuses exactly unrestorable snapshots before writing |
| `TrustedStateCodec.DecodeLocalScalarSnapshot` | crates/apc-runtime/src/trusted_state.rs:133-189 | is exactly the decoding function, ending with the restart checks |
| `TrustedStateCodec.ContainerRoundTrip` | crates/apc-runtime/src/trusted_state_set.rs:210-259 | every container comes back with all nested snapshots |
| `TrustedStateAcceptance.ContainerAcceptedExactly` | crates/apc-runtime/src/trusted_state_set.rs:228-259 | the decoder accepts exactly the listings of containers of restorable snapshots |
| `TrustedStateAcceptance.ContainerTailRefused` | crates/apc-runtime/src/trusted_state_set.rs:228-259 | and refuses accepted bytes with anything appended |
| `TrustedStateAcceptance.RepeatedEntryRefused` | crates/apc-runtime/src/trusted_state_set.rs:228-259 | a domain listed twice is refused as a duplicate |
| `CodecLayouts.ContainerLayout` | crates/apc-runtime/src/trusted_state_set.rs:210-226 | one container byte for byte |
| `TrustedStateCodec.EncodeMultiScalarRecoveryState` | crates/apc-runtime/src/trusted_state_set.rs:210-226 | writes the nested encodings in ascending domain order |
| `TrustedStateCodec.DecodeMultiScalarRecoveryState` | crates/apc-runtime/src/trusted_state_set.rs:228-259 | is exactly the decoding function |
| `SyncRecordCodec.TransitionsKeepRecords` | crates/apc-sync/src/recovery.rs:99-154 | every run of record transitions keeps cursors and objects nonempty and entries under their own identity |
| `SyncRecordCodec.TransitionRefusedExactly` | crates/apc-sync/src/recovery.rs:99-154 | a transition is refused exactly for an empty cursor, no or empty objects, another entry under the identity, or an unknown one to retire |
| `SyncRecordCodec.TransitionsMeet` | crates/apc-sync/src/recovery.rs:99-154 | staging keeps the cursor, applying keeps the outbox, retiring removes one entry; cursor and trusted state change together |
| `SyncRecordCodec.PendingUntilRetired` | crates/apc-sync/src/recovery.rs:99-154 | a publication stays pending, unchanged, until it is retired |
| `SyncRecordCodec.PendingWasStaged` | crates/apc-sync/src/recovery.rs:99-154 | and whatever is pending was staged with exactly those objects and that cursor |
| `SyncRecordCodec.RecordRoundTrip` | crates/apc-sync/src/recovery.rs:208-290 | every such record comes back |
| `RecordAcceptance.RecordAcceptedExactly` | crates/apc-sync/src/recovery.rs:230-290 | the decoder accepts exactly the encodings of records the transitions can make, the outbox in any order |
| `RecordAcceptance.RecordTailRefused` | crates/apc-sync/src/recovery.rs:230-290 | and refuses accepted bytes with anything appended |
| `RecordAcceptance.RepeatedPublicationRefused` | crates/apc-sync/src/recovery.rs:230-290 | a publication listed twice is refused as a duplicate |
| `RecordAcceptance.EmptyCursorRefused` | crates/apc-sync/src/recovery.rs:230-290 | an empty cursor is refused as such |
| `RecordAcceptance.EmptyObjectRefused` | crates/apc-sync/src/recovery.rs:230-290 | an empty object is refused as such |
| `RecordAcceptance.EmptyEntryRefused` | crates/apc-sync/src/recovery.rs:230-290 | an entry without objects is refused as such |
| `CodecLayouts.RecordLayout` | crates/apc-sync/src/recovery.rs:208-228 | one record byte for byte |
| `SyncRecordCodec.ReachableRecordRoundTrip` | crates/apc-sync/src/recovery.rs:99-290 | so every record reached from a fresh one survives encoding and decoding |
| `SyncRecordCodec.EncodeDurableSyncRecord` | crates/apc-sync/src/recovery.rs:208-228 | writes the encoding, entries in ascending order |
| `SyncRecordCodec.DecodeDurableSyncRecord` | crates/apc-sync/src/recovery.rs:230-290 | is exactly the decoding function, refusals included |
| `WireCodec.PartRoundTrip` | crates/apc-sync/src/wire.rs:42-99 | decoding undoes encoding for valid metadata |
| `CodecLayouts.PartLayout` | crates/apc-sync/src/wire.rs:42-58 | one part byte for byte |
| `WireCodec.PartEncodesBack` | crates/apc-sync/src/wire.rs:60-99 | whenever decoding succeeds, encoding the result gives the same bytes |
| `WireCodec.EncodeProtectedSyncPart` | crates/apc-sync/src/wire.rs:42-58 | refuses exactly invalid multipart metadata |
| `WireCodec.DecodeProtectedSyncPart` | crates/apc-sync/src/wire.rs:60-99 | is exactly the decoding function, refusals included |

## Left out

- Encryption, nonces, key handling and object naming: protection is an injective wrapper, so an unreadable object stands for every wire, authentication and nested decoding failure.
- Android, JNI, Java, probe and worker binaries, file system calls, the GitHub transport and the foreground gate: input and output plumbing.
- The single-domain runtime paths (catchup.rs, resume.rs, resume_batch.rs, publication.rs, receive.rs and their cycles): the multi-domain path does the same with more.
- `commit_rebased_outbox`: it trusts replacement bytes supplied by its caller, which nothing in the code relates to the old entry.
- Liveness of resuming: a pass that moved the cursor but failed to retire leaves the entry to a rebase; only safety is stated.
- Cursor codec and trusted-state codec failures: they end a pass before anything is written, as an unreachable transport does.
- Host limits: memory, `usize` on narrow hosts, and the length-overflow refusals they cause.
- Two spellings of one identity: identities are numbers, so the hexadecimal aliases of the reference models do not exist here.
- The order in which worklists visit their elements: stacks are sets here; where the original reports the first offending identity it meets, the model says only that the reported one offends.
- Insertion order of Python dictionaries, and the metrics, snapshots and benchmark code of the reference models.
- OrderedCollection, the movable sequence, atom merging, the mutation and interaction labs and DirtyDomainState.
- The contents of refusals nested inside other refusals: a register refused inside a codec or a session is one error there.
- SyncPorts.DurableSyncRecord.PrepareOutbox: does not refuse an empty protected object, because protected objects are not byte strings there; `SyncRecordCodec` models that refusal on bytes.
- RecoveryProtocol.AcceptedAtMostOnce: publication identities are taken as fresh when first staged and never used by other replicas, and transport heads as never repeated.
- RecoveryProtocol.NoExposedWorkIsLost: statements are found in the log as it is published; removal of old commits by a transport is not modelled, only its refusal to serve them.
- SquashObservability.SquashingIsUnobservable: stated for captured parents and for runs in which no append and no remote names a removed identity, as replicas that never saw private revisions guarantee (`ReportedRunIsOblivious`). A remote that carries a statement only a squash produced cannot reach a ledger that never squashed; that ledger is given its unsquashed form (`Unfolded`). `RunInStepIff` needs neither assumption and gives both ledgers the same operations.
- CycleBreaking.EveryRunAgrees: revision identities are distinct across atoms, as the resolvers assume when they reject by identity.
