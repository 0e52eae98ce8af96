# Verification of the update protocol and planners

Dafny models of the parts of Paper Data Suite that decide something hard, and proofs of
what they promise. `dafny verify dfyconfig.toml` checks the project.

- **Records** (`CanonicalJson`, `Base64`, `Timestamps`, `ActiveReceipts`,
  `WitnessMessages`, `CodecLaws`, `RecordNames`, `FieldLaws`). The compact, key-sorted JSON
  every record is stored in, canonical base64 and the timestamps, character by character.
  Each printer and its strict parser are shown to undo each other on exactly the well-formed
  values within the size limit, with each value under its own name.
- **Witness service** (`CheckpointStore`, `StoreRuns`, `StoreReplay`, `StoreLaws`,
  `CheckpointWitness`, `WitnessProtocol`, `WitnessLaws`, `ClockSkew`). A transactional
  compare-and-swap over hash-chained receipts with a purged table of answered nonces, and
  the client that trusts its signed answers. SHA-256 is an arbitrary function; where the absence of a
  collision among challenges or receipts matters, it is a stated hypothesis. Ed25519 is an
  ideal predicate: only the store signs.
- **Software root** (`Slots`, `SlotRecords`, `SoftwareRoots`, `SlotRuns`,
  `SlotLaws`, `SuccessorProposals`, `ProposalFreeze`, `ProposalLaws`, `CommitOutcomes`). Two
  files switched under locks, with a recovery capsule written first. Every procedure may stop before any of its file
  operations, by an exception, which releases the locks, or by a crash, which leaves them
  for the operator. `CommitOutcomes` holds the frozen state against the witness.
- **Composition planner** (`CompositionPlan`, `PlanProperties`, `CompositionReview`,
  `PlanLaws`).
- **Signed catalog cache** (`CatalogVerification`, `CatalogState`, `CatalogCache`,
  `CatalogRuns`, `CatalogTrust`).
- **Installed dependencies** (`DependencyClosure`): the worklist against reachability, and
  each problem code against its condition.
- **Bootstrap** (`Bootstrap`, `BootstrapConvergence`, `BootstrapLaws`): the plan against the
  separate verifier of an installed composition.
- **Classroom setup** (`ClassroomPlanning`, `ClassroomPreflight`, `ClassroomApply`,
  `ClassroomResume`, `ClassroomLaws`, `SetupLaws`): planning, the preflight against planning
  again, and runs on Core's tables that stop part-way, with what is reported of them and what a rerun then does.

Procedures that change files, tables or lists are methods, most of them of a class, proved
against functions of the state; the laws are lemmas about those functions and their runs.
The modules named `...Laws`, `CatalogTrust` and `RecordNames` say in the inputs' own terms,
both ways, when each operation acts and what it leaves: their conditions are not the ones
the operations are defined by.

## Where the code does less than it seems to promise

- A selection of up to 8192 bytes is accepted, but a capsule that saves one longer than
  5901 bytes cannot be read back, so the switch cannot be restored
  (`SlotRuns.SwitchReversibleExactly`, `LongSelectionNotRestored`).
  Selections made from a journal are always shorter.
- The intent journal takes stage paths with characters, such as a space, that the selection
  reader does not. A switch to such a stage goes through and leaves a pointer nobody reads
  (`SlotLaws.NewPointerReadExactly`, `SpacedPointerUnread`).
- `query_checkpoint_witness` uses one reading of the clock for issuing and verifying, so it
  succeeds only if the store's clock shows that same second
  (`WitnessProtocol.OneClockQueryNeedsEqualClocks`, `ClockSkew.OneReadingFails`).
- Old nonces are purged by the store's clock, so a challenge can be answered again once
  that clock is set back: exactly when some answer in between was clocked more than 300
  seconds after the first (`StoreRuns.ReplaysExactly`; `StoreReplay.AnsweredTwice` is such
  a run).
- The compatibility manifest refuses repeated distribution names only as written. Two
  spellings of one normalized name make a plan that can be applied and then fails
  verification, in different versions whatever is installed
  (`BootstrapConvergence.AppliedVerifiesExactly`, `SpellingsClash`).
- `ClassroomSetupPartialSuccessError` is documented for every failure after a successful
  Core write. A roster commit that Core accepts but that does not read back as reviewed is
  such a write, and with nothing noted before it a plain error is raised. That can happen
  to exactly the plans in which a roster is the first thing to write
  (`ClassroomResume.UnreportedPossibleExactly`).
- A rerun after a partial success is refused when the run opened a year whose calendar
  disagrees with its revision pointer and no Academic Periods were planned, which would
  have noticed (`ClassroomResume.ReplanContinues`, `PointerStopsRerun`).
- A frozen pointer cannot tell the proposed receipt from another successor for the same
  software (`CommitOutcomes.FrozenPointerAgreesExactly`); the signed readback can
  (`ReadbackExactly`).
- The preflight compares class metadata but not rosters. A roster that appears, after
  review, in the folder of a class to be created goes unnoticed, although planning again
  would refuse that class (`ClassroomPreflight.AppearedRosterPasses`). Otherwise the
  preflight is stricter than planning again (`PreflightExactly`, `UnrelatedClassRefused`).

## Model

| member | source | states |
|---|---|---|
| `CanonicalJson.LoadsThen` | paper_data_suite/evergreen_active_receipts.py:185-202 | reading back a printed document, with any blank ending, gives the same dictionary, for every dictionary |
| `CanonicalJson.ReadsLine` | paper_data_suite/evergreen_catalog_state.py:359-370 | a record printed on a line of its own is read back, within the byte limit, as its own keys and values |
| `Base64.AcceptsExactlyEncodings` | paper_data_suite/evergreen_checkpoint_witness.py:318-327 | decoding and then re-encoding accepts exactly the canonical base64 text of the decoded bytes (sections 3.5 and 4 of RFC 4648) |
| `Timestamps.UnstampExactlyStamps` | paper_data_suite/evergreen_checkpoint_store.py:95-104 | a timestamp text is read as a second if and only if it is that second's own text, over the whole calendar |
| `Timestamps.StampOrder` | paper_data_suite/evergreen_checkpoint_store.py:350-356 | timestamp texts sort exactly as the times they name, which the text comparison of the purge relies on |
| `CodecLaws.GroupsExactly` | paper_data_suite/evergreen_checkpoint_witness.py:318-327 | every three octets are spelt by the four letters of their 24 bits, most significant first, and a group cut short is padded by as many equals signs as octets it lacks |
| `CodecLaws.StampSpells` | paper_data_suite/evergreen_checkpoint_store.py:95-104 | the text of a real Gregorian date and time is that of its second since the year 1 by the calendar's own day count, digit by digit |
| `ActiveReceipts.ParsesExactlyEncodings` | paper_data_suite/evergreen_active_receipts.py:185-248 | the receipt parser returns r on exactly the bytes that print a well-formed r within 16 KiB; what is printed under which name is in `RecordNames`, what is well-formed in `FieldLaws` |
| `WitnessMessages.ReadsExactlyChallenges` | paper_data_suite/evergreen_checkpoint_store.py:107-146 | the challenge reader accepts exactly printed well-formed challenges |
| `WitnessMessages.ReadsExactlyStatements` | paper_data_suite/evergreen_checkpoint_witness.py:237-312 | the statement reader accepts exactly printed well-formed statements |
| `WitnessMessages.ReadsExactlyEnvelopes` | paper_data_suite/evergreen_checkpoint_witness.py:237-262 | the reply reader accepts exactly printed envelopes with a 64-byte signature and a bounded payload |
| `WitnessMessages.StatementWidth` | paper_data_suite/evergreen_checkpoint_store.py:378-408 | every well-formed statement fits the client's payload limit |
| `RecordNames.ReceiptByName` | paper_data_suite/evergreen_active_receipts.py:163-248 | the dictionary read from accepted receipt bytes has exactly the 17 names, each with its own field's value under it |
| `RecordNames.ChallengeByName` | paper_data_suite/evergreen_checkpoint_store.py:107-146 | the same for the five names of a challenge |
| `RecordNames.StatementByName` | paper_data_suite/evergreen_checkpoint_witness.py:263-312 | the same for the twelve names of a statement |
| `RecordNames.EnvelopeByName` | paper_data_suite/evergreen_checkpoint_witness.py:237-262 | the same for a reply's envelope |
| `RecordNames.SelectionByName` | paper_data_suite/evergreen_activation_slots.py:107-150 | the same for a selection |
| `RecordNames.RecoveryByName` | paper_data_suite/evergreen_activation_slots.py:172-221 | the same for a capsule |
| `RecordNames.RequestByName` | paper_data_suite/evergreen_witness_commit_protocol.py:185-279 | the same for a commit request |
| `RecordNames.ProposalByName` | paper_data_suite/evergreen_local_receipt_recovery.py:287-397 | the same for a proposal |
| `RecordNames.CacheByName` | paper_data_suite/evergreen_catalog_state.py:109-168 | the same for the catalog cache |
| `FieldLaws.RowLessExactly` | paper_data_suite/evergreen_active_receipts.py:124-151 | rows are ordered by their first difference, texts by their first differing character, and a proper beginning comes first |
| `FieldLaws.SplitExactly` | paper_data_suite/evergreen_active_receipts.py:104-108 | splitting a reference gives the one list of parts without the mark that joins to the whole |
| `FieldLaws.ReceiptAcceptedExactly` | paper_data_suite/evergreen_active_receipts.py:67-248 | a receipt comes back from its own text exactly when every field has its shape, its tables ascend without repetition within their limits, only the first has no predecessor, and the text fits 16 KiB |
| `FieldLaws.StatementAcceptedExactly` | paper_data_suite/evergreen_checkpoint_witness.py:263-312 | the same for a statement, its head and predecessor |
| `FieldLaws.RecoveryAcceptedExactly` | paper_data_suite/evergreen_activation_slots.py:157-221 | the same for a capsule: a preimage that reads and its own digest, or neither |
| `CheckpointStore.MonotonicCheckpointStore.CommitReceipt` | paper_data_suite/evergreen_checkpoint_store.py:255-329 | a commit leaves exactly the successor row and returns it, or leaves the heads untouched, whichever statement fails; when it does which is `StoreLaws.CommitAcceptedExactly` |
| `CheckpointStore.MonotonicCheckpointStore.AnswerChallenge` | paper_data_suite/evergreen_checkpoint_store.py:331-408 | an answer records the nonce after the purge and signs the head read in that transaction, or leaves the nonces untouched |
| `StoreLaws.CommitAcceptedExactly` | paper_data_suite/evergreen_checkpoint_store.py:205-329 | over every run, a commit is added to the accepted receipts if and only if the identifier is well-formed, the receipt parses, the authenticator lets the caller commit, and enrol a first receipt, nothing fails, and the receipt is the next generation, within the limit, and names the last one accepted; nothing else changes |
| `StoreLaws.CommitReturnsExactly` | paper_data_suite/evergreen_checkpoint_store.py:313-329 | an accepted commit returns its own generation, digest and predecessor |
| `StoreLaws.QuestionAnsweredExactly` | paper_data_suite/evergreen_checkpoint_store.py:331-371 | over every run, a question is answered if and only if its challenge reads, the caller may ask, the clock shows a whole second at most 120 after the issue, nothing fails, something was accepted, and no earlier answer to its nonce still stands in the way |
| `StoreLaws.AnswerShowsExactly` | paper_data_suite/evergreen_checkpoint_store.py:372-408 | an answer shows the last receipt accepted so far, its number, and the one before it |
| `StoreRuns.NoFork` | paper_data_suite/evergreen_checkpoint_store.py:255-329 | over every run, with refusals and rollbacks, an installation's accepted receipts are one hash chain of generations 1, 2, 3 and so on, and its row is the one that chain determines |
| `StoreRuns.EveryRowSound` | paper_data_suite/evergreen_checkpoint_store.py:227-253 | every reachable row passes the row reader and the table constraints, with revision equal to generation |
| `StoreRuns.AcceptedOnlyGrows` | paper_data_suite/evergreen_checkpoint_store.py:255-329 | a longer run only appends to the accepted receipts |
| `StoreRuns.OneReceiptPerGeneration` | paper_data_suite/evergreen_checkpoint_store.py:295-322 | at most one receipt is ever accepted for a generation |
| `StoreRuns.RepeatedNonceNeedsPurge` | paper_data_suite/evergreen_checkpoint_store.py:347-371 | whatever the store clock does, one installation and nonce are answered twice only if the second answer, or some answer in between, was clocked more than 300 seconds after the first |
| `StoreRuns.RepeatedChallengeNeedsPurge` | paper_data_suite/evergreen_checkpoint_store.py:107-146 | whatever the store clock does, the same challenge bytes are answered twice only if some answer in between was clocked more than 300 seconds after the first |
| `StoreRuns.ReplaysExactly` | paper_data_suite/evergreen_checkpoint_store.py:331-371 | asking with the same challenge bytes again, at any reading of the clock and its nonce unanswered meanwhile, is answered if and only if the question is admissible and some answer in between was clocked more than 300 seconds after the first |
| `StoreReplay.AnsweredTwice` | paper_data_suite/evergreen_checkpoint_store.py:350-356 | a concrete run of four calls in which the store clock is set back and the same challenge bytes are answered twice at the same reading, under every digest that tells its two nonces apart |
| `StoreRuns.NonceAnswersFarApart` | paper_data_suite/evergreen_checkpoint_store.py:347-371 | corollary: on a store clock that does not run back, two answers to one installation and nonce lie more than 300 seconds apart although old nonces are purged |
| `StoreRuns.NoChallengeAnsweredTwice` | paper_data_suite/evergreen_checkpoint_store.py:107-146 | corollary: on a store clock that does not run back, no challenge bytes are ever answered twice |
| `WitnessProtocol.VerifiedMeansCommittedHead` | paper_data_suite/evergreen_checkpoint_witness.py:221-315 | if a reply verifies and only the store signs under the pinned key, the receipt was that installation's committed head when the store answered a challenge of this digest, between its issue and now, and the demanded revision was reached |
| `WitnessProtocol.AnsweredThisChallengeOnce` | paper_data_suite/evergreen_checkpoint_witness.py:176-206 | with no digest collision among answered challenges, it is this very challenge that was answered, by one call only |
| `WitnessProtocol.RevisionsNeverDecrease` | paper_data_suite/evergreen_checkpoint_store.py:331-408 | answers in store order never show an older revision, and equal revisions show the same head |
| `WitnessProtocol.HonestReplyShowsHead` | paper_data_suite/evergreen_checkpoint_witness.py:237-315 | an honest answer, whose one statement the store can sign, verifies at a time for given receipt bytes if and only if that time is within the statement's 60 and the challenge's 120 seconds, the minimum revision is reached and the bytes carry the store's head |
| `WitnessProtocol.HonestReplyVerifiesExactly` | paper_data_suite/evergreen_checkpoint_witness.py:237-315 | so for the committed receipt, genesis or successor, it verifies exactly inside those windows |
| `WitnessProtocol.VerifiesExactlyTheHead` | paper_data_suite/evergreen_checkpoint_witness.py:221-315 | for one and the same verifier, under which only the store's answers verify: some reply makes the client accept receipt bytes at a time if and only if they carry the head at the answer and the time is in both windows |
| `WitnessProtocol.OneClockQueryNeedsEqualClocks` | paper_data_suite/evergreen_checkpoint_witness.py:330-360 | an honest query that issues and verifies at one reading of its clock succeeds if and only if the store's clock shows that same second |
| `ClockSkew.OneReadingFails` | paper_data_suite/evergreen_checkpoint_witness.py:330-360 | a concrete exchange with a store one second ahead: its reply verifies a second later, and no reply at all verifies at the reading of the issue |
| `WitnessProtocol.IssuedChallengeHoldsExactly` | paper_data_suite/evergreen_checkpoint_witness.py:146-206 | an issued challenge still holds at a moment if and only if at most 120 seconds have passed since |
| `WitnessLaws.IssuedExactly` | paper_data_suite/evergreen_checkpoint_witness.py:146-173 | a challenge is issued exactly at a whole second for a well-formed installation and 32 octets, and reads back as what is held of it |
| `WitnessLaws.AcceptedExactly` | paper_data_suite/evergreen_checkpoint_witness.py:176-315 | a reply is accepted, with this observation, if and only if the pinned key verifies it and its statement names this witness, installation and challenge, is inside every window, reaches the minimum revision, and has the receipt's digest, generation and predecessor |
| `SlotRecords.ParsesExactlySelections` | paper_data_suite/evergreen_activation_slots.py:107-150 | the selection parser returns s on exactly the bytes that print a well-formed s within 8 KiB |
| `SlotRecords.ParsesExactlyRecoveries` | paper_data_suite/evergreen_activation_slots.py:157-221 | the capsule parser returns r on exactly the bytes that print a well-formed r within 8 KiB, preimage and digest included |
| `SlotRecords.CapsuleReadableExactly` | paper_data_suite/evergreen_activation_slots.py:242-275 | a written capsule can be read back if and only if its preimage is at most 5901 bytes |
| `SlotRecords.LongSelectionAccepted` | paper_data_suite/evergreen_activation_slots.py:107-150 | a concrete selection of 6190 bytes, its stage path a directory's name and 2925 empty steps, that the selection reader accepts |
| `SlotRecords.SelectionWidth` | paper_data_suite/evergreen_activation_slots.py:139-150 | a selection made from a journal's stage path always leaves a readable capsule |
| `SoftwareRoots.SoftwareRoot.Switch` | paper_data_suite/evergreen_activation_slots.py:315-428 | under the selection lock, stopped anywhere by an exception or a crash, the files are those of the writes made so far and only a crash keeps the lock; when there are writes, and which, is `SlotLaws.SwitchActsExactly` and `SwitchLeavesExactly` |
| `SoftwareRoots.SoftwareRoot.Restore` | paper_data_suite/evergreen_activation_slots.py:431-481 | the same for the restore, which writes nothing when a proposal exists or the pointer is neither state |
| `SoftwareRoots.SoftwareRoot.SelectWitnessBound` | paper_data_suite/evergreen_witness_slot_transition.py:126-434 | the same for the witness-bound switch, under the selection lock and then the journal lock |
| `SoftwareRoots.SoftwareRoot.Reconcile` | paper_data_suite/evergreen_witness_slot_transition.py:437-557 | the same for the offline reconciliation: pointer, journal mark, capsule, in that order |
| `SoftwareRoots.SoftwareRoot.Persist` | paper_data_suite/evergreen_local_receipt_recovery.py:434-518 | the same for storing the successor proposal |
| `SoftwareRoots.SoftwareRoot.PreviousStands` | paper_data_suite/evergreen_update_journal.py:132-149 | the walk down the previous stage path succeeds exactly when its parts, empty steps dropped, lead through ordinary directories and never upwards |
| `SoftwareRoots.SoftwareRoot.Save` | paper_data_suite/evergreen_activation_slots.py:406-425 | the capsule is written before the pointer |
| `SlotLaws.SwitchActsExactly` | paper_data_suite/evergreen_activation_slots.py:330-405 | a switch writes if and only if no capsule is pending, the stored intent is armed and names no predecessor, the four records are the intent's, the audit passed, and the slot to be left, if any, reads, is another transaction's, still stands and has a generation after it |
| `SlotLaws.SwitchCallActsExactly` | paper_data_suite/evergreen_activation_slots.py:315-428 | on free locks a whole call, run to its end, changes the files exactly then |
| `SlotLaws.SwitchLeavesExactly` | paper_data_suite/evergreen_activation_slots.py:388-425 | it leaves a capsule that saves the pointer found, and a pointer to the intent's stage and records at the next generation |
| `SlotLaws.NewPointerReadExactly` | paper_data_suite/evergreen_activation_slots.py:107-150 | that pointer is read back as what was selected if and only if the stage path is spelt in letters, digits, underscores, dots and hyphens |
| `SlotLaws.SpacedPointerUnread` | paper_data_suite/evergreen_update_journal.py:134-150 | a root and a call for which the switch goes through and nobody reads the new pointer |
| `SlotLaws.RestoreActsExactly` | paper_data_suite/evergreen_activation_slots.py:431-481 | a restore writes if and only if the capsule reads and is this transaction's, no proposal exists, and the pointer is by its digest the candidate or the preimage; it then leaves exactly the preimage and no capsule |
| `SlotLaws.SelectActsExactly` | paper_data_suite/evergreen_witness_slot_transition.py:126-434 | a witness-bound switch writes if and only if no capsule is pending, the intent is armed for this candidate and this observation of the prior head, the witness showed that head, and the predecessor receipt, with records of its own, describes the slot to be left, no later than the intent |
| `SlotLaws.ReconcileActsExactly` | paper_data_suite/evergreen_witness_slot_transition.py:437-557 | a reconciliation writes if and only if the capsule is this armed or already marked intent's own switch, and the pointer is one of its two sides |
| `SlotLaws.ReconcileLeavesExactly` | paper_data_suite/evergreen_witness_slot_transition.py:500-557 | it leaves the saved pointer, an armed intent marked as needing recovery, and no capsule |
| `SlotLaws.LocksAreRespected` | paper_data_suite/evergreen_witness_slot_transition.py:150-175 | under a held lock no call changes a file it protects, and locks stay behind exactly after a crash |
| `SlotRuns.RestoreRetried` | paper_data_suite/evergreen_activation_slots.py:431-481 | however often a restore is cut short, running it once more puts back exactly the saved selection and leaves no capsule |
| `SlotRuns.SwitchPending` | paper_data_suite/evergreen_activation_slots.py:388-425 | a switch cut short anywhere leaves the files alone, or a readable capsule whose pointer is its preimage or its candidate, one generation apart |
| `SlotRuns.SwitchReversibleExactly` | paper_data_suite/evergreen_activation_slots.py:388-481 | the two writes of a switch are undone by a restore if and only if the selection they replace was absent or at most 5901 bytes long |
| `SlotRuns.SwitchCallReversibleExactly` | paper_data_suite/evergreen_activation_slots.py:315-481 | so for every switch call that goes through, over its own root and journals |
| `SlotRuns.LongSelectionNotRestored` | paper_data_suite/evergreen_activation_slots.py:315-481 | a root with that selection and an armed journal, and a call for which the switch goes through and no restore undoes it |
| `SlotRuns.SwitchThenRestore` | paper_data_suite/evergreen_activation_slots.py:315-481 | a switch cut short anywhere and then restored, with any interruptions, leaves exactly the state before it |
| `SlotRuns.ReconcileRetried` | paper_data_suite/evergreen_witness_slot_transition.py:437-557 | however often an offline reconciliation is cut short, one that runs to the end leaves the saved selection, no capsule and the journal marked once |
| `SlotRuns.SelectThenReconcile` | paper_data_suite/evergreen_witness_slot_transition.py:387-557 | a witness-bound switch cut short anywhere and then reconciled leaves nothing done, or the state before it with its journal marked |
| `SlotRuns.StepKeeps` | paper_data_suite/evergreen_activation_slots.py:315-481 | every call, journal write and operator act, stopped anywhere, keeps the files recoverable |
| `SlotRuns.RunsStayRecoverable` | paper_data_suite/evergreen_activation_slots.py:315-481 | so does every run of them |
| `SlotRuns.FreshRootRecoverable` | paper_data_suite/evergreen_activation_slots.py:295-312 | a root without files is recoverable, so what runs keep holds from the first call on |
| `SlotRuns.RestoreNeverAmbiguous` | paper_data_suite/evergreen_activation_slots.py:440-481 | after every run, whenever a capsule exists it is readable, the pointer is its preimage or its candidate, and unless a proposal forbids it a restore ends with exactly the preimage and no capsule |
| `SuccessorProposals.ParsesExactlyRequests` | paper_data_suite/evergreen_witness_commit_protocol.py:185-279 | a commit request parses from exactly the bytes it serializes to |
| `SuccessorProposals.ParsesExactlyProposals` | paper_data_suite/evergreen_local_receipt_recovery.py:287-397 | a proposal parses from exactly the bytes its snapshot and time print to, within 80 KiB |
| `ProposalFreeze.PersistFreezes` | paper_data_suite/evergreen_local_receipt_recovery.py:434-518 | storing a proposal changes no other file and binds it to the pending capsule's transaction |
| `ProposalFreeze.FrozenStep` | paper_data_suite/evergreen_offline_commit_interlock.py:22-52 | with a proposal stored for the pending transaction, no call for any transaction moves the pointer, the capsule or the proposal |
| `ProposalFreeze.FreezeAfterProposal` | paper_data_suite/evergreen_activation_slots.py:446-454 | once a persist call has stored a proposal, no run of calls, cut short in any way, changes the pointer, the capsule or that proposal |
| `ProposalFreeze.InspectionAgrees` | paper_data_suite/evergreen_local_receipt_recovery.py:211-284 | an inspection finds exactly the snapshot the persist call took whenever pointer, capsule, journal and proposal are unchanged |
| `ProposalFreeze.InspectionsKeepAgreeing` | paper_data_suite/evergreen_local_receipt_recovery.py:521-575 | inspections keep succeeding with that snapshot over every run in which nobody rewrites the journal or drops the capsule by hand |
| `ProposalLaws.PersistActsExactly` | paper_data_suite/evergreen_local_receipt_recovery.py:434-518 | a proposal is stored if and only if none is, its request stands, the directories are there, the witness still shows the prior head, journal, pointer, capsule and both receipts tell one story on paths apart, neither receipt is from the future, and the texts fit |
| `ProposalLaws.InspectedExactly` | paper_data_suite/evergreen_local_receipt_recovery.py:521-575 | an inspection reports exactly a stored proposal of this transaction whose root still tells its story with the very pointer, capsule and journal |
| `WitnessLaws.ReadbackStatusExactly` | paper_data_suite/evergreen_witness_commit_protocol.py:282-363 | a readback confirms the successor exactly when the reply is accepted for it at the next revision, and shows the prior head exactly when it is accepted for that at the request's revision and not for the successor |
| `CommitOutcomes.ReadbackIsSound` | paper_data_suite/evergreen_witness_commit_protocol.py:282-363 | whatever reply arrives, a readback confirms the successor only if it was accepted next after the demanded revision, and shows the prior head only if the predecessor was accepted at it |
| `CommitOutcomes.ReadbackExactly` | paper_data_suite/evergreen_witness_commit_protocol.py:282-387 | an honest readback at equal clocks says prior exactly when the predecessor is the head, confirmed exactly when the proposed successor is, and nothing otherwise |
| `CommitOutcomes.OutcomeIsFinal` | paper_data_suite/evergreen_checkpoint_store.py:295-322 | what is accepted after the predecessor, the proposed receipt or another, is the next generation naming it, and no later call changes which it was |
| `CommitOutcomes.FrozenPointerAgreesExactly` | paper_data_suite/evergreen_local_receipt_recovery.py:211-284 | over every run of local calls after a proposal is stored and every run of the witness that has its predecessor: the frozen pointer disagrees while the prior head stands, agrees with the proposed successor as head, and with another exactly when that is the head and for the same software |
| `CompositionReview.PlanReview` | paper_data_suite/evergreen_composition_review_plan.py:235-467 | the whole planning procedure, with its loops in any iteration order, returns the plan or refusal its inputs determine; which that is say `PlanLaws.InputsExactly` and `SolvedExactly` |
| `CompositionReview.ReadRequirements` | paper_data_suite/evergreen_composition_review_plan.py:156-204 | the grouping loop finds exactly the specifiers on each managed component and the external requirements, or refuses on an unusable one |
| `CompositionReview.RunRound` | paper_data_suite/evergreen_composition_review_plan.py:350-380 | a round in place, in any component order, equals updating every constrained component at once from the round's start, and its change flag is right |
| `CompositionReview.ApplyTargets` | paper_data_suite/evergreen_composition_review_plan.py:310-335 | the explicit versions and removals applied to the baseline, or refused |
| `CompositionReview.Converge` | paper_data_suite/evergreen_composition_review_plan.py:345-384 | the bounded loop of rounds, in which each non-final round adds one state to those seen; when it ends how say `PlanLaws.SettlesExactly`, `OscillatesExactly`, `RoundRefusesExactly` and `RunsOutExactly` |
| `CompositionReview.ReadBaseline` | paper_data_suite/evergreen_composition_review_plan.py:278-308 | the baseline is accepted exactly when each observation is one signed release of its publisher's document, and no component repeats |
| `CompositionReview.ReadRegistrations` | paper_data_suite/evergreen_composition_review_plan.py:263-276 | the registrations are accepted exactly when no component and no normalized distribution name repeats |
| `CompositionReview.ReadDocuments` | paper_data_suite/evergreen_composition_review_plan.py:104-122 | the publisher documents are accepted exactly when each matches its registration and no component repeats |
| `CompositionReview.BuildRows` | paper_data_suite/evergreen_composition_review_plan.py:401-434 | the row loop makes one row for every component before or after |
| `CompositionReview.ReviewSound` | paper_data_suite/evergreen_composition_review_plan.py:285-434 | applied to what was observed, the rows give a composition that meets every applicable dependency, has no revoked or incompatible release, and has exactly the explicit versions, none of the removals and every other observed component |
| `CompositionReview.ReviewIdempotent` | paper_data_suite/evergreen_composition_review_plan.py:320-434 | planning again from what a plan proposes, with the same exact versions, is accepted and every row is UNCHANGED |
| `PlanProperties.PlanSound` | paper_data_suite/evergreen_composition_review_plan.py:320-400 | the same soundness for whatever composition the rounds settle on |
| `PlanProperties.FinalCheckPasses` | paper_data_suite/evergreen_composition_review_plan.py:385-396 | once the rounds converge the final recheck finds nothing unresolved, so that refusal is unreachable |
| `PlanProperties.RoundsAreFresh` | paper_data_suite/evergreen_composition_review_plan.py:345-384 | unless an oscillation is reported, each round starts from a state no earlier round started from, and running out of rounds means 64 such states |
| `PlanProperties.SmallSpaceConverges` | paper_data_suite/evergreen_composition_review_plan.py:345-384 | with fewer than 64 possible states the round limit is never the reason to refuse |
| `PlanProperties.ChangeIsVisible` | paper_data_suite/evergreen_composition_review_plan.py:376-380 | a round that changes the composition changes its component versions |
| `PlanProperties.ChosenExactly` | paper_data_suite/evergreen_composition_review_plan.py:136-153 | a replacement is an admissible signed release, the observed version if still admissible and else one nothing admissible is newer than; none is found only when there is none |
| `PlanProperties.RowsRebuild` | paper_data_suite/evergreen_composition_review_plan.py:401-434 | rows applied to the baseline identities give the composition's, and each action says what happened to its component |
| `PlanLaws.InputsExactly` | paper_data_suite/evergreen_composition_review_plan.py:235-308 | the inputs are accepted if and only if targets are well named and registered, no component or normalized distribution is registered twice, and every document and observation is the one its registration and catalog say |
| `PlanLaws.SolvedExactly` | paper_data_suite/evergreen_composition_review_plan.py:310-400 | a composition is proposed if and only if something is observed, every target can be, something is left, it is the settled iterate, and nothing in it is revoked or incompatible |
| `PlanLaws.SolveRefusesExactly` | paper_data_suite/evergreen_composition_review_plan.py:310-400 | an empty baseline, an impossible target and an empty composition are reported exactly when that is what is wrong |
| `PlanLaws.RoundExactly` | paper_data_suite/evergreen_composition_review_plan.py:350-380 | a round keeps what is unrequired or satisfied, replaces what is neither satisfied nor a target, and refuses otherwise, over the requirements exactly if one cannot be used |
| `PlanLaws.ChoiceExactly` | paper_data_suite/evergreen_composition_review_plan.py:136-153 | the release chosen is the first fit one of the observed version, or else the first of the newest fit ones, unless a Python bound cannot be read |
| `PlanLaws.SettlesExactly` | paper_data_suite/evergreen_composition_review_plan.py:345-384 | the rounds settle on a composition if and only if it is an iterate below 64 that a round leaves alone, with no repetition up to it |
| `PlanLaws.OscillatesExactly` | paper_data_suite/evergreen_composition_review_plan.py:345-350 | an oscillation is reported if and only if two of the at most 64 rounds started begin with the same versions of the same components |
| `PlanLaws.RoundRefusesExactly` | paper_data_suite/evergreen_composition_review_plan.py:350-375 | the rounds refuse for a reason of their own if and only if some iterate below 64 is refused so, with no repetition up to it |
| `PlanLaws.RunsOutExactly` | paper_data_suite/evergreen_composition_review_plan.py:381-384 | the limit is reported if and only if there is a 64th iterate with no repetition and no fixed point before |
| `PlanLaws.ExternalExactly` | paper_data_suite/evergreen_composition_review_plan.py:156-204 | the external requirements listed are exactly the applicable ones on distributions the registry does not have |
| `CatalogVerification.AuthorizedSigners` | paper_data_suite/evergreen_catalog_verification.py:187-214 | the signer loop returns the signers' names exactly when the function it is proved against accepts; what that takes is `CatalogTrust.RegistryAcceptedExactly` and `DocumentAcceptedExactly` |
| `CatalogVerification.EnsureSeparate` | paper_data_suite/evergreen_catalog_verification.py:217-234 | the delegation loop accepts exactly when each delegated key is pinned, is no root and is delegated once |
| `CatalogVerification.OneRole` | paper_data_suite/evergreen_catalog_verification.py:217-234 | under one verified registry a key holds at most one of root, one module, or integration |
| `CatalogVerification.RegistrySignersAreRoots` | paper_data_suite/evergreen_catalog_verification.py:237-265 | an accepted registry has separate delegations and at least the threshold of distinct root signers |
| `CatalogVerification.SignersNeverOverlap` | paper_data_suite/evergreen_catalog_verification.py:291-361 | documents of different roles under one registry, verified at any two moments, share no signer and no public key |
| `CatalogVerification.DelegatesAreNotRoots` | paper_data_suite/evergreen_catalog_verification.py:291-361 | no signer or public key of a delegated document is a root |
| `CatalogTrust.RegistryAcceptedExactly` | paper_data_suite/evergreen_catalog_verification.py:237-265 | a registry is accepted if and only if at least the threshold of signatures are there, each made over its very payload by the pinned key of a root of that name, every delegated key is pinned, no root and delegated once, and it is timely |
| `CatalogTrust.DocumentAcceptedExactly` | paper_data_suite/evergreen_catalog_verification.py:279-361 | a module or integration document is accepted if and only if its registry was verified under this keyring and is timely, it has a signature, each is made over its very payload by the pinned key of a name that holds its role, and it is timely |
| `CatalogTrust.SnapshotAcceptedExactly` | paper_data_suite/evergreen_catalog_state.py:184-266 | envelopes are accepted if and only if the registry and every document are, each against its own checkpoint, none twice and none remembered left out, at most 32 of a kind |
| `CatalogTrust.SavedIsGenuine` | paper_data_suite/evergreen_catalog_state.py:311-390 | every document of a snapshot a save returns, over every run, was signed over its very payload by pinned keys that hold its role |
| `CatalogTrust.ReadIsGenuine` | paper_data_suite/evergreen_catalog_state.py:269-299 | so was every document of whatever cache file is read |
| `CatalogTrust.ReadNowExactly` | paper_data_suite/evergreen_catalog_state.py:269-308 | a file is read now if and only if it parses, was accepted no later under this keyring, and is accepted again |
| `CatalogTrust.ReadHistoryExactly` | paper_data_suite/evergreen_catalog_state.py:269-299 | a file is read as history if and only if it was accepted inside all its windows under this keyring and is accepted again at their latest issue |
| `CatalogTrust.SavedExactly` | paper_data_suite/evergreen_catalog_state.py:311-390 | a save goes through if and only if the file is absent or reads as history, the envelopes are accepted over it, and the new file fits 4 MiB |
| `CatalogState.VerifyEach` | paper_data_suite/evergreen_catalog_state.py:221-256 | the document loop returns every document verified against its own remembered checkpoint, or refuses at the first that fails |
| `CatalogState.ParsesWritten` | paper_data_suite/evergreen_catalog_state.py:109-168 | a cache file within 4 MiB is parsed as exactly what was written |
| `CatalogCache.OverlapBounds` | paper_data_suite/evergreen_catalog_state.py:171-181 | a moment is in every window exactly when it is between the latest issue and the earliest expiry |
| `CatalogCache.AcceptedAgain` | paper_data_suite/evergreen_catalog_state.py:184-266 | envelopes once accepted against any history are accepted as the same snapshot without history at every moment in all their windows |
| `CatalogCache.HistoryAcceptsSaved` | paper_data_suite/evergreen_catalog_state.py:269-299 | what a save wrote is re-read by the historical path under the same keyring as exactly the snapshot returned |
| `CatalogCache.LoadsExactlyUntilExpiry` | paper_data_suite/evergreen_catalog_state.py:302-308 | a load accepts what was saved exactly from the acceptance time until the earliest expiry |
| `CatalogCache.NothingElseIsRead` | paper_data_suite/evergreen_catalog_state.py:269-299 | under any keyring and at any time the file reads as that snapshot or not at all |
| `CatalogRuns.CacheFile.Save` | paper_data_suite/evergreen_catalog_state.py:311-390 | a save replaces the file with exactly the accepted envelopes and returns their snapshot, or changes nothing |
| `CatalogRuns.CacheFile.Accept` | paper_data_suite/evergreen_catalog_state.py:335-356 | the part of a save that verifies, with its clock check and loops, accepts exactly what the history admits |
| `CatalogRuns.LaterExtends` | paper_data_suite/evergreen_catalog_state.py:184-266 | of any two successful saves, under whatever keyrings, the later keeps every identity, lowers no revision, repeats no revision with another digest and accepts no earlier |
| `CatalogRuns.NoEquivocation` | paper_data_suite/evergreen_catalog_verification.py:163-184 | any two saves, adjacent or not, with equal revision for an identity have equal payload digest |
| `CatalogRuns.NeverWedged` | paper_data_suite/evergreen_catalog_state.py:335-345 | after every run the file reads back, for the last writer's keyring, as the last snapshot saved |
| `DependencyClosure.Closure` | paper_data_suite/evergreen_local_compatibility.py:128-208 | the worklist ends, on cyclic graphs too; up to 4000 states it has visited exactly the reachable ones and reports exactly their problems, in whatever order, and above that it says so |
| `DependencyClosure.CheckDependencies` | paper_data_suite/evergreen_local_compatibility.py:128-208 | no problem is reported if and only if at most 4000 states are reachable along edges and each is an installed package with at most 256 requirements, all of them met; otherwise exactly the codes of what is wrong with a reachable state are, or, exactly above 4000, that the graph is too large |
| `DependencyClosure.WrongExactly` | paper_data_suite/evergreen_local_compatibility.py:162-207 | a dependency text is reported under each code, "dependency_missing" and the seven others, exactly when that, and nothing checked before it, is what is wrong |
| `DependencyClosure.CodesExactly` | paper_data_suite/evergreen_local_compatibility.py:159-207 | a code is reported for some states exactly when one of them is faulty in that way |
| `DependencyClosure.Expand` | paper_data_suite/evergreen_local_compatibility.py:162-207 | expanding a state adds exactly its problems and its successors |
| `DependencyClosure.ClosedReaches` | paper_data_suite/evergreen_local_compatibility.py:153-207 | a set of reachable states with the root and all successors is the set of reachable states |
| `DependencyClosure.CleanExactly` | paper_data_suite/evergreen_local_compatibility.py:159-207 | a state has no problem exactly when its package states at most 256 requirements and each text parses and either its marker is false for every extra, or the marker holds and the one installed package of that name, named without URL and inside the environment, satisfies the specifier and allows this Python |
| `DependencyClosure.EdgeExactly` | paper_data_suite/evergreen_local_compatibility.py:162-207 | the successors the worklist follows are exactly the states a met, applicable requirement asks for, with its extras |
| `DependencyClosure.AppliesExactly` | paper_data_suite/evergreen_local_compatibility.py:168-176 | extras tried in order apply a marker exactly when some extra makes it true and it is plainly false before, and rule it out exactly when it is false for all |
| `DependencyClosure.Inventory` | paper_data_suite/evergreen_local_compatibility.py:223-231 | the inventory loop files the first package of each normalized name and marks exactly the repeated names |
| `Bootstrap.ReadInstalled` | paper_data_suite/bootstrap.py:190-205 | the inventory loop files each package under its normalized name, or refuses on a blank or repeated one |
| `Bootstrap.PlanPackages` | paper_data_suite/bootstrap.py:527-586 | the package loop decides every row: keep, install, skip or block |
| `Bootstrap.VerifyEach` | paper_data_suite/bootstrap_installation.py:95-135 | the verification loop passes exactly the installed rows and refuses at the first that disagrees |
| `BootstrapConvergence.PlanAgreesWithVerifier` | paper_data_suite/bootstrap_installation.py:49-135 | in an environment whose marker matches, planning finds nothing to block or change exactly when the separate verifier accepts it |
| `BootstrapConvergence.AppliedVerifiesExactly` | paper_data_suite/bootstrap.py:492-613 | an applicable plan leads to a composition the verifier accepts if and only if no package to install shares its normalized name with another to install or with a row of another version |
| `BootstrapConvergence.DistinctNamesConverge` | paper_data_suite/bootstrap.py:165-170 | when the suite and the manifest's components all have distinct normalized names, an applicable plan, applied, is accepted by the verifier |
| `BootstrapConvergence.ReplanIsCleanExactly` | paper_data_suite/bootstrap.py:492-613 | under that same condition, and only then, planning again blocks nothing and changes nothing |
| `BootstrapConvergence.SpellingsClash` | paper_data_suite/compatibility.py:797-799 | a concrete manifest the loader accepts, with two spellings of one normalized name, whose plan can be applied although no environment at all satisfies the verifier |
| `BootstrapConvergence.SameRows` | paper_data_suite/bootstrap_installation.py:77-93 | the planner and the verifier look at the same rows |
| `BootstrapLaws.BuildPlanExactly` | paper_data_suite/bootstrap.py:208-613 | a plan is given if and only if the digest, the Python, the selection, the inventory and the prerequisites are in order; it has Core's row, the suite's and the others' in the manifest's order, each kept, blocked, installed or skipped by what is installed under its name, and is blocked exactly in an unwelcome environment |
| `BootstrapLaws.PlanVerdictsExactly` | paper_data_suite/bootstrap.py:152-161 | a plan can be applied exactly in a welcome environment with nothing else under a row's name, and calls for changes exactly when the environment or a needed package is missing |
| `BootstrapLaws.VerifiesExactly` | paper_data_suite/bootstrap_installation.py:30-135 | an environment verifies if and only if it is there, virtual and of a qualified Python, and has every needed row exactly installed and no other in any other way |
| `ClassroomPlanning.PlannedExactly` | paper_data_suite/classroom_planning.py:1040-1085 | the planners and the assembly accept a plan exactly when it is for these choices, its ids are distinct and its parts go together, and every planner by itself gives its part |
| `ClassroomLaws.SetupExactly` | paper_data_suite/classroom_planning.py:544-1085 | a plan is made if and only if the open year's calendar agrees, the choices go together and every part is right: a year new, open or in conflict, each class by Core's record and roster, each roster by its tokens and students, the pack by its merge and the calendar by what is there |
| `ClassroomLaws.RosterExactly` | paper_data_suite/classroom_planning.py:725-842 | a roster is created if and only if Core has none, kept if and only if Core's has the same students, and replaced otherwise, with counts that split both lists, for a file of that class and tokens that are not blank |
| `ClassroomLaws.ClassExactly` | paper_data_suite/classroom_planning.py:589-691 | a class is new when Core holds neither record nor roster of it, matches when its record is for this class and year, and conflicts otherwise |
| `ClassroomLaws.ApplicableExactly` | paper_data_suite/classroom_planning.py:342-357 | a plan can be applied exactly when no other year is open, no class is another's or has an orphaned roster, and the pack merges without conflict |
| `ClassroomPreflight.PreflightExactly` | paper_data_suite/classroom_apply.py:344-539 | for a plan nothing blocks, and tokens that tell rosters apart, the preflight passes and no class to be created has a roster by now, if and only if no compared material changed and planning everything again gives the very same plan |
| `ClassroomPreflight.AppearedRosterPasses` | paper_data_suite/classroom_apply.py:344-364 | a concrete state change the preflight passes although planning again refuses: a roster appears in a class folder without metadata |
| `ClassroomPreflight.UnrelatedClassRefused` | paper_data_suite/classroom_apply.py:344-364 | a concrete state change the preflight refuses although planning again gives the same plan: a class the plan does not mention |
| `SetupLaws.PreflightPassesExactly` | paper_data_suite/classroom_apply.py:344-539 | the preflight passes if and only if nothing blocks, the state shows the reviewed material, and the tokens, the merged library and the calendar are the reviewed ones |
| `ClassroomApply.SetupRun.Execute` | paper_data_suite/classroom_apply.py:700-892 | the ordered run on Core's tables, area by area, whoever else changes them and whichever call raises, ends as the fold of its steps: what is completed, noted as changed and written, and the tables themselves |
| `ClassroomApply.SetupRun.ApplyRoster` | paper_data_suite/classroom_apply.py:753-799 | a roster commit is noted only after its read-back, against the roster its file held at the commit, has been verified |
| `ClassroomApply.ExecuteSetupPlan` | paper_data_suite/classroom_apply.py:895-914 | a refused preflight leaves Core as it was; a passed one runs the plan from the state it saw, with that state's standards library |
| `ClassroomApply.Bookkeeping` | paper_data_suite/classroom_apply.py:709-892 | wherever a run stops, completed is a prefix of the plan's actions, and changed and written are that prefix's mutations and at most the one of the failing step |
| `ClassroomApply.ReportedExactly` | paper_data_suite/classroom_apply.py:862-892 | partial success is raised exactly when a run stops with something noted as changed |
| `SetupLaws.RosterStepExactly` | paper_data_suite/classroom_apply.py:415-457 | a roster is committed exactly while file and Core's roster have the reviewed tokens, and passes exactly if it is found again with the file's students; one to keep passes exactly with its tokens |
| `SetupLaws.ClassStepExactly` | paper_data_suite/classroom_apply.py:728-752 | a class record is written exactly where Core has none, leaves a roster there alone, and passes exactly if it is found as written |
| `SetupLaws.StandardsStepExactly` | paper_data_suite/classroom_apply.py:682-697 | a pack is installed exactly while the library is the one the preflight saw and merges without conflict, and passes exactly if the reviewed candidate is found |
| `SetupLaws.PeriodsStepExactly` | paper_data_suite/classroom_apply.py:655-679 | a calendar is written exactly where the year has no revision, and passes exactly if it is found at its revision; nothing to do passes without a look |
| `SetupLaws.StepsInOrder` | paper_data_suite/classroom_apply.py:709-861 | the year comes first, then classes, rosters, the pack and the calendar, each as planned |
| `SetupLaws.RunExactly` | paper_data_suite/classroom_apply.py:862-892 | a run does its steps up to the first that does not pass, each where the one before left Core |
| `ClassroomApply.PlannedIsEligible` | paper_data_suite/classroom_planning.py:342-357 | an assembled plan that nothing blocks never reaches a not-APPLY-eligible branch |
| `ClassroomResume.ReplanContinues` | paper_data_suite/classroom_apply.py:862-887 | however a run nobody else disturbs is cut short, planning again with the same choices gives the plan with its written parts kept and every other part as it was; it is refused exactly when the run opened the year, no Academic Periods are planned and that year's calendar disagrees with its revision pointer |
| `ClassroomResume.CompletedIsKept` | paper_data_suite/classroom_apply.py:862-887 | whatever such a run completed, the plan made again keeps or skips |
| `ClassroomResume.UndisturbedRunIsDone` | paper_data_suite/classroom_setup_cli.py:621-630 | a run in which nothing raises is complete with every mutation written, and planning again, unless refused for such a calendar, proposes only to keep or skip |
| `ClassroomResume.ResumedRunFinishes` | paper_data_suite/classroom_setup_cli.py:633-644 | rerunning after an interruption, unless planning again is refused so, completes and writes exactly what the first run had not written |
| `ClassroomResume.ReviewedSetupContinues` | paper_data_suite/classroom_apply.py:505-539 | from review to rerun: a reviewed plan whose preflight passes on a later state, no roster having appeared, completes there if nothing raises, and is otherwise continued or refused by planning again in the same way |
| `ClassroomResume.PointerStopsRerun` | paper_data_suite/classroom_setup.py:521-549 | a concrete plan for the year alone that is applied without a fault and after which planning again is refused |
| `ClassroomResume.UnreportedPossibleExactly` | paper_data_suite/classroom_apply.py:790-796 | a plan nothing blocks can lead to a write that no partial-success error reports, if and only if the year and every class are there already and some roster is to be created or replaced |

## Left out

- Records: timestamps with non-ASCII digits, and the padding of years before 1000, which the C library decides.
- Records: documents with nested objects or fractions are refused by the model's reader; the originals read them and then refuse their fields.
- Witness service: SQLite itself. Statements are atomic, transactions are serial, and a fault is an input that says which statement raises.
- Witness service: the row-count check after the update, and threads racing for the database lock, which serial transactions make unreachable.
- Witness client: transport, nonce generation and key parsing are inputs; `commit_independently_approved_successor` is not modelled.
- Receipts: `make_untrusted_active_receipt` and `compare_receipt_to_observed_candidate`, which are field-by-field copies and comparisons.
- Software root: stat, symlink and reparse-point checks of files, temporary files and fsync. A file is an optional byte string replaced or removed at once.
- Software root: audits of staged bytes, native evidence and the pip layout are one boolean input of each switch.
- Software root: journals are those its reader accepts; an unreadable journal counts as absent, since every procedure refuses on it.
- Software root: `evergreen_prior_switch.py` makes the same two writes as the modelled switches and adds no new order of file operations.
- Software root: a crash between taking the two locks is modelled as one after both; the operator clears them together.
- Successor proposals: building the draft. The signed head read before a proposal is stored is one boolean input of that call; what such a read means is in `CommitOutcomes`.
- Planner: per-feature impact rows, the order of rows, the origin column, and the check of the Python and platform names.
- Planner: which of several failing components is named in a refusal; refusals of one stage are not told apart.
- Planner: version order, specifiers, requirement texts and markers are given functions.
- Catalog: envelope JSON parsing and its field checks. `Contract` states what it guarantees.
- Catalog: path checks and temporary files of the cache; a save is one atomic replacement.
- Dependencies: the per-component verdicts around the closure, which are lists of independent checks.
- Bootstrap: external prerequisite rows and warnings, messages, and the import-layout check.
- Classroom: exceptions raised by a Core write are taken to mean that nothing was written, as Core's overwrite protections promise.
- Classroom: Core itself is not part of this model. What its writers refuse and leave is stated by `Guard` and `Effect`; theorems about starter packs assume that its merge settles, as merging by identifier does (`ClassroomResume.MergeByIdSettles`).
- Classroom: the preflight sees one state of Core and of the roster files; readers that raise before the first write make it refuse and are not modelled.
- Classroom: validation of identifiers and years, creation times, titles and reasons, and the count of Academic Periods.
- Command line, prompts, rendering, process launching, downloads and environment inspection.
