# Verification of the witness log and the protocols around it

A Dafny model of the tamper-evident log of `kiss-protocol` and of the components that must agree with
it, with proofs about whole runs of each. `dafny verify dfyconfig.toml` checks everything.

| files | component |
|---|---|
| `Bytes`, `Sequences` | byte strings, big-endian integers, hash collisions, sequence facts |
| `Merkle` | the tree of section 2.1 of RFC 6962 and its audit paths (section 2.1.1) |
| `Records`, `Framing`, `Store` | entries, the byte layout of `witness.log`, tree heads, append, open with crash recovery, read-only open |
| `Protocol`, `StoreSafety` | the store as a two-step commit protocol: byte-wise writes, signing, head replacement, crashes, restarts, key rotation; what holds over every run |
| `Audit`, `Export` | the mirror comparison and self-verifying exports |
| `Death`, `DeathChain` | death records: incremental writer, offline verifier, whole histories |
| `Tailer`, `TailerRuns` | line reassembly, the commit queue, any number of runs with crashes |
| `Accept` | operator approvals, their index, replay from the log |
| `Gossip`, `Enforcer` | peer liveness by heartbeats; ordered delivery through a bounded channel |
| `Scenarios`, `Instance` | runs of the store step by step, and a suite that meets every assumption |

How it is set up:

- Hash functions, AES-GCM, Ed25519, JSON and hex are function parameters, so every result holds for every
  such function. Decryption and decoding are taken to undo encryption and encoding.
- No hash is assumed injective. A binding result says "equal, or `Collision`", where `Collision` names two
  different strings out of the finite sets of strings the two computations really hashed. (An arbitrary
  collision always exists, so "or a collision exists" would say nothing.)
- Signatures: a run records every signing its keys made. The binding theorems assume of the heads a reader
  is shown, and of no other message, that a signature which verifies under a pinned key is one the run made
  (`NotForged`). Every honest read and export meets this (`HonestReadsAreNotForged`, `HonestExportIsNotForged`),
  `Scenarios.FirstRecord` gives such a run for every lawful suite, and `Instance.AssumptionsCanBeMet` gives a
  lawful suite.
- Clocks, schedules, partial reads, I/O outcomes and what a concurrent reader happens to see are inputs.

Where the code does not do what one would expect, the code is kept and the exact condition is proved:

- `Append` does not check the 64 MiB limit that `readLog` enforces: a record survives reopening exactly if
  its sealed form fits; after a larger one a log that held records is refused for good (`AppendSurvivesIffItFits`).
- A first record whose head was never written is refused; every other crash is recovered (`CrashSafety`).
- A comment of `openStore` promises that whole records which fail to decrypt are never moved. That holds exactly
  while such a record is the last whole one (`OpenMovesOnlyACrashTail`); one that a readable record follows is
  moved with it (`UnreadableFrameIsMoved`).
- A read-only open that races the very first append can fail for good although nothing is wrong: it found neither
  head nor record and then the new head (`FirstAppendFailsAReader`). `ReadersAreAnswered` gives every other case.
- Where no record is readable `Open` does not look at the head, whatever that says (`OpenIsSound`).
- An `Append` that fails to marshal uses up a sequence number; an export is accepted exactly when every entry it
  shows has the number of its place (`HonestExportAccepted`, `FullExportAcceptedIffNumbered`); `GapIsRefused` is a
  run whose full export is refused. The head of an empty export can never be a prior (`EmptyHeadIsNoPrior`).
- `recompute` indexes its path without a length check and ignores surplus elements (`RecomputeUsesExactlyDepth`).
  Of index and size a proof uses only the route they describe: a proof of another size can show a record in the
  wrong place exactly if that route ends at another leaf (`PositionBoundIffNotMisled`; `SizeMustMatch` is a case).
  On 64-bit integers the loop of `splitPoint` ends exactly for sizes up to 2^62 (`SplitLoopEndsIff`).
- The audit reads the local log before it fetches the mirror: an honest mirror is called tampered exactly
  when its head is newer than that snapshot (`HonestMirrorFailsIffAhead`). Its previous-root warning cannot
  appear, because `Store.Head` never fills that field.
- The tailer's comment promises at-least-once delivery. A start that finds no saved position begins at the end of
  the file, so a crash before the first flush can lose events that were written meanwhile
  (`CrashBeforeFirstFlushLosesEvents`) and one that was half written (`HalfLineAtRestartIsLost`). Over a whole run
  every event since the first start is stored exactly if at every later unsaved start all whole events had been
  stored and no line in progress turned out to be one (`AtLeastOnceIff`).
- An approval key is ambiguous exactly for values with an inner NUL (`KeyIsExactIffNotSplittable`).
- The enforcer also reads records that no head covers yet. A committed record is delivered exactly if the reader
  had not passed its number when its append began (`CommittedIsDeliveredIffNotPassed`). Without failed appends
  that means nothing numbered as high had been sent (`PassedIffSentInRun`); after one, the back-off to the number
  before a blocked record also passes numbers that were never sent. `ReplacedRecordIsNotDelivered` is a run of
  either kind in which a committed record is never delivered.

## Model

| member | source | states |
|---|---|---|
| Merkle.SplitPoint | internal/merkle/tree.go:59-65 | the doubling loop returns the largest power of two below n, and 0 for n at most 1 |
| Merkle.SplitLoopEndsIff | internal/merkle/tree.go:59-65 | on 64-bit integers the doubling loop ends if and only if n is at most 2^62, and for those it runs as the unbounded one does; beyond it overflows to 0 and goes on forever |
| Merkle.SplitIsLargestPow2Below | internal/merkle/tree.go:58-65 | a number is the split point if and only if it is a power of two below n and no larger power of two is |
| Merkle.RootBindsLeaves | internal/merkle/tree.go:43-56 | equally long leaf lists with equal roots are equal, or nodes hashed for the two trees collide |
| Merkle.SmallRoots | internal/merkle/tree.go:19-56 | the exact bytes hashed for leaves and for the roots of logs of up to three leaves; the root of none is 32 zero bytes |
| Merkle.RootBindsRecords | internal/merkle/tree.go:19-56 | non-empty record sequences of any lengths with equal roots are equal, or strings hashed for the two trees collide; leaf and node prefixes keep a record from posing as a subtree |
| Merkle.ProofsAreComplete | internal/merkle/proof.go:13-53 | a proof is given exactly for the indices of the tree, it verifies against the root, and a path of length p >= 1 has 2^(p-1) < n |
| Merkle.ProofsAreSound | internal/merkle/proof.go:26-69 | a verifying proof of the tree's size shows the leaf at its index, or exposes a collision between path and tree |
| Merkle.RecomputeUsesExactlyDepth | internal/merkle/proof.go:57-69 | the path index panics exactly on paths shorter than the leaf's depth, and only the last depth elements matter |
| Merkle.ProofShowsRoute | internal/merkle/proof.go:26-69 | whatever size it claims, a verifying proof for a record shows it at the end of its left/right route in the real tree, or strings hashed for proof and tree collide |
| Merkle.PositionBoundIffNotMisled | internal/merkle/proof.go:26-69 | over distinct records, proofs claiming an index and size can show another record than the one at index if and only if their route ends at another leaf, and that record if and only if it ends there, up to collisions |
| Merkle.SizeMustMatch | internal/merkle/proof.go:26-37 | a case of the above: the last leaf of every three-leaf tree verifies as leaf 1 of a two-leaf tree |
| Records.RootBindsEntries | internal/store/store.go:568-574 | equal roots of non-empty entry lists mean equal entries, or a collision among the strings hashed |
| Framing.SplitInvertsEncode | internal/store/store.go:382-383 | parsing a run of frames followed by any bytes gives those records, then whatever the bytes hold |
| Framing.EncodeInvertsSplit | internal/store/store.go:519-545 | every byte string is a run of valid frames followed by a tail at which no frame starts |
| Framing.FramesAreUnique | internal/store/store.go:519-545 | no other split into valid frames and a tail that starts none exists |
| Framing.TornHoldsNoFrame | internal/store/store.go:379-386 | no strict prefix of a frame parses as a frame |
| Framing.Scan | internal/store/store.go:506-546 | the read loop returns the readable entries, the end of each, the end of the last whole frame and the size |
| Framing.ReadLogRoundTrip | internal/store/store.go:506-546 | a log of readable records followed by a torn tail reads back exactly, each record with its true end |
| Framing.ReadLogOfKnownPrefix | internal/store/store.go:506-546 | bytes that begin with a known log read as its entries first, whatever follows |
| Framing.ReadsEveryReadable | internal/store/store.go:519-545 | every whole frame that unseals is found, in order and with its true end, whatever unreadable frames lie around it |
| Store.SigInputInjective | internal/store/store.go:731-739 | the 40 signed bytes determine size and root |
| Store.SigInputLayout | internal/store/store.go:731-739 | 40 bytes: the size, most significant byte first, then the root |
| Store.NewHeadChecks | internal/store/store.go:580-617 | a head the store wrote passes checkTreeHead for its records exactly when its signer is allowed by own key, trust list and pins |
| Store.ReadCommitted | internal/store/store.go:156-202 | the retry loop gives the verdict of the first deciding round, or the last round's reason |
| Store.RetriedIffTooEarly | internal/store/store.go:171-183 | a round is followed by another try if and only if it found records without a head or fewer records than its head covers |
| Store.JudgeRound | internal/store/store.go:163-199 | one round, step by step, is the round the readers' theorems are about |
| Store.LogStore.Open | internal/store/store.go:212-295 | a refused directory is unchanged; otherwise log, quarantine and memory are those of the theorems about OpenDecision below, and the head file is untouched |
| Store.LogStore.OpenPinned | internal/store/store.go:128-138 | the read-only store holds the leaves of the entries its head covered |
| Store.LogStore.Append | internal/store/store.go:343-391 | the whole new state for success, read-only refusal and marshal failure |
| Store.LogStore.InclusionProof | internal/store/store.go:467-492 | the proof is over the records the store holds, not those appended since |
| Store.LogStore.RootAt | internal/store/store.go:323-331 | for a log whose first size entries are es it returns the root of a log of just es, and so the root of any head that passes its check against them; it refuses exactly sizes beyond the log |
| Protocol.Recovery | internal/store/store.go:229-267 | in every state of the invariant Open succeeds exactly if the state is recoverable, and then keeps the committed entries and cuts off exactly the unfinished append |
| Protocol.LogReads | internal/store/store.go:497-546 | at every state of the invariant a reader of the log finds the committed entries, and the record being appended once its frame is whole |
| Protocol.InvHolds | internal/store/store.go:343-391 | every state of every run is the committed frames plus one frame prefix, with a chain of heads, rising numbers and justified signatures |
| Protocol.HistoryGrows | internal/store/store.go:151-155 | committed entries, records, heads and signatures are never lost or changed |
| StoreSafety.CrashSafety | internal/store/store.go:212-295 | after a crash at any byte Open succeeds exactly when recoverable, loses nothing committed, drops at most one record, old log = new log + quarantined bytes, and a second Open changes nothing |
| StoreSafety.OpenIsSound | internal/store/store.go:229-273 | on any directory, a successful Open keeps exactly entries whose size, root, MAC, signer and signature the head vouches for, dropping at most one readable record; with no readable record every head gives the same outcome |
| StoreSafety.OpenMovesOnlyACrashTail | internal/store/store.go:244-267 | on any directory, a successful Open leaves the log alone if its last whole frame does not unseal, and otherwise cuts it just behind the frame of the last entry kept and quarantines exactly the rest |
| StoreSafety.UnreadableFrameIsMoved | internal/store/store.go:252-260 | a good frame, an unreadable one and another good one under a head for the first: the unreadable one is quarantined |
| StoreSafety.ReopenRebuildsMemory | internal/store/store.go:229-290 | in every state of the invariant a restart rebuilds the tree and the next number from exactly the committed entries |
| StoreSafety.AppendSurvivesIffItFits | internal/store/store.go:382-386 | for sealed records below 4 GiB: after an append the log reopens with the new record if and only if its sealed form is at most 64 MiB; otherwise Open refuses a log that held records and opens any other as empty |
| StoreSafety.PublishedHeadsStayPrefixes | internal/store/store.go:323-331 | at every later point of a run each published head's root is the root of the first size entries, and its prevRoot is the previous head's root |
| StoreSafety.HeadAt | internal/store/store.go:580-617 | the k-th published head has size k + 1, links to the one before, and passes checks for its own prefix |
| StoreSafety.ReadersAreSafe | internal/store/store.go:151-202 | head first, then the log byte by byte while the writer appends, crashes and truncates: the first attempt succeeds and returns exactly what the head covered, with the exact, never negative, count of uncovered records and bytes |
| StoreSafety.ReadersAreAnswered | internal/store/store.go:156-202 | beside any run: rounds that find records and no head yet are tried again, the first other round decides and returns exactly what its head covers, or, with neither head nor record, the empty log to an unpinned reader and an error to a pinned one or if the first head appeared in between; if all rounds wait, the head is missing |
| Scenarios.FirstAppendFailsAReader | internal/store/store.go:171-182 | for every signer and first record a run and a read beside it that fails whatever later rounds would see |
| StoreSafety.ProofsMatchTheHead | internal/store/store.go:465-492 | a proof given beside a running writer exists exactly for covered indices and verifies against the head's root |
| StoreSafety.TamperEvidence | internal/store/store.go:156-202 | whatever the files hold, short of a forged signature, a pinned open that accepts returns the entries a pinned key signed for, all but possibly the last of them committed, or strings hashed for the two trees collide |
| StoreSafety.HonestReadsAreNotForged | internal/store/store.go:156-202 | every read beside a run whose head is pinned is accepted and shows no forged head, so it meets the premises of TamperEvidence |
| Scenarios.FirstRecord | internal/store/store.go:343-391 | for every signer and first record a run, a read and an export of it that meet every premise of TamperEvidence and AcceptedExportIsSigned |
| StoreSafety.SequenceNumbers | internal/store/store.go:350-356 | committed numbers are positive and strictly rising; without marshal failures entry m has number m + 1, one not yet committed included |
| StoreSafety.AppendIsFourSteps | internal/store/store.go:343-391 | Append's effect is the run begin, write, sign, commit of the protocol |
| Audit.HonestMirrorFailsIffAhead | cmd/witness/audit.go:104-163 | for every published head and every snapshot of a run the exact verdict and lag; the audit fails exactly if the head is longer than the snapshot, never for an earlier head |
| Audit.OtherRootIsNamed | cmd/witness/audit.go:113-150 | a root that is not that of the local records it covers is called a mismatch at equal size and a rewrite below it, whatever lag is tolerated |
| Audit.PassingAuditMeansExtension | cmd/witness/audit.go:104-163 | an audit that does not fail means the local log begins with the mirror's entries, or a collision |
| Export.ExportDir | internal/store/export.go:78-118 | the retry loop exports at the first attempt whose head and log agree |
| Export.ExportRetriedIff | internal/store/export.go:78-107 | an attempt is followed by another if and only if its head and log do not agree |
| Export.EmptyExportAccepted | internal/store/export.go:78-118 | before the first head an export is empty and accepted |
| Export.SelectedInOrder | internal/store/export.go:108-114 | the shown entries are exactly those the filter matches, each once, in log order |
| Export.AdjacentWindowsPartition | internal/store/export.go:44-60 | windows are half open: [a, b) and [b, c) share no entry and together show what [a, c) shows |
| Export.SourcesShown | internal/store/export.go:44-60 | an export for some sources shows exactly the entries of those sources, and for none named all entries |
| Export.VerifyExport | internal/store/export.go:137-188 | the check loops accept exactly the exports that satisfy all conditions at once |
| Export.HonestExportAccepted | internal/store/export.go:44-118 | an export taken at any point of a run, with any earlier pinned heads as priors, is accepted under a filter if and only if every entry shown has the number of its place or its encoding collides with the one there; always if no number is missing |
| Export.FullExportAcceptedIffNumbered | internal/store/export.go:165-172 | an unfiltered export of a run is accepted if and only if its entries are numbered without a gap |
| Scenarios.GapIsRefused | internal/store/export.go:165-172 | for every signer and record a run with one failed Append whose full export is refused |
| Export.SharedPriorBinds | internal/store/export.go:173-186 | two accepted exports sharing a prior agree on its leaves, or nodes of the two prefixes collide |
| Export.ShownEntriesAgree | internal/store/export.go:165-172 | entries shown under one number over the same leaf are the same, or their encodings collide |
| Export.AcceptedExportIsSigned | internal/store/export.go:137-218 | short of forged signatures, the leaves of an accepted export are leaves a pinned key signed for and every entry shown is the entry signed for under its number, and likewise for the part each non-empty prior covers; or nodes or two encodings collide |
| Export.HonestExportIsNotForged | internal/store/export.go:190-218 | the heads of every export of a run, and every prior it published, are no forgeries |
| Export.EmptyHeadIsNoPrior | internal/store/export.go:173-180 | no export is accepted with an empty export's head as a prior |
| Death.StreamHash | internal/death/death.go:147-174 | however reads are cut, a digest is returned only for the whole stream at the asked length, and always if undisturbed |
| Death.RangeHash | internal/death/death.go:108-145 | complete means the digest of exactly the requested range; otherwise there is no digest |
| Death.Fire | internal/death/death.go:71-100 | the record filled in field by field is the one the theorems about FireRecord are about |
| Death.SearchBack | internal/death/chain.go:138-157 | the backwards loop finds the newest loadable record, the skipped names and a deadline |
| Death.FiredRecordsLoad | internal/death/chain.go:43-213 | for every combination of failed reads, deadlines and fallbacks the record written satisfies all loading rules |
| DeathChain.FiredRecordIsTrue | internal/death/chain.go:136-213 | whatever fails, a record names its machine, size and newest loadable predecessor, and each digest is there exactly if its range could be read and stands for exactly those bytes |
| DeathChain.RecentIsNewest | internal/death/chain.go:138-157 | the search returns the newest file that loads and the names of all newer ones, or says that it saw everything or ran out of time |
| DeathChain.LoadedRecordsAreWhole | internal/death/chain.go:43-108 | what every loaded record promises: digests exactly on finished hashes, segments inside the log with a predecessor, a tail digest exactly with its hash |
| DeathChain.LinksGoBack | internal/death/chain.go:215-241 | a link that holds names an earlier file of the directory and its exact bytes |
| DeathChain.TailIsLastMebibyte | internal/death/chain.go:129-134 | the tail is the last mebibyte of the captured log, or all of it |
| Death.Verify | internal/death/verify.go:13-119 | no issue is counted exactly if every file is in order |
| Death.CheckFile | internal/death/verify.go:23-118 | one pass of the loop complains exactly if the file is not in order, and hands on the newest loadable record |
| Death.CountIssues | internal/death/verify.go:35-105 | a record draws no complaint exactly if links, segment rules and hashed ranges all hold |
| DeathChain.RecordsAreExpected | internal/death/chain.go:136-213 | in an append-only history record k links to record k - 1 and hashes exactly what that one does not cover, or everything after a machine change |
| DeathChain.WriterAndVerifierAgree | internal/death/verify.go:13-119 | for every append-only history records are segments exactly while the machine stays the same, and every file passes with and without any later log |
| DeathChain.WarningsAreExact | internal/death/chain.go:158-194 | log_shrank if and only if less is left; for a predecessor that can be compared prefix_changed if and only if the digest of its tail differs in this log, and segment mode if and only if it does not; neither otherwise |
| DeathChain.WarningsAreTrue | internal/death/chain.go:158-194 | so captured bytes that are still there are never called changed, a changed tail is always reported, and segment mode means the tail is in place, up to a collision of the two tails |
| DeathChain.ReasonsAreTrue | internal/death/chain.go:139-198 | every fallback reason a record gives is true, and only a segment gives none |
| DeathChain.VerifiedRecordsTile | internal/death/verify.go:23-118 | from the nearest anchor verified ranges follow each other from 0 to the captured length, covering every byte once |
| DeathChain.VerifiedLink | internal/death/verify.go:47-105 | range and tail of an accepted record are in the log as it says; a segment starts where its predecessor ended, on the same machine, with the chain digest over both |
| DeathChain.VerifiedLogsAgree | internal/death/verify.go:78-105 | two logs accepted against the same records agree on every captured prefix, or one digest covers two different ranges |
| DeathChain.LinkPins | internal/death/chain.go:215-241 | each verified record pins the name and the exact bytes of the one before it |
| DeathChain.RecordBindsHistory | internal/death/verify.go:23-46 | two accepted directories holding the same record agree on every file before it, or record files collide |
| DeathChain.ChainDigestBinds | internal/death/chain.go:117-127 | one chain digest stands for one anchor, segment digest and length, or its inputs collide |
| Tailer.LineReader.Refill | internal/pipelock/tailer.go:315-339 | reading and rewinding never change pos, and at the end of the file no whole line was left |
| Tailer.LineReader.Next | internal/pipelock/tailer.go:302-357 | a pass returns the next whole line and moves past it, or consumes nothing |
| Tailer.CommitQueue.Advance | internal/pipelock/tailer.go:154-162 | committed moves past the longest fully acked prefix |
| Tailer.CommitQueue.Record | internal/pipelock/tailer.go:203-213 | a recorded line waits if emitted and settles otherwise |
| Tailer.CommitQueue.Ack | internal/pipelock/tailer.go:123-142 | the oldest waiting line is acked, and the position saved when due |
| Tailer.LinesConcat | internal/pipelock/tailer.go:315-352 | splitting into lines at a line end splits the lines |
| Tailer.OpensWhere | internal/pipelock/tailer.go:243-276 | reading starts at the saved position of this very file, at 0 in one that was replaced, truncated or created meanwhile, and at the end where nothing was saved |
| Tailer.TrimTakesLineEndsOnly | internal/pipelock/tailer.go:389-394 | exactly the trailing newlines and carriage returns are taken off, and a line of nothing else is no event |
| TailerRuns.LinesAreWholeAndOnce | internal/pipelock/tailer.go:302-357 | for every schedule of writes and reads the lines processed are the newline split from the start offset to pos, each whole and once |
| TailerRuns.EverythingIsStored | internal/pipelock/tailer.go:42-45 | across any crashes, once caught up with nothing in flight every event line since the last start without saved state is stored |
| TailerRuns.AtLeastOnceIff | internal/pipelock/tailer.go:42-45 | over any run, once caught up with nothing in flight, every event line since the first start offset is stored if and only if at every later start without a saved position all whole event lines had been stored and no line then half written became an event; so always while every restart finds a saved position |
| TailerRuns.NothingEarlierIsStoredLater | internal/pipelock/tailer.go:254-263 | after a start without a saved position no line that begins before it is ever stored any more |
| TailerRuns.ProgressIsPossible | internal/pipelock/tailer.go:302-376 | until then a read or a store is enabled that lowers a non-negative measure |
| TailerRuns.FlushedStopRedeliversNothingAcked | internal/pipelock/tailer.go:144-152 | after a flush and a restart nothing that run acked is read again |
| TailerRuns.RestartReachesIff | internal/pipelock/tailer.go:251-263 | however the file grows afterwards, a restart reaches every unstored event since the epoch if and only if a position was saved, or all whole ones are stored and none is half written |
| TailerRuns.CrashBeforeFirstFlushLosesEvents | internal/pipelock/tailer.go:243-276 | a run in which an event is never stored and never read again |
| TailerRuns.HalfLineAtRestartIsLost | internal/pipelock/tailer.go:243-276 | a run in which no whole event is unstored at the restart, but a half-written one is never read whole and never stored |
| TailerRuns.QueueRefinesSpec | internal/pipelock/tailer.go:123-213 | after any records and acks committed is just before the first waiting line, and the queue holds the rest |
| Accept.KeyIsExactIffNotSplittable | internal/accept/set.go:80-102 | a key stands for one pinned value if and only if the change has no inner NUL |
| Accept.Check | internal/accept/request.go:142-176 | the check accepts exactly the well-shaped requests |
| Accept.Sign | internal/accept/request.go:99-107 | a signed request passes signature verification and differs only in signer and signature |
| Accept.PayloadCoversAll | internal/accept/request.go:90-96 | the signed payload covers the whole request but for the signature |
| Accept.JudgeAcceptsIff | internal/accept/set.go:106-131 | exactly which requests are applied, by shape, machine, signature, key, id and target, and the label they are applied under |
| Accept.ApprovalSet.Rebuild | internal/accept/set.go:138-147 | the index is exactly the keys some active approval pins |
| Accept.ApprovalSet.Apply | internal/accept/set.go:106-136 | the verdict and the new maps; a refused request changes nothing |
| Accept.ApprovalSet.Filter | internal/accept/set.go:151-160 | the uncovered changes in order, and a count that adds up |
| Accept.ReachedIsConsistent | internal/accept/set.go:106-147 | in every reachable state index and definition agree and active ids have been seen |
| Accept.RevokedStaysRevoked | internal/accept/set.go:120-133 | a used id whose approval is gone never becomes active again |
| Accept.ActiveApprovalsAreVouched | internal/accept/set.go:32-136 | every active approval of a reachable state goes back to an accept request for this machine with the same content, with a verifying signature of a key its policy lets approve, under that key's label |
| Accept.ActiveIffAcceptedAndNotRevoked | internal/accept/set.go:120-131 | an approval is active if and only if a request with its id was accepted and no later accepted request revoked it |
| Accept.RevokeShowsAgain | internal/accept/set.go:127-147 | an accepted revoke removes the approval it names, and a change stays hidden if and only if another active approval pins its key |
| Accept.HiddenIffPinned | internal/accept/set.go:149-160 | an unambiguous change is hidden if and only if an active approval pins that very value |
| Accept.UncoveredIsSubsequence | internal/accept/set.go:149-160 | filtering keeps exactly the changes not hidden, at rising positions |
| Accept.Replay | internal/accept/set.go:214-231 | the loop over the log gives the set and the skip count of the replay theorem |
| Accept.ReplayRebuildsLiveSet | internal/accept/set.go:189-231 | for any requests and any other entries in between, replay rebuilds approvals, index and seen ids with nothing skipped |
| Accept.ReplayCountsEverySkip | internal/accept/set.go:214-231 | replay of any log gives the set its readable requests lead to, and every recorded entry is applied or counted as skipped |
| Gossip.EncodePacket | internal/gossip/heartbeat.go:26-33 | the buffer filled in place is the encoded packet |
| Gossip.PacketLayout | internal/gossip/heartbeat.go:19-33 | the exact bytes of a packet: "WITS", length, payload, signature |
| Gossip.DecodeUndoesEncodeIff | internal/gossip/heartbeat.go:26-48 | decoding undoes encoding if and only if the signature has 64 bytes and the payload length fits 32 bits |
| Gossip.EncodeUndoesDecode | internal/gossip/heartbeat.go:35-48 | encoding what a packet decodes to gives that packet |
| Gossip.Node.HandlePacket | internal/gossip/heartbeat.go:269-314 | the peers after a packet are those of the run theorems |
| Gossip.Node.CheckPeers | internal/gossip/heartbeat.go:329-358 | every peer is checked once; the callbacks name exactly the peers that changed, each once |
| Gossip.RunInv | internal/gossip/heartbeat.go:289-314 | in every run, whatever the times of packets, no unknown peer enters and no status is worse than the time up to the latest check has earned |
| Gossip.OnlySignedPacketsCount | internal/gossip/heartbeat.go:269-314 | in every run a peer's number or last-seen time changes only by a packet carrying that number under a valid signature of that peer's key |
| Gossip.AcceptedIffNewFromPeer | internal/gossip/heartbeat.go:269-308 | a packet is accepted if and only if it decodes, names a known peer, verifies under its key and carries a number above 0 and all accepted from it before |
| Gossip.SeenIsLastAccepted | internal/gossip/heartbeat.go:304-314 | in every run last-seen time and number of a peer are those of its last accepted packet |
| Gossip.StatusFollowsTheClock | internal/gossip/heartbeat.go:329-343 | after each check the status is given by the time since the last accepted packet against death and missed intervals |
| Gossip.LivePeerIsNeverReported | internal/gossip/heartbeat.go:329-358 | a peer heard from less than missed intervals before every check is alive throughout and never reported |
| Gossip.StatusIsDictatedAfterEachCheck | internal/gossip/heartbeat.go:333-343 | after each check of a run every status is the one the elapsed intervals dictate, for all thresholds |
| Gossip.AcceptedNumbersIncrease | internal/gossip/heartbeat.go:304-308 | sequence numbers of accepted packets of a peer strictly increase |
| Gossip.CallbacksFireOnce | internal/gossip/heartbeat.go:335-357 | between two firings of onSilent, or of onDeath, a packet of that peer was accepted |
| Enforcer.TailReader.Poll | internal/enforcer/reader.go:111-145 | the loop sends and leaves lastSeq as the delivery theorem's walk does, for any log |
| Enforcer.WalkSends | internal/enforcer/reader.go:125-144 | a poll sends the next stretch of the log that fits, and leaves a number between the last sent and the next, never beyond the log |
| Enforcer.DeliveryIsAPrefix | internal/enforcer/reader.go:111-145 | over any polls of a growing log with any congestion, deliveries are its first entries in order, without gap or repeat, with true indices and hashes |
| Enforcer.DeliveredIffSeenInTime | internal/enforcer/reader.go:125-144 | over any polls of any logs an event is delivered if and only if the poll that took lastSeq past its number saw that entry in that place |
| Enforcer.DeliveredNumbersRise | internal/enforcer/reader.go:125-144 | over any polls of any logs delivered numbers strictly rise, so nothing is delivered twice |
| Enforcer.CommittedIsDeliveredIffNotPassed | internal/enforcer/reader.go:111-145 | for polls at any steps of any run of the store a committed record is delivered if and only if the reader had not passed its number when its append began and has passed it now (or that very event went out before); a later poll with room does pass it |
| Enforcer.CommittedWasAppended | internal/store/store.go:343-391 | every committed record of a run was appended between two such steps |
| Enforcer.PassedIffSentInRun | internal/enforcer/reader.go:130-142 | without failed appends lastSeq is the number of the event last sent |
| Scenarios.ReplacedRecordIsNotDelivered | internal/enforcer/reader.go:125-143 | runs with a crash and recovery in which a committed record is not delivered even by a poll with room for everything: its predecessor under that number was sent, or the back-off had passed it |

## Left out

- BLAKE3, SHA-256, Ed25519, AES-GCM, key derivation, JSON, hex text and timestamps: parameters or bytes; upper-case hex, which some string comparisons reject, is not told apart.
- In-process write errors after which `Append` goes on, and sequence numbers beyond 64 bits.
- SplitPoint: its integers are unbounded; above 2^62 the source's loop does not end (`SplitLoopEndsIff`).
- RecomputeUsesExactlyDepth: for a claimed size above 2^62 the source does not return, and from 2^63 on its size turns negative and every path runs out.
- AppendSurvivesIffItFits: sealed records of 4 GiB or more, whose length wraps in the 32-bit field so that their first bytes may pass for a record of another length.
- CommittedIsDeliveredIffNotPassed: a poll sees the log file as it is at one step; a read torn across several steps is modelled for the read-only open only.
- VerifyExport: states which exports are accepted, not which of several errors is reported first.
- FiredRecordsLoad: does not model the 1 MiB limit on a record file, because the size of the JSON text is not modelled.
- Death.Fire: the embedded tree head and the genesis hash, which no check reads, are not part of the record.
- Death records of format 1 beyond how they are loaded and reset a chain.
- Tailer rotation with events in flight, channel and stop races, drain deadlines, and I/O errors while reading; one file per run.
- `Set.Approvals`, the sorted listing, and replay under a policy that has changed since.
- Mirror backends, sockets, subprocesses, the command line, configuration, genesis and drift measurement.
- `internal/farm`, `internal/lifecycle`, `internal/feeds`, `internal/sbh`, `internal/pd`: case tables and counters over single events, on whose results nothing modelled here depends.
