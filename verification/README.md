# Proofs about quantum-safe-py

A Dafny model of the parts of the library that keep state, run a protocol or fix a byte format, with proofs about
every input, every run and every interleaving. `dafny verify dfyconfig.toml` checks all of it.

| part of the library | files here |
|---|---|
| streaming envelope | `StreamFormat`, `StreamTheorems`, `StreamCipher`, `StreamIO` |
| key migration with optimistic commits | `MigrationState`, `MigrationCas`, `MigrationTransition`, `MigrationStore` |
| file store: lock and compare-and-set | `FileLock`, `FileLockProofs`, `FileLockExact`, `FileLockLinear`, `FileLockCalls`, `FileLockCounterexample` |
| LMS index reservation | `Lms` |
| re-wrap run over a directory | `Envelope`, `Rewrap` |
| two-file key upgrade | `KeyFile` |
| base64url, PEM, signature formats | `Base64`, `TextLines`, `Pem`, `SignatureV1`, `SignatureV2` |
| shared byte-string facts | `Common` |

## How things are modelled

**Objects the code mutates** are classes (`Cipher`, `Reader`, `MemoryMigrationStore`, `Manager`, `LmsStateStore`,
`LmsSigner`, `Directory`, `Tree`) whose methods keep the code's loops and branches and are proved equal to a
specification function of the old state; the lemmas are then about that function. Code that only computes values is
functions.

**Concurrency** is a transition system over atomic file or store operations: any number of processes, any
interleaving, a crash possible before every step. `Manager.Transition` is the retry loop itself, with arbitrary steps
of other calls between its own, and is proved to be a run of that system.

**Cryptography** is a record of function parameters. Each theorem names what it needs of them: that decryption undoes
encryption (`Decrypts`, `Inverse`, `Matches`), that only recorded calls decrypt (`Authentic`), that only signed inputs verify
(`Ideal`). `StreamTheorems.HypothesesConsistent` shows that the stream's hypotheses can hold together. CBOR is a pair
of functions of which the second undoes the first; the 10 MB limit of the loader is explicit.

**Environment.** Random draws, clocks, input/output errors and directory listings are parameters. Errors are values of a
`Result`, `Option` or outcome datatype, one per exception the code tells apart.

## What the proofs found

Where the code does less, or other, than its comments and documentation say or suggest, the model follows the code.

- In plain-dict mode a crash between the two writes leaves `_current` behind the history. If `_current` could be read
  before, the next accepted transition does not chain; if there was none, as after a crash in the very first transition,
  any transition is accepted, and it chains only if it happens to start where the history ends. Repeating the crashed
  call brings the entries back in step. `MigrationStore.PlainHistoriesChainExactly` says of every sequence of calls and
  crashes when its history is a chain. The module's list of valid transitions leaves out PQC_PREFERRED to
  HYBRID_TRANSITION, which the table has; the model follows the table.
- The file store's compare-and-set can report success twice for the same expected value. Exactly: the effects of a run, in
  the order in which they take place, are those of a plain register if and only if no compare-and-set renames over a
  value other than the one it compared (`FileLockExact.LinearizableExactly`). Only compare-and-set depends on the lock's
  timing; without one, every run is linearizable with no hypothesis (`FileLockExact.LinearizableWithoutCas`). It goes
  wrong, for example, when a breaker moves another lock than the one whose age it checked and then puts it back
  (`FileLockCounterexample.TwoWinnersWithoutIt`). The module's text names a window of microseconds for a frozen holder;
  there no holder's lock ever goes stale.
- A crash between reservation and signature ends an LMS key, while the module says that it costs one unused index. More
  exactly, a crash at any point leaves a key that can sign again if and only if another live signer holds the
  reservation, or capacity is left and another live signer or a saved copy is at the mark (`Lms.CrashCost`). The module
  says an index at or below the mark is refused; the code refuses one below it, and the model follows the code.
- A failed rollback of the key upgrade (two failing operations) leaves the new secret key in place and the old one only
  in its hidden backup. A failing removal of a backup after both renames makes the call raise although both outputs are
  new, and a backup remains, perhaps the old secret key's (`KeyFile.OneFaultLeavesBackupsAtMost`).
- A re-wrapped envelope over 10 MB is written and then no longer recognised as one (`Rewrap.VerifiedRun`), and an
  in-place run without the new secret key repeats its work exactly as long as the old key opens the result
  (`Rewrap.InPlaceWithoutNewSecret`). A key whose payload is over 10 MB prints as PEM that does not load
  (`Pem.ReadUndoesPrint`).
- v2 `sign` accepts an empty message and v2 `verify` refuses it (`SignatureV2.SignThenVerify`).

## Model

| member | source | states |
|---|---|---|
| `StreamFormat.BuildAadInjective` | src/quantum_safe/protocols/stream.py:207-209 | the chunk AAD determines header and caller AAD |
| `StreamFormat.NonceInjective` | src/quantum_safe/protocols/stream.py:228-230 | the nonce determines counter and last flag, over the whole u32 range |
| `StreamFormat.NonceLayout` | src/quantum_safe/protocols/stream.py:228-230 | the nonce is the prefix, the counter with its highest byte first, and the flag |
| `StreamFormat.AadLayout` | src/quantum_safe/protocols/stream.py:207-209 | the chunk AAD is the header and the caller's AAD, each behind its length |
| `StreamFormat.SuitesAreShort` | src/quantum_safe/protocols/stream.py:68-84 | every suite the stream takes has a name of at most 18 characters and a KEM ciphertext of at most 14520 bytes |
| `StreamFormat.SuitesExactly` | src/quantum_safe/protocols/stream.py:68-84 | the stream takes ML-KEM-1024, X-Wing and every pair of a classical and a post-quantum KEM of the registry, with these ciphertext lengths |
| `StreamTheorems.ChunksJoinToData` | src/quantum_safe/protocols/stream.py:469-487 | the chunks are the plaintext: nothing lost, added or reordered |
| `StreamTheorems.ChunkSizes` | src/quantum_safe/protocols/stream.py:437-440 | every chunk but the last is exactly the chunk size; the last is empty only for empty input |
| `StreamTheorems.ChunkCount` | src/quantum_safe/protocols/stream.py:469-487 | there are max(1, ceil(N / chunk size)) chunks |
| `StreamTheorems.SealsExactlyWhenItFits` | src/quantum_safe/protocols/stream.py:232-244 | sealing completes if and only if the chunk count fits the u32 counter; otherwise it raises that there are too many chunks |
| `StreamTheorems.EmittedCalls` | src/quantum_safe/protocols/stream.py:318-329 | AEAD call i seals chunk i under counter i, and only the last call has the last flag |
| `StreamTheorems.HeaderFits` | src/quantum_safe/protocols/stream.py:279-289 | every header a sealer makes is within the opener's 64 KiB limit, so the sealer need not check it |
| `StreamTheorems.RoundTrip` | src/quantum_safe/protocols/stream.py:601-634 | the sealed wire opens to exactly the plaintext, for every suite, chunk size and plaintext whose chunk count fits the counter |
| `StreamTheorems.SealedIsAStream` | src/quantum_safe/protocols/stream.py:467-487 | a sealed plaintext is a stream in the sense of the integrity theorem: its chunks under counters 0, 1, 2, ..., ended |
| `StreamTheorems.AcceptedChunkIsInPlace` | src/quantum_safe/protocols/stream.py:384-399 | with an ideal AEAD, a frame that opens under any key is the chunk of the stream with that header at the opener's counter, with the right last flag |
| `StreamTheorems.FramesIntegrity` | src/quantum_safe/protocols/stream.py:616-634 | frames that open to the end are byte for byte the frames of an ended stream; otherwise what was yielded is a prefix of its chunks |
| `StreamTheorems.NothingOpensElsewhere` | src/quantum_safe/protocols/stream.py:335-358 | with another header or AAD not a single frame opens |
| `StreamTheorems.Integrity` | src/quantum_safe/protocols/stream.py:572-574 | whatever bytes arrive, with streams to any recipients in use, abandoned or stopped at the counter limit ones too: opening completes only on an ended stream under its own AAD and yields its chunks; a failing run yields a prefix of one stream's chunks |
| `StreamTheorems.TamperingFails` | src/quantum_safe/protocols/stream.py:572-574 | every wire that is not an ended stream raises: truncated, extended, reordered, duplicated or edited |
| `StreamTheorems.EveryTruncationIsNoticed` | src/quantum_safe/protocols/stream.py:601-634 | the exact outcome of cutting a sealed stream anywhere: which error, and which chunks were yielded before it; no cut passes for the end |
| `StreamTheorems.HeaderIsStrict` | src/quantum_safe/protocols/stream.py:147-174 | a header is taken if and only if it is the map a sealer writes, with the version as an integer or a float, a supported suite, a 7-byte prefix and a chunk size in range |
| `StreamTheorems.ConstructorFailsHow` | src/quantum_safe/protocols/stream.py:335-358 | which error the opener's constructor raises, in the code's order, and what it is fixed to otherwise |
| `StreamTheorems.OpeningNeedsTheKey` | src/quantum_safe/protocols/stream.py:335-358 | nothing is yielded unless the wire begins with a well-formed header for the recipient's algorithm whose KEM ciphertext decapsulates |
| `StreamTheorems.KeyIsBoundToTheHeader` | src/quantum_safe/protocols/stream.py:193-204 | if the derivation is injective, another header or shared secret means another key, on both sides |
| `StreamCipher.Cipher.Seal` | src/quantum_safe/protocols/stream.py:318-329 | refines one sealing step: which errors, which nonce, which new state |
| `StreamCipher.Cipher.Open` | src/quantum_safe/protocols/stream.py:384-399 | refines one opening step; every failure finishes the object |
| `StreamCipher.NoncesNeverRepeat` | src/quantum_safe/protocols/stream.py:212-217 | in every sequence of calls, legal or not, all nonces used are pairwise distinct |
| `StreamCipher.FinishedIsFinal` | src/quantum_safe/protocols/stream.py:318-319 | a finished object refuses every later call and uses no nonce |
| `StreamCipher.FailureIsPermanent` | src/quantum_safe/protocols/stream.py:384-399 | a failed open, or a seal out of counters, ends the stream for good |
| `StreamCipher.SealsExactlyWhatCanBeOpened` | src/quantum_safe/protocols/stream.py:318-329 | a chunk is sealed if and only if an opener at the same place would take its length and the counter has room; a wrong length costs no nonce |
| `StreamCipher.OpenFailsHow` | src/quantum_safe/protocols/stream.py:384-399 | which chunks an opener takes, and the error and the state of every refusal |
| `StreamCipher.SealerTakesExactly` | src/quantum_safe/protocols/stream.py:318-329 | which sequences of chunks a sealer takes: all full but the last, only that one marked, and as many as the counter counts |
| `StreamCipher.SealingIsARun` | src/quantum_safe/protocols/stream.py:228-244 | sealing them uses the nonce of each chunk's own number, one per chunk |
| `StreamCipher.SealedChunkOpens` | src/quantum_safe/protocols/stream.py:318-399 | what a sealer makes, an opener in the same state opens, and both are in the same state again |
| `StreamCipher.OpenerFollowsSealer` | src/quantum_safe/protocols/stream.py:292-399 | so any sequence of chunks a sealer takes is opened, in order |
| `StreamIO.ContentIsDelivered` | src/quantum_safe/protocols/stream.py:407-422 | what is read of a source is what it delivers: all items, or a file's blocks up to the first empty one |
| `StreamIO.FileIsReadWhole` | src/quantum_safe/protocols/stream.py:414-419 | a file read in blocks, none empty before its end, is read whole |
| `StreamIO.SealPiece` | src/quantum_safe/protocols/stream.py:471-485 | after any input piece the frames emitted and the carry-over continue the one right sealing of the joined input |
| `StreamIO.SealStream` | src/quantum_safe/protocols/stream.py:467-487 | output depends only on the bytes the source delivers; the carry-over never exceeds a chunk; which argument errors are raised |
| `StreamIO.Reader.Fill` | src/quantum_safe/protocols/stream.py:503-513 | buffers at least n bytes or all there are; the byte queue is unchanged |
| `StreamIO.Reader.Gather` | src/quantum_safe/protocols/stream.py:539-550 | joining across views removes exactly the first n bytes of the queue |
| `StreamIO.Reader.TakeView` | src/quantum_safe/protocols/stream.py:522-550 | returns and removes the first n buffered bytes, in both branches; size and non-empty views are kept |
| `StreamIO.Reader.PeekU32` | src/quantum_safe/protocols/stream.py:552-562 | the next four bytes as a number, whatever views they are spread over |
| `StreamIO.OpenNext` | src/quantum_safe/protocols/stream.py:616-632 | one frame with one byte of lookahead is one step on the flat wire; "last" is right |
| `StreamIO.OpenAllFrames` | src/quantum_safe/protocols/stream.py:616-634 | the frame loop yields what the flat parser yields |
| `StreamIO.ReadHeader` | src/quantum_safe/protocols/stream.py:601-614 | magic, length and header are read off the queue, with the flat parser's errors |
| `StreamIO.OpenStream` | src/quantum_safe/protocols/stream.py:601-634 | the result depends only on the bytes the source delivers, never on how it cut them |
| `StreamIO.SealThenOpen` | src/quantum_safe/protocols/stream.py:425-634 | what a source delivers, sealed, delivered again by any other source, opens to exactly the same bytes |
| `StreamIO.SealThenOpenFile` | src/quantum_safe/protocols/stream.py:407-634 | the same from file to file, through the blocks that are read |
| `MigrationState.StateGraphIsAPath` | src/quantum_safe/migrate/state.py:49-60 | the allowed transitions are exactly the single steps on a line of four states whose end is terminal |
| `MigrationState.ValidExactlyWhen` | src/quantum_safe/migrate/state.py:297-316 | a request passes the checks if and only if it is a step up, or a step down that is authorised and has a reason; which error otherwise |
| `MigrationState.StoredHistoryMeans` | src/quantum_safe/migrate/state.py:426-533 | a history is refused for writing if and only if it is there and is over the limit or no list; a reader then sees none |
| `MigrationState.ReadersGetTheLastRecord` | src/quantum_safe/migrate/state.py:406-455 | the current record is the last of the history if that parses, else the one in `_current`, and its state is the one a call checks |
| `MigrationState.PqcOnlyEndsAChain` | src/quantum_safe/migrate/state.py:53-59 | in a chain nothing follows a record that reaches PQC_ONLY |
| `MigrationState.ReturnIsEven` | src/quantum_safe/migrate/state.py:49-60 | between two visits of a state lies an even number of transitions |
| `MigrationCas.NoAba` | src/quantum_safe/migrate/state.py:396-396 | two lengths of a history never have the same bytes, so comparing bytes admits no ABA |
| `MigrationCas.CheckIsExact` | src/quantum_safe/migrate/state.py:406-414 | once a record exists, a check that passes saw exactly `from_state` at the end of what it read |
| `MigrationCas.ReachableInv` | src/quantum_safe/migrate/state.py:383-404 | the invariant of store, history and every call holds in every reachable state, with crashes anywhere |
| `MigrationCas.HistoriesAreChains` | src/quantum_safe/migrate/state.py:383-399 | every reachable history is the old one plus a chain of table transitions, none after PQC_ONLY |
| `MigrationCas.LogOnlyGrows` | src/quantum_safe/migrate/state.py:396-396 | histories only grow by appending |
| `MigrationCas.OneRecordPerReturn` | src/quantum_safe/migrate/state.py:396-404 | a call that returned appended exactly its own record; one that raised appended none |
| `MigrationCas.GivingUpTakesThirtyEight` | src/quantum_safe/migrate/state.py:383-404 | giving up takes at least 38 commits by other calls since the first read, 39 if that read found a record |
| `MigrationCas.UnreadableIsKept` | src/quantum_safe/migrate/state.py:510-533 | from any point of any run: a stored history that is over the limit or no list stays byte for byte, and nothing is committed |
| `MigrationCas.EveryRecordWasAskedFor` | src/quantum_safe/migrate/state.py:297-399 | over every run each committed record is its caller's own request, a step up or an authorised step down with its reason |
| `MigrationCas.NoTwentyFirstAttempt` | src/quantum_safe/migrate/state.py:383-404 | no call makes more than twenty attempts |
| `MigrationCas.LostAttemptGoesOnOrGivesUp` | src/quantum_safe/migrate/state.py:396-404 | a lost compare-and-set leaves the store alone; the call reads again, or gives up after the twentieth attempt |
| `MigrationCas.UndisturbedTransition` | src/quantum_safe/migrate/state.py:297-404 | an undisturbed call, in terms of the stored bytes: when exactly it commits, what both entries then hold, and which error it raises otherwise |
| `MigrationCas.CurrentFollowsHistory` | src/quantum_safe/migrate/state.py:442-455 | `_current` is the older entry or a committed record; readers get the last committed record |
| `MigrationTransition.Manager.Attempt` | src/quantum_safe/migrate/state.py:384-399 | one pass of the loop, with other calls between its steps, ends where the protocol says |
| `MigrationTransition.Manager.Transition` | src/quantum_safe/migrate/state.py:297-404 | the retry loop under any interference is a run of the protocol, and its result is the protocol's |
| `MigrationTransition.Manager.TransitionFromFresh` | src/quantum_safe/migrate/state.py:383-404 | so the loop returns with exactly its own record appended, which is what was asked for, or raises with none, on a chained history; an unreadable history is refused and kept |
| `MigrationStore.MemoryMigrationStore.CompareAndSet` | src/quantum_safe/migrate/state.py:168-178 | writes if and only if the current value is the expected one; every other entry is untouched |
| `MigrationStore.MemoryMigrationStore.TransitionPlain` | src/quantum_safe/migrate/state.py:297-345 | the plain-dict path, with an optional crash between its writes; other keys keep both entries |
| `MigrationStore.PlainCallExactly` | src/quantum_safe/migrate/state.py:322-345 | in terms of the stored bytes: when exactly a plain-dict call is taken, what both entries then hold, and which error otherwise |
| `MigrationStore.UnreadableIsKept` | src/quantum_safe/migrate/state.py:510-533 | no sequence of plain-dict calls overwrites a history that is over the limit or no list |
| `MigrationStore.EveryRecordWasAskedFor` | src/quantum_safe/migrate/state.py:297-343 | every record a run appends was asked for and allowed, its reason included |
| `MigrationStore.AcceptedAndChained` | src/quantum_safe/migrate/state.py:325-343 | in plain-dict mode a call is accepted if and only if it is valid, the history reads and `_current`, if it reads, shows `from_state`; the record is then appended, otherwise nothing changes |
| `MigrationStore.PlainChainsExactlyWhenInSync` | src/quantum_safe/migrate/state.py:325-343 | for every store: all calls it accepts chain if and only if there is no record yet, or `_current` reads and shows the history's end (or the terminal state) |
| `MigrationStore.CompletedCallSyncs` | src/quantum_safe/migrate/state.py:340-343 | a call that completes leaves both entries in step, so the next accepted call chains |
| `MigrationStore.CrashBreaksTheChain` | src/quantum_safe/migrate/state.py:337-343 | after a crash between the writes the call can be repeated, and the next accepted call chains if and only if no `_current` could be read before and it starts where the history ends |
| `MigrationStore.PlainHistoriesChainExactly` | src/quantum_safe/migrate/state.py:318-345 | for every sequence of plain-dict calls with crashes, from any store: when exactly the history is still a chain |
| `MigrationStore.PlainHistoriesChainFromInStep` | src/quantum_safe/migrate/state.py:318-345 | from a store whose `_current` shows the end of its history, with readable records, the history is a chain if and only if no record left by a crash has a successor |
| `MigrationStore.PlainHistoriesChainFromEmpty` | src/quantum_safe/migrate/state.py:318-345 | from an empty store, where every key starts, with readable records and no crash, the history is a chain |
| `FileLockProofs.AlwaysCompleteValues` | src/quantum_safe/migrate/file_store.py:190-218 | with no assumption: the file is absent, as it was, or one complete value passed to a write; an operation that raised changed nothing |
| `FileLockExact.LinearizableExactly` | src/quantum_safe/migrate/file_store.py:183-209 | any number of processes, crashes and errors anywhere, no hypothesis on time: the run is linearized by its effects, in their order, if and only if no compare-and-set renames over a value other than the one it compared; otherwise not even the results fit |
| `FileLockExact.LinearizableWithoutCas` | src/quantum_safe/migrate/file_store.py:108-134 | get, set and delete need no hypothesis on time: where no process runs a compare-and-set every run is linearized |
| `FileLockExact.AlwaysExplained` | src/quantum_safe/migrate/file_store.py:157-225 | in every run each effect is one process's operation as invoked, none has two, and each caller gets its effect's result |
| `FileLockExact.EffectsRespectRealTime` | src/quantum_safe/migrate/file_store.py:157-186 | an operation that returned before another started takes effect first |
| `FileLockLinear.OneHolder` | src/quantum_safe/migrate/file_store.py:229-292 | in every run under the timing hypotheses, crashes anywhere, two processes never hold the lock at once |
| `FileLockLinear.TimelyHasNoStaleCommit` | src/quantum_safe/migrate/file_store.py:180-209 | under the timing hypotheses what a compare-and-set compared is still there when it renames |
| `FileLockLinear.Linearizable` | src/quantum_safe/migrate/file_store.py:108-186 | so under the timing hypotheses get, set, delete and compare-and-set act like single steps on one register, and an operation finds its lock lost only if a file operation of its own failed |
| `FileLockCalls.EveryLockIsHeld` | src/quantum_safe/migrate/file_store.py:229-292 | in every timely run a lock that is there is held by its maker, unless that died or a file operation of its own failed; a call that returned left none |
| `FileLockCalls.AloneItCompletes` | src/quantum_safe/migrate/file_store.py:108-292 | a call that runs alone, with no lock or a stale one there, ends with the register's result and value and leaves no lock |
| `FileLockCalls.WaitingEnds` | src/quantum_safe/migrate/file_store.py:246-264 | so does a call anywhere in its waiting, once nothing live is in its way |
| `FileLockCalls.ErrorInTheBodyEnds` | src/quantum_safe/migrate/file_store.py:266-292 | an error while the lock is held is raised, or counts as a lost lock at its check; the lock is released and nothing has changed |
| `FileLockCalls.ErrorBeforeTheBodyEnds` | src/quantum_safe/migrate/file_store.py:246-259 | an error while the lock is made is raised with no lock left |
| `FileLockCalls.SuppressedErrors` | src/quantum_safe/migrate/file_store.py:286-326 | an error of a breaker means trying again; one in the release keeps the result and the lock |
| `FileLockCalls.LostMakerClearsThePath` | src/quantum_safe/migrate/file_store.py:246-264 | a call whose new lock is gone before its owner file is written clears the path, whosever lock is there, and tries again |
| `FileLockCalls.GivingUpEnds` | src/quantum_safe/migrate/file_store.py:260-261 | a call that gives up raises the timeout and leaves the lock in its way |
| `FileLockCalls.HeartbeatKeepsTheLock` | src/quantum_safe/migrate/file_store.py:268-274 | a heartbeat makes the lock fresh, so the next waiter does not break it |
| `FileLockCalls.GetReadsWithoutTheLock` | src/quantum_safe/migrate/file_store.py:108-120 | a get returns the value whatever lock is there, and leaves it |
| `FileLockCalls.LostLockIsNoticed` | src/quantum_safe/migrate/file_store.py:266-276 | with no assumption: a writer whose lock is another's at its check never takes effect and raises, or dies |
| `FileLockCalls.ForeignLockIsLeft` | src/quantum_safe/migrate/file_store.py:286-292 | a call that leaves without owning the lock never touches it |
| `FileLockCalls.ReownedLockIsLeft` | src/quantum_safe/migrate/file_store.py:289-292 | a lock directory that holds an owner file again when it is to be removed stays |
| `FileLockCalls.MovedLockGoesBack` | src/quantum_safe/migrate/file_store.py:309-325 | a lock found live after it was moved is put back unless an owned one is in its place; a stale one is dropped |
| `FileLockCounterexample.TwoWinnersWithoutIt` | src/quantum_safe/migrate/file_store.py:299-326 | with fresh locks but a breaker that moves another lock than it checked, a run has a stale commit: two compare-and-sets of the same absent file both succeed, which no order explains |
| `FileLockCounterexample.NothingExplainsBoth` | src/quantum_safe/migrate/file_store.py:157-186 | no sequential order without a delete lets two compare-and-sets expect an absent file and succeed |
| `Lms.LmsStateStore.Reserve` | src/quantum_safe/signatures/stateful.py:176-188 | the mark moves if and only if the new one is above it; other keys are untouched |
| `Lms.LmsSigner.Load` | src/quantum_safe/signatures/stateful.py:271-306 | a key loads if and only if its index is not below the mark |
| `Lms.LmsSigner.Sign` | src/quantum_safe/signatures/stateful.py:330-362 | exhausted, rewound or signed with index q, the mark then just above q; a refused call changes nothing |
| `Lms.SaveAndLoad` | src/quantum_safe/signatures/stateful.py:271-328 | a saved signer loads at its own index if and only if the mark has not passed it |
| `Lms.UndisturbedSign` | src/quantum_safe/signatures/stateful.py:339-362 | one undisturbed `sign` is the protocol's three steps with the same result |
| `Lms.NoIndexIsReused` | src/quantum_safe/signatures/stateful.py:295-362 | over every run of load, save, sign, crash and restore by any number of signers no index signs twice |
| `Lms.EveryIndexIsAccountedFor` | src/quantum_safe/signatures/stateful.py:149-188 | used + lost + in flight equals the mark, which never passes the capacity; the used indices are 0, 1, 2, ... in order |
| `Lms.LostIndexEndsTheKey` | src/quantum_safe/signatures/stateful.py:295-306 | once an index is lost no signature is ever made again and every snapshot is below the mark |
| `Lms.CrashAfterReserveEndsTheKey` | src/quantum_safe/signatures/stateful.py:348-362 | after a crash between reserve and sign every load of any snapshot is refused, for good |
| `Lms.SignsAgainExactlyWhen` | src/quantum_safe/signatures/stateful.py:295-362 | in every reachable state another signature can be made if and only if someone holds a reservation, or capacity is left and a live signer or a saved copy is at the mark |
| `Lms.CrashCost` | src/quantum_safe/signatures/stateful.py:295-362 | a crash at any point leaves a usable key if and only if that is so of the other signers and the saved copies; after a reservation it never is |
| `Lms.SaveThenLoad` | src/quantum_safe/signatures/stateful.py:271-328 | saving, crashing and loading gives back a signer at the same index, or a refusal if the mark has passed it |
| `Lms.SavedInTime` | src/quantum_safe/signatures/stateful.py:271-362 | a copy saved before a crash saves the key if and only if it could sign before and the signer was not past its reservation |
| `Lms.FailedReservationCostsNothing` | src/quantum_safe/signatures/stateful.py:350-360 | a reservation that fails unrecorded, or that another signer overtook, leaves the key as it was |
| `Lms.FailureAfterTheMarkEndsTheKey` | src/quantum_safe/signatures/stateful.py:348-362 | a reservation recorded although it failed, or a signature that fails after it, loses the index and with it the key |
| `KeyFile.Directory.Prepare` | src/quantum_safe/migrate/keyfile.py:416-427 | temporaries and backups: where one fails the directory is the old one, the hidden files listed for removal, and at most one that could not be removed |
| `KeyFile.Directory.PlaceFiles` | src/quantum_safe/migrate/keyfile.py:428-432 | the two renames, and exactly what is placed when the second fails |
| `KeyFile.Directory.Rollback` | src/quantum_safe/migrate/keyfile.py:433-440 | the undo loop equals its specification, stopping at the first operation that fails |
| `KeyFile.Directory.Undo` | src/quantum_safe/migrate/keyfile.py:433-441 | the error branch leaves the old files, or, if an undo fails, the new secret key with the old one in its backup, beside the files still to be removed |
| `KeyFile.Directory.RemoveAll` | src/quantum_safe/migrate/keyfile.py:442-444 | the clean-up removes the files before the first whose removal fails, and raises if there is one |
| `KeyFile.Directory.WriteBoth` | src/quantum_safe/migrate/keyfile.py:416-444 | for every set of failing operations, removals included: both outputs new, or the old directory, or, if an undo fails too, the new secret key with the old one in its backup; and exactly which hidden files remain beside it |
| `KeyFile.Directory.UpgradeKeyFile` | src/quantum_safe/migrate/keyfile.py:382-444 | all or nothing for the whole call; no file but the outputs is ever changed, and without `force` no existing file is; it succeeds only for arguments that may be upgraded, and then always if nothing fails; a success leaves nothing but the new pair |
| `KeyFile.RefusedExactlyWhen` | src/quantum_safe/migrate/keyfile.py:382-399 | the checks let through exactly three different paths, absent outputs or `force`, existing directories and an input that converts; what each error means |
| `KeyFile.OtherFilesStay` | src/quantum_safe/migrate/keyfile.py:416-444 | for every set of failing operations every file but the outputs is kept |
| `KeyFile.BothPlaced` | src/quantum_safe/migrate/keyfile.py:428-444 | with both renames done, dropping the backups leaves exactly the new pair |
| `KeyFile.FirstPlaced` | src/quantum_safe/migrate/keyfile.py:433-444 | with one rename done, the undo leaves the old files if it works, and keeps the old key's backup if it fails |
| `KeyFile.OneFaultIsUndone` | src/quantum_safe/migrate/keyfile.py:433-444 | a single failing operation of any kind never defeats the rollback; it takes the second rename and the undo to fail in one run |
| `KeyFile.OneFaultLeavesBackupsAtMost` | src/quantum_safe/migrate/keyfile.py:442-444 | a single failing operation leaves a hidden file if and only if it is the removal of a backup after both renames; then both outputs are new and the call raises |
| `KeyFile.NothingRemainsIfRemovalsWork` | src/quantum_safe/migrate/keyfile.py:442-444 | when every removal works no hidden file remains, whatever else fails |
| `KeyFile.LeftoverIsHidden` | src/quantum_safe/migrate/keyfile.py:299-333 | what remains is among this run's two temporaries and two backups |
| `Envelope.BuildAadInjective` | src/quantum_safe/protocols/envelope.py:508-520 | the authenticated bytes determine version, algorithm and caller AAD |
| `Envelope.SealsExactlyWhen` | src/quantum_safe/protocols/envelope.py:268-320 | sealing works if and only if the algorithm has a version and its name fits, given the KEM and the random source; the version that is written |
| `Envelope.OpensOnlyWhen` | src/quantum_safe/protocols/envelope.py:382-404 | only the expected AAD, the algorithm's own version and the right ciphertext length open |
| `Envelope.OpenedWasSealed` | src/quantum_safe/protocols/envelope.py:432-442 | with an ideal AEAD what opens was sealed with this version, algorithm, AAD, nonce and ciphertext |
| `Envelope.SealThenOpen` | src/quantum_safe/protocols/envelope.py:384-442 | a sealed message opens under the matching key to its plaintext |
| `Envelope.RewrapPreserves` | src/quantum_safe/protocols/envelope.py:488-492 | moving a message keeps plaintext and AAD and changes the algorithm |
| `Envelope.EncodeThenParse` | src/quantum_safe/migrate/rewrap.py:209-221 | a written message parses back in its own encoding if and only if it is within 10 MB |
| `Rewrap.Tree.RewrapFile` | src/quantum_safe/migrate/rewrap.py:320-380 | one pass of the loop: its item and the one file it may write |
| `Rewrap.Tree.MoveFile` | src/quantum_safe/migrate/rewrap.py:360-380 | re-wrap, check and write: nothing is written unless the check passed and the run is not dry |
| `Rewrap.Tree.RewrapDirectory` | src/quantum_safe/migrate/rewrap.py:284-382 | the whole run handles every file as if alone on the original directory; which argument errors are raised |
| `Rewrap.NonDestructive` | src/quantum_safe/migrate/rewrap.py:344-358 | with a separate destination no existing file is overwritten or removed |
| `Rewrap.WrittenIsMoved` | src/quantum_safe/migrate/rewrap.py:360-376 | a written file is the source's message moved, same encoding, and same AAD, which is the one the operator asks for; with `new_secret` the code's own check makes it open to the same plaintext |
| `Rewrap.VerifiedRun` | src/quantum_safe/migrate/rewrap.py:18-20 | after a run with `new_secret` every written file opens under it to its source's plaintext; it reads back if and only if it is within 10 MB |
| `Rewrap.WhatDidNotFailIsMigrated` | src/quantum_safe/migrate/rewrap.py:10-20 | after a run with `new_secret`, the target of every envelope that did not fail opens under it with the AAD asked for, whether it was written now or found migrated |
| `Rewrap.RewrappedExactlyWhen` | src/quantum_safe/migrate/rewrap.py:320-376 | when exactly a file comes out rewrapped, and as which bytes |
| `Rewrap.GoodEnvelopesAreRewrapped` | src/quantum_safe/migrate/rewrap.py:320-376 | in a live run without errors every envelope with the right AAD that opens is rewrapped, whatever its encoding |
| `Rewrap.WrongAadIsNotWritten` | src/quantum_safe/migrate/rewrap.py:311-381 | an envelope whose AAD is not the one asked for is never written and its item says failed, unless a migrated copy is there |
| `Rewrap.MigratedExactlyWhen` | src/quantum_safe/migrate/rewrap.py:333-358 | when exactly a file counts as migrated, in place and with a separate destination |
| `Rewrap.SkippedExactlyWhen` | src/quantum_safe/migrate/rewrap.py:320-327 | a file is skipped if and only if it can be read and is no envelope |
| `Rewrap.TemporariesAreLeft` | src/quantum_safe/migrate/rewrap.py:316-319 | which names are temporaries, and that a run leaves them alone |
| `Rewrap.AcceptedExactlyWhen` | src/quantum_safe/migrate/rewrap.py:284-304 | which sources and destinations a run accepts |
| `Rewrap.ReportIsTrue` | src/quantum_safe/migrate/rewrap.py:320-380 | an item says `rewrapped` if and only if its file was written; any other file's target is as it was; `verified` is right |
| `Rewrap.ItemTellsWhy` | src/quantum_safe/migrate/rewrap.py:320-381 | what an item says beside its status: the algorithms it was moved between, and the reason it failed or was skipped |
| `Rewrap.MismatchExactlyWhen` | src/quantum_safe/migrate/rewrap.py:362-371 | a copy is a mismatch if and only if both messages open and their plaintexts hash differently |
| `Rewrap.ReportListsTheFiles` | src/quantum_safe/migrate/rewrap.py:316-321 | the report has exactly the items of the listed files that are no temporaries, in order |
| `Rewrap.DryRunWritesNothing` | src/quantum_safe/migrate/rewrap.py:372-374 | a dry run changes no file |
| `Rewrap.DryRunPredicts` | src/quantum_safe/migrate/rewrap.py:372-376 | a dry run says `would_rewrap` of exactly the files a real run writes, unless the write fails |
| `Rewrap.SettledStays` | src/quantum_safe/migrate/rewrap.py:324-358 | a file that was skipped, found migrated or only dry-run stays unwritten in every later run of those arguments |
| `Rewrap.WrittenOnce` | src/quantum_safe/migrate/rewrap.py:333-358 | a file just written is not written again |
| `Rewrap.SecondRunWritesOnlyFailures` | src/quantum_safe/migrate/rewrap.py:15-17 | a second run writes only where the first one failed |
| `Rewrap.SecondRunChangesNothing` | src/quantum_safe/migrate/rewrap.py:15-17 | after a run without input/output errors a second run changes no file at all |
| `Rewrap.ListingStays` | src/quantum_safe/migrate/rewrap.py:316-317 | a run leaves the source listing as it was when neither directory lies inside the other |
| `Rewrap.InPlaceWithoutNewSecret` | src/quantum_safe/migrate/rewrap.py:335-360 | in place without `new_secret` a written file is written again if and only if it reads back and the old key still opens it |
| `Rewrap.InPlaceByTheKeys` | src/quantum_safe/migrate/rewrap.py:335-360 | so with one key on both sides every loadable file is written again by each run, and with a retired old key none is |
| `Rewrap.TwoWritesAgree` | src/quantum_safe/migrate/rewrap.py:360-375 | two writes of one source, with different randomness, hold the same plaintext, AAD, algorithm and encoding |
| `Rewrap.ResumeFile` | src/quantum_safe/migrate/rewrap.py:320-380 | stopped or not before it, a file ends with the same content |
| `Rewrap.Resume` | src/quantum_safe/migrate/rewrap.py:15-17 | a run stopped after any prefix and then run in full reaches, path by path, the same messages as one uninterrupted run |
| `Rewrap.CountItems` | src/quantum_safe/migrate/rewrap.py:88-104 | each count is the number of items of its statuses, and together they cover every item once |
| `Rewrap.CountsAreOfItems` | src/quantum_safe/migrate/rewrap.py:88-104 | a count is the number of items with its status |
| `Rewrap.OkMeansNoFailure` | src/quantum_safe/migrate/rewrap.py:106-111 | a run's report is ok if and only if no item failed |
| `Base64.RoundTrip` | src/quantum_safe/types/keys.py:287-287 | decoding undoes encoding for data of any length, through the lenient scan |
| `Base64.DigitsAreTheTable` | src/quantum_safe/types/keys.py:287-287 | the digits are table 1 of RFC 4648 in order, and a digit is read as its place there |
| `Base64.DigitsSpellTheNumber` | src/quantum_safe/types/keys.py:287-287 | four digits are the 24-bit number of their bytes, high digit first |
| `Base64.BreaksDoNotMatter` | src/quantum_safe/types/keys.py:449-449 | a character outside the alphabet is passed over anywhere; one outside ASCII is an error |
| `Base64.UnpaddedTextDecodesExactlyWhen` | src/quantum_safe/types/keys.py:449-449 | text of digits alone is decoded if and only if it is whole groups of four |
| `Base64.PaddingIsRead` | src/quantum_safe/types/keys.py:449-449 | what padding does at every point of a group: it completes one of at least two digits, is passed over between groups, and is an error otherwise |
| `Base64.UrlEncodeIsDigits` | src/quantum_safe/protocols/standard_jwt.py:58-60 | stripping the padding removes the padding and nothing else |
| `Base64.UrlRoundTrip` | src/quantum_safe/protocols/standard_jwt.py:58-65 | restoring the padding and decoding gives the data back |
| `Base64.StrictReadsOnlyEncodings` | src/quantum_safe/protocols/standard_jwt.py:68-75 | the strict reader accepts a string if and only if it is the encoding of the non-empty bytes it returns (section 3.5 of RFC 4648) |
| `Base64.StrictIsInjective` | src/quantum_safe/protocols/standard_jwt.py:68-75 | no two strings read as the same bytes |
| `Base64.LenientReaderHasSecondSpellings` | src/quantum_safe/protocols/standard_jwt.py:63-65 | without the comparison two strings do |
| `TextLines.SplitAtLineFeed` | src/quantum_safe/types/keys.py:421-421 | a line feed separates the lines before it from those after it, for text with any mix of breaks |
| `TextLines.CarriageReturnEndsALine` | src/quantum_safe/types/keys.py:421-421 | a carriage return ends a line, and with a line feed after it is one break |
| `TextLines.WrapThenConcat` | src/quantum_safe/types/keys.py:289-289 | joining the wrapped lines gives the text back, and no line is over the width |
| `Pem.ParsePemBody` | src/quantum_safe/types/keys.py:410-453 | the one-pass loop with its flag computes the headers before the first blank line and decodes everything after it |
| `Pem.OneLineHasNoBlank` | src/quantum_safe/types/keys.py:293-293 | an algorithm without line breaks prints no blank header line |
| `Pem.PrintedLines` | src/quantum_safe/types/keys.py:285-297 | the lines the reader sees are exactly the printed ones, even if the algorithm contains breaks |
| `Pem.PrintedBody` | src/quantum_safe/types/keys.py:421-453 | the body decodes to the payload bytes unless the algorithm prints a blank line |
| `Pem.PayloadReadsBack` | src/quantum_safe/types/keys.py:348-407 | a payload passes every check for its kind and gives the key back, migration state included |
| `Pem.ReadUndoesPrint` | src/quantum_safe/types/keys.py:568-612 | parsing a printed key gives the same key if and only if the payload is within 10 MB |
| `Pem.DocumentIsReadExactly` | src/quantum_safe/types/keys.py:368-407 | which documents are read as which key: version, types, the tag of the kind asked for, the key size, and the migration state |
| `Pem.DocumentFailsHow` | src/quantum_safe/types/keys.py:368-407 | which error any other document is refused with, in the code's order |
| `Pem.TextIsReadExactly` | src/quantum_safe/types/keys.py:568-612 | which texts are read as which key: markers, label, a body of at most 10 MB, and its document |
| `Pem.TextFailsHow` | src/quantum_safe/types/keys.py:421-451 | which error a text without markers or body is refused with |
| `Pem.RelabelledIsRefused` | src/quantum_safe/types/keys.py:400-407 | the tag in the payload decides: with any markers a payload is read as its own key or not at all |
| `Pem.PrintedHeaders` | src/quantum_safe/types/keys.py:291-295 | the headers of printed text are the version, the algorithm and the migration state |
| `Pem.BodyLinesAreFull` | src/quantum_safe/types/keys.py:287-289 | the body is printed in lines of 64 characters, the last one shorter |
| `Pem.KindsDoNotMix` | src/quantum_safe/types/keys.py:838-845 | a printed public key never loads as a secret key, nor the reverse, whatever its algorithm name |
| `SignatureV1.UnpackIsInverse` | src/quantum_safe/signatures/core.py:699-733 | a blob unpacks to a pair if and only if it is that pair packed with a prefix of the expected length |
| `SignatureV1.BackendInputInjective` | src/quantum_safe/backends/liboqs.py:692-696 | the bytes signed determine context and message |
| `SignatureV1.SignedBytesAndBlobDetermineAll` | src/quantum_safe/signatures/core.py:715-733 | with the verifier's prefix length, signed bytes and blob determine context, prefix, message and raw signature |
| `SignatureV1.LengthByteAloneIsAmbiguous` | src/quantum_safe/signatures/core.py:719-724 | if the blob's length byte were trusted, one signed input would have two readings |
| `SignatureV1.SignThenVerify` | src/quantum_safe/signatures/core.py:335-522 | a signature verifies under the matching key and mode if and only if the verifier expects its context |
| `SignatureV1.OtherModeIsRefused` | src/quantum_safe/signatures/core.py:711-713 | a verifier in the other hedging mode refuses it |
| `SignatureV1.ModesOverlap` | src/quantum_safe/signatures/core.py:125-129 | why a key is for one mode: an unhedged signature on prefix + message, packed with that prefix, verifies as a hedged one on message |
| `SignatureV1.ModesOverlapBack` | src/quantum_safe/signatures/core.py:125-129 | and a hedged signature, packed without its prefix, verifies as an unhedged one on prefix + message |
| `SignatureV1.AcceptedInMixedModes` | src/quantum_safe/signatures/core.py:562-572 | with an ideal primitive and a key used in both modes these two are the only exceptions: acceptance means that the message was signed in that context in the verifier's mode, or that the blob's prefix and the message, joined, were signed in the other |
| `SignatureV1.AcceptedWasSigned` | src/quantum_safe/signatures/core.py:562-572 | with one mode per key only a signed message in its own context is accepted |
| `SignatureV1.VerifiedMessageWasSigned` | src/quantum_safe/signatures/core.py:456-522 | an accepted message names the key's algorithm, has the expected context and was signed in it |
| `SignatureV1.SignsExactlyWhen` | src/quantum_safe/signatures/core.py:362-413 | what signing comes to: the errors in their order, or the message with its blob, byte for byte |
| `SignatureV1.VerifyFailsHow` | src/quantum_safe/signatures/core.py:456-572 | which error verification raises, and the first byte and length of an accepted blob |
| `SignatureV2.SignedInputInjective` | src/quantum_safe/signatures/_v2.py:109-123 | the signed input determines algorithm identifier, context and message |
| `SignatureV2.ClassicalInputInjective` | src/quantum_safe/signatures/_v2.py:126-128 | the labelled input determines the signed input |
| `SignatureV2.IdentifierNamesASuite` | src/quantum_safe/signatures/_v2.py:61-106 | an identifier names a suite if and only if it is the name of one in the table with the suffix |
| `SignatureV2.PackAndUnpackAreInverse` | src/quantum_safe/signatures/_v2.py:131-147 | packing and unpacking are inverse to each other on everything either accepts |
| `SignatureV2.OneTwinIsLow` | src/quantum_safe/signatures/_v2.py:218-221 | of s and order - s exactly one is accepted, for every s, if and only if the order is odd |
| `SignatureV2.LowIsTheSmaller` | src/quantum_safe/signatures/_v2.py:193-221 | signing keeps the smaller of s and its twin, and verification takes only the smaller |
| `SignatureV2.EcdsaSigns` | src/quantum_safe/signatures/_v2.py:186-196 | ECDSA signing works whenever the primitive does and emits r and the smaller of s and its twin |
| `SignatureV2.AcceptedIsLow` | src/quantum_safe/signatures/_v2.py:215-229 | an accepted ECDSA half has both fixed lengths, a low s and is valid |
| `SignatureV2.OrdersAreOdd` | src/quantum_safe/signatures/_v2.py:54-60 | both group orders are odd and fit their coordinate size |
| `SignatureV2.PairRoundTrip` | src/quantum_safe/signatures/_v2.py:193-219 | the fixed-size encoding of (r, s) decodes to it |
| `SignatureV2.PairHasOneSpelling` | src/quantum_safe/signatures/_v2.py:216-219 | two encodings of one pair are the same bytes |
| `SignatureV2.ClassicalSignThenVerify` | src/quantum_safe/signatures/_v2.py:171-231 | what the classical half signs has the fixed length, is low-S and is accepted |
| `SignatureV2.TwinIsRefused` | src/quantum_safe/signatures/_v2.py:218-221 | the twin of an accepted ECDSA signature, which plain ECDSA accepts, is refused |
| `SignatureV2.SignThenVerify` | src/quantum_safe/signatures/_v2.py:265-323 | a v2 signature verifies under the matching keys if and only if the message is not empty |
| `SignatureV2.SignsExactlyWhen` | src/quantum_safe/signatures/_v2.py:238-268 | for every suite: when signing works, the bytes both halves sign, and which error otherwise |
| `SignatureV2.VerifyFailsHow` | src/quantum_safe/signatures/_v2.py:298-323 | an unknown identifier is told apart, any other failure is the one verification error; what is needed to verify |
| `SignatureV2.AcceptedWasSigned` | src/quantum_safe/signatures/_v2.py:302-323 | with an ideal ML-DSA half only a signed (algorithm, context, message) is accepted, even if the classical half is broken |
| `SignatureV2.AcceptedWasSignedByTheClassicalHalf` | src/quantum_safe/signatures/_v2.py:310-323 | the same from the classical half if ML-DSA is the broken one |

## Left out

- Cryptographic primitives and the libraries that hold them (AES-GCM, HKDF, ML-KEM, ML-DSA, ECDSA, Ed25519, pyhsslms): parameters with stated hypotheses.
- CBOR bytes: a round-trip pair; how cbor2 spells a value is not part of this model.
- Real time: heartbeats, sleeps and timeouts are the events "a lock goes stale" and "a process gives up"; what the clock would have to do for them is the hypothesis `Timely`.
- fsync, file modes, Windows retries, symbolic links and directories at file paths.
- FileLock: a moved lock is put back by the POSIX rename, which replaces an empty lock directory; on Windows that rename fails.
- FileLock: each process runs one operation, and its code is the step function of a transition system, not a method per operation.
- FileLock: an error while the owner file is written is raised after the lock is removed; the code tries again if it was a PermissionError.
- FileLockLinear.Linearizable: assumes for compare-and-set that a running holder's lock does not go stale and that a breaker moves the lock it checked; the exact condition, without them, is `FileLockExact.LinearizableExactly`.
- StreamCipher.Cipher: one class for the sealer and the opener, without inheritance; zero-copy views are values, so aliasing with a caller's buffer is not captured.
- StreamIO: a generator is a method that returns everything it yields, in order; laziness and early abandonment are not captured.
- MigrationStore.MemoryMigrationStore: the thread lock around it is taken as given; `actor`, `algorithm` and `metadata` of a record are one text.
- Lms: the optional failure of a caller's own state store is a refused reservation; serialised key bytes are the index.
- Rewrap.SecondRunChangesNothing: needs that a migrated file is recognised, that is a separate destination, the new secret key, or an old key that does not open the new messages; `InPlaceWithoutNewSecret` and `InPlaceByTheKeys` give the exact condition.
- Rewrap.ListingStays: a source directory inside the destination is allowed by the code; then output can land in the source tree and the next listing is longer.
- Rewrap.Tree.RewrapDirectory: the listing and its order are a parameter; the hidden temporary of an atomic write is not a file of the model.
- Pem.ReadUndoesPrint: for an algorithm that prints a blank header line the body begins too early; what the CBOR loader makes of those bytes is not part of this model, so this side is not an if-and-only-if.
- SignatureV1.AcceptedWasSigned: assumes one hedging mode per key, as the constructor's documentation asks; `AcceptedInMixedModes` says what acceptance means otherwise.
- KeyFile: a crash or an interrupt that is no OSError between two operations; the code does not roll back then either.
- KeyFile: argument defaults, the conversion of the classical key and its self-check are one function parameter.
- The v1 hybrid signature and the hybrid KEM: compositions of opaque calls with length-prefixed framing like `Pack` here.
- JWK, JWT claims, COSE, `verify_raw`, fingerprints, `resolve_target`: single checks or codecs like those shown.
- Backend selection, KEM combiners, scanner, audit, compliance, CLIs, TLS and X.509 helpers: dispatch, tables and plumbing.
- Zeroisation and constant-time comparison: not expressible here.
