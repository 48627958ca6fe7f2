# Verification of the desktop shell, the Claude Code adapter and the conformance reader

A Dafny 4.11 model of the parts of the repository where state, failure or byte-level detail makes correctness hard
to see, with proofs for all inputs, all runs and all interleavings. `dafny verify dfyconfig.toml` checks everything.

| module | models |
|---|---|
| `SecretSplit`, `SecretManifest`, `SecretManifestText`, `SecretStore` | the chunked credential store as functions of a slot map and a fault plan |
| `SecretStoreProofs`, `SecretStoreRuns`, `SecretStoreCauses`, `SecretStoreLayout` | its failure atomicity, round trip, size limit, linearisation, storage hygiene, refinement of a plain table, causes of errors, and layout on literal slot names |
| `CredentialStore` | the same operations as loops over a keyring changed in place, proved equal to those functions |
| `ByteTrim`, `SseFraming`, `SseEvents`, `SseText`, `SseRoundTrip` | the SSE writer, the buffered incremental reader, and when they undo each other |
| `PartIds`, `StreamTranslation` | part ids and the stream translator, with a client reducer |
| `Permissions`, `PermissionTexts` | the park / decide / respond protocol over one-slot channels, down to the texts users send |
| `FanOut` | bounded fan-out to subscribers |
| `EventPipeline` | translation, fan-out, SSE writer and reader as one pipeline, from upstream frames to a client |
| `Staging`, `Discovery`, `Downloads` | desktop copies, handler discovery, free download names |
| `DaemonRegistry`, `DaemonRegistryTexts` | registry pruning and the stop decision of the shared daemon, down to the texts of its files |
| `IconAlpha` | transparency recovery from two renderings |
| `Vocabulary`, `VocabularyTexts` | the line-driven vocabulary parser, and the documents it accepts |
| `DriftReport` | the vocabulary check: SPEC blocks, SSE stream and comparison together |
| `Outcomes`, `Texts`, `Decimal` | shared values, string operations and decimal text |

How the outside world enters the model:

- **Keyring faults.** Each keyring call works, fails without effect, or is the last thing the process does, stopping
  just before or just after its effect. A plan chooses per call; theorems quantify over all plans. Slot writes are
  all or nothing. A save's random generation is fresh (`Fresh`): no slot and no published manifest of the account
  uses it; where removals work (`RunsRefineTable`) it need only differ from the published one. Where several accounts
  occur, none is another one followed by `#`.
- **JSON.** An encoder that may fail and a decoder, with `Lawful`: a text is one non-empty line without surrounding
  white space, and decoding undoes encoding. In `ByteTrim` and the `Sse` modules each character
  stands for one byte.
- **Concurrency.** Protocols are state machines over their atomic steps; a run is any sequence of enabled steps.
- **Digests, random names, clock readings, lower-casing and float parsing** are parameters about which nothing is assumed.

Behaviour of the code that a reader may not expect, and that the model keeps:

- A save that reports an error may already have published the new secret, when only the removal of the old chunks
  failed (`ErrorAfterPublication`). An error is sure to mean the old content if and only if the account's slot holds no
  manifest, the secret is rejected for its length, or the account holds that secret already (`ErrorMeansOldExactly`).
- An event type with newlines can make the SSE reader see extra events. The round trip holds for every lawful codec if
  and only if every event type passes `SafeKind`: no block that its own header line completes carries a data text
  (`SseRoundTrip.RoundTripExactly`). A type without a blank line can fail the test (`BlankFreeNeedNotBeSafe`) and one
  with a blank line can pass it (`BlankNeedNotBeUnsafe`); a newline-free type always passes. Every caller in the
  adapter passes a literal newline-free type.
- `content_block_stop` completes blocks that were never added, which the client ignores.
- A copy that was staged below a random directory is not found again: only the copy below the digest directory is
  reused (`Staging.ReusedExactly`, `Staging.RandomCopyIsNotReused`).
- A check of an idle daemon leaves the registry quiet only if its file removals worked (`IdleCheckQuiets`); the very
  next check then finds something to do only after a forced stop that failed, with the pidfile stuck
  (`NextCheckIsGone`).
- A subscriber whose queue was full at a send misses that event for good (`FanOut.NothingIsMissedExactly`).
- `itoa` prints the minimum 64-bit integer as a lone minus sign, and part ids stay distinct all the same.
- A registry file named `007` and one named `7` stand for the same client.

## Model

| member | source | states |
|---|---|---|
| `SecretSplit.Split` | desktop/src-tauri/src/credential_chunks.rs:76-95 | the character loop computes the greedy cutting, or "too large" when it has more than 64 pieces |
| `SecretSplit.ChunksAreRight` | desktop/src-tauri/src/credential_chunks.rs:76-90 | the chunks concatenate to the secret, none is empty or above 1000 UTF-16 units, and all but the last have at least 999 |
| `SecretSplit.GreedyStaysAhead` | desktop/src-tauri/src/credential_chunks.rs:80-87 | for a suffix of a text the greedy cutting never needs more pieces than any cutting of the whole text |
| `SecretSplit.GreedyIsOptimal` | desktop/src-tauri/src/credential_chunks.rs:76-90 | no other cutting at character boundaries within the limit uses fewer pieces |
| `SecretSplit.TooLargeExactly` | desktop/src-tauri/src/credential_chunks.rs:91-94 | "too large" is reported if and only if no cutting into 64 pieces exists |
| `SecretSplit.UnitsAreUtf16` | desktop/src-tauri/src/credential_chunks.rs:80-86 | the units counted are those of the UTF-16 encoding, surrogate pairs included |
| `SecretSplit.SplitsExactly` | desktop/src-tauri/src/credential_chunks.rs:76-95 | a secret is split if and only if some cutting into 64 pieces of 1000 UTF-16 units exists, and the result is such a cutting |
| `SecretManifest.PrintParse` | desktop/src-tauri/src/credential_chunks.rs:32-74 | parsing a printed manifest gives its generation and count back |
| `SecretManifest.LegacyParses` | desktop/src-tauri/src/credential_chunks.rs:62-73 | every legacy v1 manifest of 1 to 64 chunks is parsed to a manifest without generation |
| `SecretManifestText.DrawsAreGenerations` | desktop/src-tauri/src/credential_chunks.rs:112-115 | every 128-bit draw, printed as 32 hexadecimal digits, is a well-formed generation |
| `SecretManifestText.HexTextInjective` | desktop/src-tauri/src/credential_chunks.rs:112-115 | different draws print differently |
| `SecretManifestText.DrawnManifestParses` | desktop/src-tauri/src/credential_chunks.rs:32-74 | the manifest printed for any draw and count is parsed to its generation and count |
| `SecretManifestText.ParseV2Exactly` | desktop/src-tauri/src/credential_chunks.rs:51-73 | a v2 value is a manifest if and only if its generation is 32 of the 22 hexadecimal characters and its count is from 1 to 64; else it is damaged |
| `SecretManifestText.ParseV1Exactly` | desktop/src-tauri/src/credential_chunks.rs:62-73 | a v1 value is a manifest if and only if its count is from 1 to 64; else it is damaged |
| `SecretManifestText.ParseOtherwise` | desktop/src-tauri/src/credential_chunks.rs:64-68 | any other value with the prefix is damaged, any value without it is plain |
| `SecretManifest.PlainExactly` | desktop/src-tauri/src/credential_chunks.rs:51-68 | a value is a plain secret if and only if it lacks the manifest prefix |
| `SecretManifest.PrintFits` | desktop/src-tauri/src/credential_chunks.rs:32-38 | a printed manifest stays within the slot limit |
| `SecretManifest.ChunkNameInjective` | desktop/src-tauri/src/credential_chunks.rs:26-31 | within an account a slot name determines generation and index, across v1 and v2 names |
| `SecretManifest.ApartAccountsShareNothing` | desktop/src-tauri/src/credential_chunks.rs:26-31 | accounts none of which is the other followed by `#` have no slot in common |
| `SecretStoreProofs.RemoveAllDone` | desktop/src-tauri/src/credential_chunks.rs:39-44 | a completed manifest removal takes away exactly its chunks |
| `SecretStoreProofs.PublishEffect` | desktop/src-tauri/src/credential_chunks.rs:109-128 | publication either leaves the account's own slot alone or ends with the whole secret in place; a failed write with working cleanup restores the whole slot map |
| `SecretStoreProofs.HeldIsRead` | desktop/src-tauri/src/credential_chunks.rs:140-153 | a published secret reads back as itself, also when it looks like a manifest |
| `SecretStoreProofs.SaveIsAtomic` | desktop/src-tauri/src/credential_chunks.rs:98-133 | under every fault plan a save leaves the earlier content or the whole new secret; success means the new one, rejection or a cleanup error the earlier one; other accounts' slots are untouched |
| `SecretStoreProofs.FailedSaveCanPublish` | desktop/src-tauri/src/credential_chunks.rs:122-132 | over any published manifest, a save of any acceptable secret whose removals fail reports an error with the new secret in place |
| `SecretStoreProofs.ErrorMeansOldExactly` | desktop/src-tauri/src/credential_chunks.rs:98-133 | every error of a save, under every plan, leaves the earlier content if and only if the account publishes no manifest, the secret is empty or too large, or it is what the account holds |
| `SecretStoreProofs.ErrorAfterPublication` | desktop/src-tauri/src/credential_chunks.rs:122-132 | a concrete case: a legacy account holding `a` holds `b` after a save of `b` that reported an error |
| `SecretStoreProofs.DeleteIsAtomic` | desktop/src-tauri/src/credential_chunks.rs:157-169 | under every fault plan a delete leaves the earlier content or nothing |
| `SecretStoreProofs.LoadReads` | desktop/src-tauri/src/credential_chunks.rs:136-154 | a load changes nothing and answers what the slots hold, unless a read fails or the process stops |
| `SecretStoreProofs.SaveThenLoad` | desktop/src-tauri/src/credential_chunks.rs:98-154 | after a successful save, load returns that secret |
| `SecretStoreProofs.StoppedSaveEitherWay` | desktop/src-tauri/src/credential_chunks.rs:110-111 | a save that is stopped just before its write leaves the old secret, just after it the new one |
| `SecretStoreLayout.SavedIsLoaded` | desktop/src-tauri/src/credential_chunks.rs:98-154 | on a working keyring, for every fresh draw, every non-empty secret that some cutting exists for is saved and loaded again unchanged |
| `SecretStoreLayout.SaveLayout` | desktop/src-tauri/src/credential_chunks.rs:98-133 | a saved secret stands in its own slot when it fits 1000 UTF-16 units and is no manifest, else as a manifest and chunks under the literal slot names |
| `SecretStoreLayout.LegacyIsLoaded` | desktop/src-tauri/src/credential_chunks.rs:136-154 | a v1 manifest and the slots `account#0`, `account#1`, ... load as one secret |
| `SecretStoreLayout.DrawnIsLoaded` | desktop/src-tauri/src/credential_chunks.rs:136-154 | a v2 manifest and the slots `account#<generation>#0`, ... load as one secret |
| `SecretStoreLayout.IncompleteIsReported` | desktop/src-tauri/src/credential_chunks.rs:146-151 | a manifest with any chunk missing is reported as incomplete |
| `SecretStoreLayout.PlainIsLoaded` | desktop/src-tauri/src/credential_chunks.rs:140-145 | no slot loads as nothing, a damaged value as an error, any other value as itself |
| `SecretStoreLayout.LegacyIsDeleted` | desktop/src-tauri/src/credential_chunks.rs:157-169 | on a working keyring a delete of a legacy secret removes exactly its slots |
| `SecretStoreLayout.DrawnIsDeleted` | desktop/src-tauri/src/credential_chunks.rs:157-169 | and of a v2 secret |
| `SecretStoreLayout.NewDraw` | desktop/src-tauri/src/credential_chunks.rs:112-115 | a draw is new unless the account's slot holds a manifest of it |
| `SecretStoreCauses.SaveErrorsHaveCause` | desktop/src-tauri/src/credential_chunks.rs:98-133 | a save reports an error only for an empty or too large secret or after a keyring call that failed, and is stopped only by a call that stopped it |
| `SecretStoreCauses.DeleteErrorsHaveCause` | desktop/src-tauri/src/credential_chunks.rs:157-169 | a delete reports an error only after a keyring call that failed |
| `SecretStoreCauses.LoadErrorsHaveCause` | desktop/src-tauri/src/credential_chunks.rs:136-154 | a load answers what the slots hold unless a keyring read failed or stopped it |
| `SecretStoreProofs.SaveStaysWithinLimit` | desktop/src-tauri/src/credential_chunks.rs:98-133 | no save, whatever fails, leaves a slot value above 1000 units |
| `SecretStoreRuns.CallIsPermitted` | desktop/src-tauri/src/credential_chunks.rs:98-169 | each call, by its reply, took effect, did not, or did so wholly or not at all, and touched no other account's slots |
| `SecretStoreRuns.RunsLinearise` | desktop/src-tauri/src/credential_chunks.rs:98-169 | under every fault plan the replies and the final content of each account are those of its calls taking effect in order: always when Done, never when rejected, else wholly or not at all; loads answer what is held at their turn |
| `SecretStoreRuns.LastDoneDecides` | desktop/src-tauri/src/credential_chunks.rs:98-169 | where every call returned Done, the last save or delete of the account decides what it holds |
| `SecretStoreRuns.SaveIsHygienic` | desktop/src-tauri/src/credential_chunks.rs:98-133 | with working removals a save keeps the account's slots exactly its own and its manifest's chunks, and a failed save leaves the whole slot map as it was |
| `SecretStoreRuns.DeleteIsHygienic` | desktop/src-tauri/src/credential_chunks.rs:157-169 | with working removals a delete leaves no slot of the account, or fails and changes nothing |
| `SecretStoreRuns.HygienicFreshness` | desktop/src-tauri/src/credential_chunks.rs:112-115 | in a hygienic account any well-formed generation but the published one is fresh |
| `SecretStoreRuns.RunsRefineTable` | desktop/src-tauri/src/credential_chunks.rs:98-169 | over every run with arbitrary read and write failures, whose saves draw generations other than the one published, all accounts stay hygienic and hold what a plain table of successful calls says |
| `SecretStoreRuns.SaveSucceedsExactly` | desktop/src-tauri/src/credential_chunks.rs:98-133 | on a working keyring a save succeeds if and only if the secret is not empty and some cutting into 64 pieces of 1000 UTF-16 units exists, and otherwise says which it was |
| `SecretStoreRuns.DeleteSucceeds` | desktop/src-tauri/src/credential_chunks.rs:157-169 | on a working keyring a delete succeeds and removes exactly the account's slot and the chunks it publishes |
| `CredentialStore.Keyring.GetSlot` | desktop/src-tauri/src/credential_chunks.rs:13-14 | a slot read answers the slot's value, or fails or stops as planned, and changes no slot |
| `CredentialStore.Keyring.SetSlot` | desktop/src-tauri/src/credential_chunks.rs:15-15 | a slot write takes effect wholly or not at all, as planned |
| `CredentialStore.Keyring.RemoveSlot` | desktop/src-tauri/src/credential_chunks.rs:16-17 | a removal takes effect wholly or not at all; an absent slot is no error |
| `CredentialStore.Keyring.RemoveManifest` | desktop/src-tauri/src/credential_chunks.rs:39-44 | the removal loop has exactly the specified effect and reply under every plan |
| `CredentialStore.Keyring.StageSecret` | desktop/src-tauri/src/credential_chunks.rs:116-121 | the staging loop has exactly the specified effect and reply |
| `CredentialStore.Keyring.SaveSecret` | desktop/src-tauri/src/credential_chunks.rs:98-133 | save in place equals the save the theorems are about, state and reply |
| `CredentialStore.Keyring.LoadSecret` | desktop/src-tauri/src/credential_chunks.rs:136-154 | load in place equals the load the theorems are about |
| `CredentialStore.Keyring.DeleteSecret` | desktop/src-tauri/src/credential_chunks.rs:157-169 | delete in place equals the delete the theorems are about |
| `SseFraming.FramesExactly` | contract/conformance/drift_checks.go:177-188 | the framing is the one and only way to cut a stream at leftmost, non-overlapping blank lines |
| `SseFraming.FramesConcat` | contract/conformance/drift_checks.go:171-189 | framing two pieces of a stream one after the other, carrying only the rest, frames the whole |
| `SseEvents.ParseDriftEvent` | contract/conformance/drift_checks.go:199-225 | a block reports the event in its last data line, if that is one |
| `SseText.BlockIsRead` | contract/conformance/drift_checks.go:199-225 | the event of a block is the type, version and payload of the envelope in its last `data:` line, wherever that stands; none if it is blank, no envelope, or without type |
| `SseText.BlockWithoutData` | contract/conformance/drift_checks.go:206-208 | a block without a data line is no event |
| `ByteTrim.TrimBytesSplits` | contract/conformance/drift_checks.go:203-203 | trimming takes encoded white space off both ends, and nothing else |
| `ByteTrim.SpaceCodeOf` | contract/conformance/drift_checks.go:203-203 | a character's UTF-8 bytes are trimmed if and only if it is Unicode white space |
| `SseText.WrittenText` | adapters/claudecode/streaming.go:212-227 | the bytes of one emission, line by line, with `message` for an empty type |
| `SseEvents.Drain` | contract/conformance/drift_checks.go:177-188 | the inner loop takes every complete block off the buffer and leaves the rest |
| `SseEvents.CollectEvents` | contract/conformance/drift_checks.go:170-197 | the events depend only on the concatenated bytes, however they are cut into reads |
| `SseEvents.DataFrameIsRead` | contract/conformance/drift_checks.go:199-208 | a data line and a separator after any header end one block whose event is that line's |
| `SseEvents.WrittenStreamIsRead` | adapters/claudecode/streaming.go:212-227 | the reader reports every emission in order, preceded only by what its header lines hold |
| `SseEvents.RoundTripWithoutStrays` | contract/conformance/drift_checks.go:170-225 | under one codec, writer and reader undo each other if and only if no header holds a stray event |
| `SseRoundTrip.HeaderData` | adapters/claudecode/streaming.go:212-227 | the id line does not matter: the header completes a block with data if and only if its event line alone does |
| `SseRoundTrip.SafeKindExactly` | contract/conformance/drift_checks.go:199-225 | the test on the event type holds if and only if the header makes no stray event under any lawful codec |
| `SseRoundTrip.RoundTripExactly` | contract/conformance/drift_checks.go:170-225 | writer and reader undo each other under every lawful codec if and only if every event type passes the test |
| `SseRoundTrip.NewlineFreeIsSafe` | adapters/claudecode/streaming.go:212-227 | a newline-free event type passes the test |
| `SseRoundTrip.BlankFreeNeedNotBeSafe` | adapters/claudecode/streaming.go:212-227 | a type without a blank line that fails it |
| `SseRoundTrip.BlankNeedNotBeUnsafe` | adapters/claudecode/streaming.go:212-227 | a type with a blank line that passes it |
| `SseRoundTrip.RoundTrip` | adapters/claudecode/streaming.go:212-227 | events with newline-free types are collected back as the same sequence of types, protocol versions and payloads in every slicing |
| `PartIds.Itoa` | adapters/claudecode/translate_stream.go:148-169 | the backwards digit loop stays in its 20 bytes and prints the decimal text of every 64-bit integer but the minimum, which prints as a minus sign |
| `PartIds.ItoaTextInjective` | adapters/claudecode/translate_stream.go:148-169 | distinct 64-bit integers print differently and never with an underscore |
| `PartIds.PartIdInjective` | adapters/claudecode/translate_stream.go:130-132 | part ids are equal if and only if message id and index are |
| `PartIds.PartIdText` | adapters/claudecode/translate_stream.go:130-132 | the text of a part id, for every index |
| `StreamTranslation.RunFrames` | adapters/claudecode/streaming.go:111-118 | the event loop broadcasts the translation of all frames, threading the active id |
| `StreamTranslation.ActiveIsOpen` | adapters/claudecode/translate_stream.go:21-48 | the threaded id is the open upstream message, and the client knows it |
| `StreamTranslation.ClientMatchesUpstream` | adapters/claudecode/translate_stream.go:21-124 | for every stream, the folded client holds for every block of every message exactly the upstream text and completion, and for every message its session, model and completion |
| `StreamTranslation.TextPreserved` | adapters/claudecode/translate_stream.go:49-96 | a text block is rebuilt as its start text followed by its deltas in order, under any interleaving |
| `StreamTranslation.EventsNameTheOpenMessage` | adapters/claudecode/translate_stream.go:49-122 | among the translated events, every part or completed event follows a created event of the same id with no created or completed event between |
| `Permissions.StepKeepsInv` | adapters/claudecode/permissions.go:42-200 | every handler step keeps the protocol invariant, and no response step blocks |
| `Permissions.RunKeepsInv` | adapters/claudecode/permissions.go:42-200 | every interleaving keeps the protocol invariant |
| `Permissions.ProtocolIsSafe` | adapters/claudecode/permissions.go:42-117 | after every interleaving each permission was accepted and answered at most once, answers match request id and recorded action, and no channel holds two decisions |
| `Permissions.ResponderNeverBlocks` | adapters/claudecode/permissions.go:181-189 | in every reachable state the one-slot channel has room for the response |
| `Permissions.FirstDecisionStands` | adapters/claudecode/permissions.go:181-188 | a recorded decision survives every continuation and a second response conflicts |
| `Permissions.DecisionIsDelivered` | adapters/claudecode/permissions.go:85-117 | in every reachable state a resolved permission has been answered with its own request id and verdict, or its next wake-up sends exactly that response |
| `Permissions.AcceptedDecisionIsDelivered` | adapters/claudecode/permissions.go:85-200 | from an accepted response on, through any interleaving of later steps, the response due is the one that decision calls for, and it has been sent or is sent by the next wake-up |
| `Permissions.AnswersHaveCause` | adapters/claudecode/permissions.go:42-200 | every control response carries the request id of a tool request of the run and the verdict of a user response of the run |
| `PermissionTexts.ActionsExactly` | adapters/claudecode/permissions.go:166-186 | exactly the four texts are actions, each recorded as itself, and all but `deny` allow |
| `PermissionTexts.RepliesExactly` | adapters/claudecode/permissions.go:166-182 | in every reachable state: invalid exactly for other texts, not found exactly for unknown ids, conflict exactly for resolved ones, accepted exactly for open ones |
| `PermissionTexts.RefusedResponseChangesNothing` | adapters/claudecode/permissions.go:166-182 | a response that is not accepted changes nothing |
| `PermissionTexts.VerdictFollowsText` | adapters/claudecode/permissions.go:85-200 | after an accepted text and any later steps the response sent or due allows if and only if the text is one of the three that allow |
| `PermissionTexts.ExchangeIsAnswered` | adapters/claudecode/permissions.go:42-200 | a tool request, its first known response and a later wake-up, interleaved with anything, send under the request's id an allow if and only if the text was not `deny` |
| `Permissions.PermissionServer.HandleControlRequest` | adapters/claudecode/permissions.go:42-83 | a tool request parks a permission with an empty channel; other requests change nothing |
| `Permissions.PermissionServer.HandleRespond` | adapters/claudecode/permissions.go:159-200 | the response handler's replies and table changes, for every action text and id |
| `Permissions.PermissionServer.ResumeControlRequest` | adapters/claudecode/permissions.go:85-117 | a woken handler consumes its decision and sends one response |
| `FanOut.SendKeepsFaithful` | adapters/claudecode/streaming.go:204-209 | one non-blocking send keeps a channel's content equal to the events that found room |
| `FanOut.DeliveryIsFaithful` | adapters/claudecode/streaming.go:152-210 | after every run a channel holds log entries at strictly increasing positions, at most 64 queued, missing one only if the queue was full at that send |
| `FanOut.SendsOfferAll` | adapters/claudecode/streaming.go:199-210 | the sends of one broadcast taken together offer the event once to each snapshotted channel |
| `FanOut.BroadcastOffersAll` | adapters/claudecode/streaming.go:199-210 | a whole broadcast of the state machine offers the event once to every subscriber in order and touches no other queue |
| `FanOut.RunKeepsInv` | adapters/claudecode/streaming.go:181-210 | every run of subscribe, unsubscribe, broadcast, send and receive steps keeps the fan-out invariant |
| `FanOut.InvDelivers` | adapters/claudecode/streaming.go:152-210 | delivery is faithful to every channel in every state that satisfies the invariant, so in every valid session object |
| `FanOut.NothingIsMissedExactly` | adapters/claudecode/streaming.go:199-210 | a channel has, taken or queued, the whole stretch of the log it was sent if and only if no send found its queue full |
| `FanOut.UnsubscribedGetsNothing` | adapters/claudecode/streaming.go:187-210 | over every run an unsubscribed channel is sent nothing more and only hands out what it held |
| `FanOut.SubscriptionTakesEffect` | adapters/claudecode/streaming.go:181-197 | a subscription adds exactly that channel, empty, from the next broadcast on; an unsubscription drops exactly that one |
| `FanOut.SubscribedUntilUnsubscribed` | adapters/claudecode/streaming.go:181-210 | over every run a subscriber is sent every event until it unsubscribes |
| `FanOut.SessionState.SubscribeChannel` | adapters/claudecode/streaming.go:181-185 | subscribing in place is the machine's subscribe step and keeps its invariant |
| `FanOut.SessionState.UnsubscribeChannel` | adapters/claudecode/streaming.go:187-197 | the search loop is the machine's unsubscribe step: the first occurrence leaves the list, what the channel has buffered stays |
| `FanOut.SessionState.ReceiveEvent` | adapters/claudecode/streaming.go:169-176 | a receive in place is the machine's receive step and yields the oldest queued event |
| `FanOut.SessionState.Broadcast` | adapters/claudecode/streaming.go:199-210 | the loop over the snapshot is the machine's begin followed by a send to every subscriber, and offers the event to each in order |
| `EventPipeline.WireIsUnderstood` | adapters/claudecode/translate_stream.go:28-122 | a client understands the type and payload of every translated event as that event |
| `EventPipeline.CreatedIsFlat` | adapters/claudecode/translate_stream.go:38-53 | a created event is a flat assistant message: id and role at the top, under no `message` key |
| `EventPipeline.OnlyNamingCounts` | adapters/claudecode/translate_stream.go:28-122 | what a client holds of a message depends only on the events that name it |
| `EventPipeline.RunKeepsInv` | adapters/claudecode/streaming.go:111-210 | over every run the broadcasts up to any point tell of a message what the frames translated by then tell of it |
| `EventPipeline.ReaderFoldsReceived` | adapters/claudecode/streaming.go:156-227 | a client that reads a subscriber's stream, in any slicing and with connected and heartbeat events in it, holds the fold of what the subscriber received, dropped events or not |
| `EventPipeline.MessageArrives` | adapters/claudecode/streaming.go:111-227 | after every run, for a subscriber that joined before a message and never had a full queue, a client reading its stream in any slicing holds the header and every block of the message as the frames received so far have them, all frames once it has caught up; other broadcasts may come between |
| `Staging.UseKeepsFiles` | desktop/src-tauri/src/document_apps.rs:122-167 | no call changes or removes a file that existed before it, whatever fails |
| `Staging.SuccessHoldsBytes` | desktop/src-tauri/src/document_apps.rs:142-167 | a success names a file with exactly the requested bytes, with no assumption on the digest |
| `Staging.FailureRestores` | desktop/src-tauri/src/document_apps.rs:128-138 | a failed call with working cleanup leaves the tree exactly as it was |
| `Staging.EditsSurvive` | desktop/src-tauri/src/document_apps.rs:122-167 | over every run of calls and user steps a file changes only when the user changes it |
| `Staging.ReusedExactly` | desktop/src-tauri/src/document_apps.rs:146-157 | a successful call changes nothing if and only if the digest directory holds the name with the same bytes and it can be read |
| `Staging.RandomCopyIsNotReused` | desktop/src-tauri/src/document_apps.rs:146-157 | after any run that leaves a copy below a random directory alone, opening the file makes another copy whenever the digest directory does not hold the bytes |
| `Staging.UnchangedCopyIsReused` | desktop/src-tauri/src/document_apps.rs:146-152 | after any run of calls and user steps that leaves the copy below the digest directory alone, opening the same file reuses it and changes nothing |
| `Staging.OutcomeExactly` | desktop/src-tauri/src/document_apps.rs:122-167 | the answer of every call by its name, the tree and its faults, with the refused names spelled out |
| `Staging.FirstCopy` | desktop/src-tauri/src/document_apps.rs:142-167 | the first copy goes below the digest directory, and a call without faults succeeds with it |
| `Staging.StagingArea.StageFile` | desktop/src-tauri/src/document_apps.rs:142-167 | staging in place equals the staging the theorems are about |
| `Staging.StagingArea.RemoveDirectory` | desktop/src-tauri/src/document_apps.rs:133-135 | only an empty directory is removed |
| `Staging.StagingArea.UseStagedFile` | desktop/src-tauri/src/document_apps.rs:122-140 | using a staged file in place equals the use the theorems are about |
| `Discovery.Discover` | desktop/src-tauri/src/document_apps.rs:54-62 | the filter, sort and retain passes compute the specified list |
| `Discovery.SortEffect` | desktop/src-tauri/src/document_apps.rs:58-58 | sorting yields a sorted permutation |
| `Discovery.SortIsStable` | desktop/src-tauri/src/document_apps.rs:58-58 | entries with equal keys keep their order |
| `Discovery.FirstPerIdLeast` | desktop/src-tauri/src/document_apps.rs:59-60 | the entry retained for an id is the least one with that id |
| `Discovery.DiscoveryIsRight` | desktop/src-tauri/src/document_apps.rs:53-62 | one entry per usable id and no other, sorted with defaults first, a default one whenever the id has a usable default entry |
| `Discovery.DiscoveredInOrder` | desktop/src-tauri/src/document_apps.rs:53-62 | on the fields: defaults first, then lower-cased names in lexicographic order, ids breaking ties; unnamed entries never, one entry for every other id |
| `Downloads.CandidatesDiffer` | desktop/src-tauri/src/downloads.rs:105-118 | the names tried are pairwise distinct |
| `Downloads.WithExtension` | desktop/src-tauri/src/downloads.rs:105-118 | the counter goes before the last dot of a name with an extension |
| `Downloads.WithoutExtension` | desktop/src-tauri/src/downloads.rs:105-118 | and to the end of a name without dot or with only a leading one |
| `Downloads.AvailablePath` | desktop/src-tauri/src/downloads.rs:104-121 | the loop ends on every finite directory with the first free name, after at most as many misses as there are entries |
| `DaemonRegistry.ListingFindsLive` | desktop/src-tauri/src/clio_core_registry.rs:200-234 | a listing yields a live client if and only if one is registered |
| `DaemonRegistry.CheckDecides` | desktop/src-tauri/src/clio_core_daemon.rs:104-119 | a stop is issued if and only if no live client is registered and the recorded process is alive; outcome and process table say how it went; a readable pidfile then goes unless its removal fails; pruning removes exactly the dead clients whose removal works; a live client leaves processes and pidfile alone and is listed |
| `DaemonRegistry.StopsHaveCause` | desktop/src-tauri/src/clio_core_daemon.rs:104-119 | over every run each stop was issued at a check whose host had no live client and a live recorded process |
| `DaemonRegistry.IdleCheckQuiets` | desktop/src-tauri/src/clio_core_daemon.rs:104-119 | a check without live clients leaves no client entry and no readable pidfile if and only if no dead client's file was stuck and a readable pidfile could be removed |
| `DaemonRegistry.StaysGone` | desktop/src-tauri/src/clio_core_daemon.rs:109-119 | from there, without a registration or a new pidfile, every check reports AlreadyGone and changes nothing |
| `DaemonRegistry.QuietExactly` | desktop/src-tauri/src/clio_core_daemon.rs:104-119 | a host is quiet if and only if no process that turns up makes the next check report anything but AlreadyGone |
| `DaemonRegistry.NextCheckIsGone` | desktop/src-tauri/src/clio_core_daemon.rs:104-119 | right after a check without live clients the next one reports AlreadyGone unless a forced stop left its process running and the pidfile stuck, and only then not |
| `DaemonRegistryTexts.PidfileExactly` | desktop/src-tauri/src/clio_core_registry.rs:176-184 | a pidfile text records its first token as pid, if it is a number below 2^32, and its second as creation time |
| `DaemonRegistryTexts.PidTextSplits` | desktop/src-tauri/src/clio_core_registry.rs:178-178 | every text that is not blank has those tokens |
| `DaemonRegistryTexts.ClientNamed` | desktop/src-tauri/src/clio_core_registry.rs:212-217 | a registry file stands for the pid its name spells, leading zeros included |
| `DaemonRegistryTexts.ClientsAreNamed` | desktop/src-tauri/src/clio_core_registry.rs:212-217 | and no other name stands for a pid |
| `DaemonRegistryTexts.ClientCounts` | desktop/src-tauri/src/clio_core_registry.rs:223-250 | a client counts as live if and only if its process exists and no known creation time is a second or more off |
| `DaemonRegistryTexts.RecordedDaemonIsStopped` | desktop/src-tauri/src/clio_core_daemon.rs:104-119 | on the pidfile's text: with nobody attached the recorded daemon is stopped if its creation time is within less than a second, else nothing is |
| `DaemonRegistryTexts.BystanderIsNeverStopped` | desktop/src-tauri/src/clio_core_daemon.rs:104-119 | over every run, a process whose creation time is a second or more from the one recorded for its pid is never stopped |
| `DaemonRegistry.StateDir.PruneAndListLiveClients` | desktop/src-tauri/src/clio_core_registry.rs:200-234 | the loop removes exactly the dead client files whose removal works and lists the live clients in order |
| `DaemonRegistry.StateDir.RemovePidfile` | desktop/src-tauri/src/clio_core_registry.rs:186-188 | the pidfile goes, or stays as it was if its removal fails; nothing else changes |
| `DaemonRegistry.StateDir.DecideAndAct` | desktop/src-tauri/src/clio_core_daemon.rs:104-119 | the decision in place equals the check the theorems are about, for every choice of failing removals |
| `IconAlpha.UnpremultiplyIsExact` | desktop/src-tauri/src/document_app_icon_windows.rs:127-134 | for a premultiplied channel the clamp is never needed and premultiplying again gives it back |
| `IconAlpha.UnpremultiplyIsNearest` | desktop/src-tauri/src/document_app_icon_windows.rs:127-134 | unpremultiplying rounds to nearest, and is full from the alpha on |
| `IconAlpha.AlphaExactly` | desktop/src-tauri/src/document_app_icon_windows.rs:121-126 | for any two renderings the alpha is the greatest that explains their difference in all three channels |
| `IconAlpha.CompositeIsRecovered` | desktop/src-tauri/src/document_app_icon_windows.rs:121-141 | a pixel drawn over black and white is recovered with its true alpha and redraws to both renderings |
| `IconAlpha.RecoveryIsExactIff` | desktop/src-tauri/src/document_app_icon_windows.rs:121-141 | redrawing reproduces both renderings if and only if they come from one premultiplied pixel |
| `IconAlpha.RecoverLength` | desktop/src-tauri/src/document_app_icon_windows.rs:117-120 | the recovered image has as many pixels as the shorter rendering has whole ones |
| `IconAlpha.ImageIsRecovered` | desktop/src-tauri/src/document_app_icon_windows.rs:117-143 | the image has that length, and every composited pixel in it is recovered with its true alpha and redraws to both renderings |
| `Vocabulary.ScanLines` | contract/conformance/vocabulary_checks.go:73-125 | the three-flag loop succeeds if and only if the document matches the grammar, with exactly the listed names; an error says what the scan found wrong and where |
| `Vocabulary.LoadEventVocabulary` | contract/conformance/vocabulary_checks.go:66-125 | the same for the line tests of a wanted section: heading, fence, close, comment and entry patterns |
| `Vocabulary.FailureRefutes` | contract/conformance/vocabulary_checks.go:89-124 | every error stands for a document that does not match the grammar |
| `Vocabulary.GrammarIsUnambiguous` | contract/conformance/vocabulary_checks.go:81-117 | a document has at most one such section, fence and close |
| `Vocabulary.EntryIsParsed` | contract/conformance/vocabulary_checks.go:104-115 | a printed entry line is parsed to its name |
| `VocabularyTexts.EntryExactly` | contract/conformance/vocabulary_checks.go:32-32 | an entry is a name of the literal alphabet, a space, and one of the two states |
| `VocabularyTexts.HeadingExactly` | contract/conformance/vocabulary_checks.go:34-34 | a heading is one or more hashes and one of five space characters |
| `VocabularyTexts.OpensExactly` | contract/conformance/vocabulary_checks.go:89-90 | a line opens the block if and only if, trimmed, it is the fence with the wanted tag |
| `VocabularyTexts.LineIsUnderstood` | contract/conformance/vocabulary_checks.go:96-115 | comments and blank lines are skipped, entries listed, and none of them closes the block |
| `VocabularyTexts.DocumentIsGrammatical` | contract/conformance/vocabulary_checks.go:66-125 | every document with the wanted section, other text, the tagged fence, entries among comments and blank lines, and a closing fence matches the grammar with exactly its names |
| `Vocabulary.PrintedBlockIsGrammatical` | contract/conformance/vocabulary_checks.go:66-125 | any non-empty vocabulary printed as a block matches the grammar and lists exactly that vocabulary |
| `Vocabulary.SectionExactly` | contract/conformance/vocabulary_checks.go:46-60 | a heading with one section sign and the wanted number after it is the wanted section if and only if the number does not go on in a word character |
| `Vocabulary.OtherSection` | contract/conformance/vocabulary_checks.go:46-60 | a heading of one section is not one of another whose number does not start what stands after the sign |
| `Vocabulary.NormativeSections` | contract/conformance/vocabulary_checks.go:46-60 | for every heading text around them, the two normative sections are recognised and told apart, and their tags can be printed |
| `DriftReport.CompareEvents` | contract/conformance/vocabulary_checks.go:175-187 | the loop with its reported keys reports each drifting type once per section, in order |
| `DriftReport.CheckEventVocabulary` | contract/conformance/vocabulary_checks.go:151-188 | the whole check fails for a SPEC without both blocks, or an empty stream, and else reports by the loaded blocks and the read events |
| `DriftReport.ReportsExactly` | contract/conformance/vocabulary_checks.go:175-187 | a type is reported if and only if an event has it that its version's section does not list and no vendor prefix exempts, and never twice |
| `DriftReport.DriftIsFound` | contract/conformance/vocabulary_checks.go:151-188 | end to end: of whatever a server writes, in any slicing, exactly the unlisted types are reported, each under the section of the protocol version it was written with |

## Left out

- OS keyring, Tauri commands, WebView2, GDI, GIO, NSWorkspace, Restart Manager and process signalling: only their effect on slot maps, file maps and process tables is modelled.
- The storage mutex of the credential store: calls are one at a time, and a poisoned lock is not modelled.
- HTTP handlers, upstream proxying and the other endpoint checks of the conformance suite: plumbing with one assertion per branch.
- `StreamTranslation.EventsNameTheOpenMessage`: is about the events of stream frames only; `runTurn` also broadcasts `message.created` for whole assistant and user frames (streaming.go:119-124), which may come between.
- `EventPipeline.MessageArrives`: other broadcasts may name any message but the one it speaks of, so the final assistant frame, which replaces a streamed message by its id, is not modelled.
- Goroutine races: the response handler's unlocked check-and-set is one step, and a channel is closed only between broadcasts.
- Session status and the permission and message broadcasts around the protocol steps: the turn loop and the permission handler both write the status.
- Names that are not valid text, unreadable registry files, and pids outside the platform's range: the registry model sees readable text files.
- Directories or links in the place of staged files, and a launched application that edits the staging tree during its own launch.
- `extension`, `png_data_url` and `host_key`: pure functions a reading settles.
- Scanner limits of the vocabulary parser (a line over one megabyte) and file-open errors; lines are given, as text.
- Crush, OpenCode and Goose translators, the terminal UI, the web client and build scripts: not part of this model.
