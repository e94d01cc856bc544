# Feather Mail: verified core

A Dafny model of the parts of Feather Mail whose correctness is not visible from reading one
function: the confirmation protocol for local agents (MCP), the body and attachment caches, the
streaming transfer decoders, folder reconciliation, and the smaller codecs and algorithms around
them. `dafny verify dfyconfig.toml` checks everything.

Code that changes state step by step is modelled by classes and methods over the same tables, buffers and
loops; each is proved against a function that says what it comes to, and the theorems are lemmas
about that function, about whole runs, or about an independent reader of what was written.

| file | models | of |
|---|---|---|
| `McpPolicy`, `McpRuns`, `McpCore` | the policy and confirmation state machine, its runs, and the doors as a class | `crates/core/src/mcp.rs` |
| `McpLevels`, `McpApprovals`, `McpWitnesses` | whom the doors turn away and what they answer; what an approval is good for over runs of the real doors; runs that show where a condition fails | `crates/core/src/mcp.rs`, `crates/mcp/src/lib.rs` |
| `McpFingerprint` | what an approval is bound to | `crates/core/src/mcp.rs` |
| `CacheEviction`, `BodyCrash`, `BodySteps`, `BodyProjection` | budget sweeps, crash safety of cached bodies and their steps one by one, the columns that repeat message data | `crates/core/src/body.rs` |
| `TransferCodec`, `TransferAlphabets`, `TransferStream` | base64 and quoted-printable machines; bounded streaming | `crates/attachments/src/lib.rs` |
| `FolderSync`, `FolderAdoption`, `FolderLinks` | merging a server LIST into the folder table; which rows it takes over; the tree of folders that comes of it | `crates/core/src/remote.rs` |
| `CivilDate`, `Paging` | UTC dates and date groups; cursor pages and headers | `crates/core/src/model.rs`, `crates/core/src/fake.rs` |
| `Crc32`, `StoredZip` | the checksum and the one-file archive | `crates/core/src/diagnostics.rs` |
| `FrozenTargets` | the frozen target list of a permanent delete | `crates/core/src/store.rs`, `crates/core/src/locator.rs` |
| `Linkifier`, `LinkSpans`, `Preview` | links in plain text; HTML reduced to text | `crates/app/src/html_view.rs`, `crates/core/src/preview.rs` |
| `SettingsCodec`, `SettingsStore`, `SettingsByKey` | the settings table, its handles and the batching writer | `crates/core/src/settings.rs`, `crates/app/src/settings_writer.rs` |
| `Ordering`, `Decimal`, `Characters`, `Wrappers` | sorting and byte order, decimal numbers, character classes, `Option` | the standard library |

## Conventions

- A committed transaction is one step. A returned error or a refusal drops the transaction, and the
  step leaves the tables as they were.
- In the MCP, folder and frozen-target files a text is its UTF-8 bytes, one `char` a byte, so
  lengths and the byte order of `str` are exact. In `BodyProjection`, `Linkifier`, `Preview` and
  `SettingsCodec` a `char` is a Unicode scalar value.
- SHA-256 with its rendering is a parameter `digest`; theorems that need it say `CollisionFree(digest)`.
- Effects behind a door (queueing a send, a batch, a folder deletion), commits of a settings
  flush, reads, writes and the last flush of a stream, and unlinking of a file succeed or fail as a
  parameter or an event says, and every outcome is covered. In `BodyCrash` any file or database step of
  any handle may return its error instead, and a crash may undo file changes and lose the last commits of
  the database.
- Clock readings are parameters of each step, in any order unless a lemma asks for one.
- Widths are written out where they matter: the 32-bit base64 register, the u32 archive offset, the
  i32 year, u8/i32/u64 settings, u32 UIDs. Counters that stay far below their width are unbounded.

## What the proofs found

Each of these is proved in the file named.

- A one-time approval that expires before it is used keeps its key shut: from then on the doors
  neither go ahead nor ask again until the client is revoked or changes level, or the account is
  removed, unless a grant lets them pass (`McpRuns.LapsedApprovalLocksKey`, for clock readings past
  the expiry; `McpWitnesses.ApprovalLapses` is such a run).
- The general gate takes capability and fingerprint from its caller, and its requests share a table
  with the high-risk doors: an approval about some target and no account can be spent by a batch
  deletion (`McpWitnesses.GeneralGateLendsApproval`). An approval a batch spends was asked for by that
  batch exactly when it was not asked for through the general gate (`McpApprovals.BatchAskedIff`); the
  tool dispatcher never sends those capabilities there, so as it is called every approval is for what
  was asked (`McpApprovals.ApprovedBatchIsTheAskedBatch` and the two beside it).
- A denial is not final: removing the account it names forgets it, exactly then
  (`McpRuns.DeniedForever`), and the same question is put to the window again
  (`McpWitnesses.RemovedAccountForgetsDenial`, `McpWitnesses.DenialIsForgotten`).
- Two handles that store the same body at the same time share its temporary file, and a reader can
  then be given bytes nobody stored. A store is harmless exactly when no other handle is at that file
  (`BodyCrash.ConcurrentStoresOfOneBody`).
- The documentation of `sync_folders` says that a mailbox whose parent is not found ends at top
  level; the code keeps whatever parent its row had. `FolderLinks.PlacedAsListedIff` gives the exact
  condition, and `FolderLinks.StaleParentClosesACycle` an adopted tombstone whose old parent is then
  linked under it, so that the two are each other's ancestor. The adoption and the closing of the cycle
  can be two syncs apart (`FolderLinks.TwoSyncsCloseACycle`). From any acyclic table with existing
  parents, `FolderLinks.SyncStaysAcyclicIff` says from the table and the LIST alone exactly which syncs
  close a cycle, and `FolderLinks.SyncsStayAcyclicIff` says it of any number of syncs.
- Following `next` can show a thread twice: one whose date moves back between two pages
  (`Paging.RedatedThreadIsShownTwice`, and in general `Paging.MovedBackIsShownAgain`). It cannot while
  dates stay (`Paging.WalkNeverRepeatsIff`, `Paging.UndatedChangesRepeatNothing`).
- A frozen payload cut inside the digits of a UID names another message
  (`FrozenTargets.CutUidNamesAnother`); `FrozenTargets.TruncatedIsAFrontIff` and
  `FrozenTargets.TruncatedNamesFrozenIff` say exactly when it does not. A UID beyond u32, which the writer
  accepts, ends the list when it is read back (`FrozenTargets.PayloadReadsBack`).
- Before 0000-03-01 `ymd_utc` floors twice and is right only on the last day of each 400-year era
  (`CivilDate.DateCountsBackIff`).
- The end record's directory offset is a u32 sum that is true exactly when the headers and the report fit
  in 32 bits together (`StoredZip.OffsetIsTrueIff`; a debug build panics instead of wrapping).
- An entity the previewer does not know is kept, but its semicolon is dropped
  (`Preview.UnknownReferenceLosesSemicolon`).
- An account id that is empty, or a muted id that ends in a carriage return before another id, does
  not survive its settings row (`SettingsStore.ReadsBackIff`, `SettingsCodec.NamesReadBackIff`).
- `repair_snippet_batch` with a limit of 0 reports nothing remaining whatever is queued
  (`BodyProjection.Profile.RepairSnippetBatch`).

## Model

| member | source | states |
|---|---|---|
| McpPolicy.StepKeepsValid | crates/core/src/mcp.rs:328-948 | every step keeps: a disabled client has no grant and no pending or approved request; at most one pending, approved or denied request a key; ids below the counter |
| McpRuns.RowStep | crates/core/src/mcp.rs:371-426 | all that one step of any door or decision can do to an existing request, with the reason for each change; a row leaves only with its account |
| McpRuns.RowBirth | crates/core/src/mcp.rs:444-460 | a request appears only pending, under a fresh id, from the door that reports it, when nothing of its key blocks |
| McpRuns.GrantBirth | crates/core/src/mcp.rs:690-752 | a grant appears only by Always-allow of a pending, unexpired request of that client and capability |
| McpRuns.RefusalChangesNothing | crates/core/src/mcp.rs:371-426 | a refusal or an error leaves every table as it was, so nothing is consumed by a door that fails after its gate |
| McpLevels.HighRiskTurnedIff | crates/core/src/mcp.rs:1019-1155 | a high-risk door turns away exactly: a bad identifier, the switch off, a client not enabled, a ceiling or a stored level other than Full, or a stored refusal of its key; otherwise it answers as below |
| McpLevels.SendTurnedIff | crates/core/src/mcp.rs:328-470 | so does the send door, with Send or Full sufficient |
| McpLevels.AuthorizeTurnedIff | crates/core/src/mcp.rs:481-641 | so does the general gate, level by required level, with or without confirmation |
| McpLevels.GateAnswers | crates/core/src/mcp.rs:371-460 | what a gate answers, by whatever stands for its key: an Always-allow lets the action pass, an approval in time is spent, a request in time is shown again, a denial or lapsed approval refuses, and else a request of 120 seconds is recorded |
| McpLevels.ReenabledStartsOver | crates/core/src/mcp.rs:832-868 | exactly the disabled stdio profile under an open switch is enabled again, at Draft |
| McpRuns.AheadIffApproved | crates/core/src/mcp.rs:556-593 | without a grant, an action that needs confirmation goes ahead exactly when its checks pass, its effect succeeds and an unexpired one-time approval of its key exists |
| McpRuns.LapsedApprovalLocksKey | crates/core/src/mcp.rs:391-426 | over any run whose clock is past its expiry, an unspent approval stands as it was exactly until its client is revoked or changes level or its account is removed; until then every door of its key refuses, fails or goes by a grant |
| McpWitnesses.ApprovalLapses | crates/core/src/mcp.rs:391-426 | such a run from an empty table: asked, approved, come back too late, refused, the row untouched |
| McpRuns.RunKeepsValid | crates/core/src/mcp.rs:328-948 | the step invariant in every state of every run |
| McpRuns.DisabledHasNothing | crates/core/src/mcp.rs:787-925 | in every reachable state a disabled client has no grant and no live request |
| McpRuns.LifeCycle | crates/core/src/mcp.rs:711-748 | over any run statuses only move forward, the rest of a request is fixed, and a request that is gone never returns |
| McpRuns.RowStaysIff | crates/core/src/store.rs:2602-2663 | over any run a request is there exactly as long as the account it names is not removed |
| McpRuns.AskedSince | crates/core/src/mcp.rs:444-460 | a live request of a client that was clean at some point was asked for after that point |
| McpRuns.ApprovedSince | crates/core/src/mcp.rs:690-752 | an approved request of a client that was clean at some point was approved, unexpired, after that point |
| McpRuns.GrantedSince | crates/core/src/mcp.rs:690-752 | a grant of a client that was clean at some point comes from an Always-allow after that point |
| McpRuns.ConfirmedActionJustified | crates/core/src/mcp.rs:328-641 | every confirmed action that goes ahead rests on a request and then a decision, both since its client was last clean |
| McpRuns.OneShot | crates/core/src/mcp.rs:371-426 | from an empty request table, an ungranted confirmed action spends a request asked for earlier with the same key, approved once while unexpired, and unexpired when spent |
| McpRuns.SpentStaysSpent | crates/core/src/mcp.rs:371-426 | a spent request stays consumed |
| McpRuns.OneShotInjective | crates/core/src/mcp.rs:371-426 | two actions never spend one request |
| McpRuns.ConsumedOnlyBySpending | crates/core/src/mcp.rs:1062-1110 | a request becomes consumed exactly when an action goes ahead on it |
| McpApprovals.BatchAskedIff | crates/core/src/mcp.rs:183-228 | an approval that a batch spends was asked for by a batch of that capability, account and set of threads, as many as its dialog showed, exactly when it was not asked for through the general gate |
| McpApprovals.ApprovedBatchIsTheAskedBatch | crates/core/src/mcp.rs:183-228 | in every run in which the general gate is not asked for what has a door of its own, the batch that goes ahead is the batch the approval was asked for |
| McpApprovals.ApprovedFolderIsTheAskedFolder | crates/core/src/mcp.rs:245-286 | so is the folder, and the dialog showed that account and folder, under the same exact condition |
| McpApprovals.ApprovedSendIsTheAskedSend | crates/core/src/mcp.rs:328-470 | so is the draft, at the revision the dialog was about |
| McpWitnesses.GeneralGateLendsApproval | crates/core/src/mcp.rs:481-491 | without that condition: for every batch, a run in which it spends an approval shown for another target and no account |
| McpRuns.BoundaryCleans | crates/core/src/mcp.rs:787-925 | a revoke, re-enable or real level change leaves the client without grants and live requests |
| McpRuns.NothingSurvivesBoundary | crates/core/src/mcp.rs:787-925 | after such a boundary every confirmed action rests on a request and a decision made after it |
| McpRuns.DeniedForever | crates/core/src/mcp.rs:391-442 | a denied request stays, denied, exactly as long as its account is not removed; meanwhile its key gets no new request and only a grant lets its doors pass |
| McpWitnesses.RemovedAccountForgetsDenial | crates/core/src/store.rs:2602-2663 | from any tables with a denied request about an account: once the account is removed and added again, the same action asks the window again |
| McpWitnesses.DenialIsForgotten | crates/core/src/store.rs:2602-2663 | such a run from an empty table |
| McpCore.Core.AuthorizeMcpAction | crates/core/src/mcp.rs:481-641 | the first gate, branch by branch, takes the Authorize step and answers its outcome |
| McpCore.Core.QueueMcpDraftSend | crates/core/src/mcp.rs:328-470 | the send door takes the SendDraft step, its effect failing or not |
| McpCore.Core.HighRiskGate | crates/core/src/mcp.rs:1019-1155 | the shared gate of the high-risk doors, whose rows the caller commits or drops, comes to the HighRisk step |
| McpCore.Core.QueueMcpHighRiskBatch | crates/core/src/mcp.rs:183-228 | a batch door refuses bad identifiers, errs on an unacceptable batch, and otherwise takes the HighRisk step under the batch fingerprint |
| McpCore.Core.QueueMcpDeleteFolder | crates/core/src/mcp.rs:245-286 | the folder door does the same under the folder fingerprint |
| McpCore.Core.ResolveMcpConfirmation | crates/core/src/mcp.rs:690-752 | a decision takes the Resolve step: only a pending, unexpired request takes it |
| McpCore.Core.RevokeMcpClient | crates/core/src/mcp.rs:787-826 | a revoke disables, drops grants and retires live requests, or does nothing |
| McpCore.Core.ReenableMcpClient | crates/core/src/mcp.rs:832-868 | only the switched-on stdio profile that is off starts again, at Draft and without grants |
| McpCore.Core.SetMcpClientPermissionLevel | crates/core/src/mcp.rs:877-925 | a real level change drops grants and invalidates live requests; the same level does nothing |
| McpCore.Core.SetMcpEnabled | crates/core/src/mcp.rs:932-947 | the switch, and the default profile enrolled once |
| McpCore.Core.ListPendingMcpConfirmations | crates/core/src/mcp.rs:645-685 | the expiry sweep, then the waiting requests asked first, in order, as many as asked for but one to twenty; whichever is left out was asked later |
| McpCore.SelectPending | crates/core/src/mcp.rs:645-685 | the same for any request table |
| McpFingerprint.ComputeBatchFingerprint | crates/core/src/mcp.rs:1188-1230 | sorts, rejects duplicates and bad identifiers, and feeds the digest the framed pre-image, exactly for acceptable batches |
| McpFingerprint.ComputeFolderFingerprint | crates/core/src/mcp.rs:1161-1180 | the same for one folder |
| McpFingerprint.AcceptableIs | crates/core/src/mcp.rs:1188-1219 | what may be asked for: 1 to 100 different threads, two deletions by name, identifiers of 1 to 256 bytes without control characters |
| McpFingerprint.BytesOfABatch | crates/core/src/mcp.rs:1214-1235 | the hash input of a batch of one thread, byte by byte |
| McpFingerprint.BytesOfAFolder | crates/core/src/mcp.rs:1161-1180 | and that of a folder deletion |
| McpFingerprint.BytesOfASend | crates/core/src/mcp.rs:370 | the text of a send, written out |
| McpFingerprint.AnyRepeated | crates/core/src/mcp.rs:1207-1212 | comparing neighbours of the sorted ids finds exactly the lists with a repeat |
| McpFingerprint.BatchPreimageBinding | crates/core/src/mcp.rs:1188-1230 | two accepted batches have one hash input exactly when capability, account and set of targets agree |
| McpFingerprint.FolderPreimageBinding | crates/core/src/mcp.rs:1161-1180 | two folder deletions have one hash input exactly when account and folder agree |
| McpFingerprint.ShapesNeverMeet | crates/core/src/mcp.rs:1157-1186 | no hash input is shared by a batch and a folder deletion |
| McpFingerprint.BatchFingerprintBinding | crates/core/src/mcp.rs:1188-1230 | the stored texts of two batches are equal exactly when capability, account and set of targets agree |
| McpFingerprint.FingerprintShapesDisjoint | crates/core/src/mcp.rs:1161-1230 | a batch, a folder deletion and a send never share a stored text |
| McpFingerprint.SendFingerprintInjective | crates/core/src/mcp.rs:370 | the send fingerprint names one draft id and revision, colons in ids included |
| CacheEviction.Sweep | crates/core/src/body.rs:727-738 | the loop with its running total evicts the shortest segment of the order without the exempt entry that reaches the limit, unlinking those files |
| CacheEviction.EnforceLimit | crates/core/src/body.rs:676-753 | a sweep of a table clears exactly those rows and files and counts them |
| CacheEviction.CacheTables.EnforceBodyCacheLimitKeeping | crates/core/src/body.rs:676-753 | the body sweep, by recent read, mail date and id, leaves the total in budget or only the exempt body cached |
| CacheEviction.CacheTables.EnforceAttachmentCacheLimitKeeping | crates/core/src/body.rs:795-872 | the attachment sweep, by mail date and id, counting declared sizes of unmeasured rows |
| CacheEviction.SweepFitsLimit | crates/core/src/body.rs:700-753 | after a sweep the counted bytes are those of the rows that stayed, and fit the limit or only the exempt row has a file |
| CacheEviction.EarlierGoesFirst | crates/core/src/body.rs:700-753 | no row is spared while a later one in the order goes |
| CacheEviction.OlderBodiesGoFirst | crates/core/src/body.rs:700-753 | a body read in the last two days goes only after every body that was not, and among bodies alike in this one goes only after those of older mail: no date first, then date, then id |
| CacheEviction.OlderAttachmentsGoFirst | crates/core/src/body.rs:795-872 | an attachment goes only after every attachment of older mail |
| CacheEviction.CountedIsMeasuredAndDeclared | crates/core/src/body.rs:676-700 | the sum of a sweep is that of the measured sizes, and of the declared ones where nothing was measured |
| CacheEviction.ProtectedGoLast | crates/core/src/body.rs:700-753 | a recently read body goes only after every other body that was not |
| BodyCrash.StepKeepsSound | crates/core/src/body.rs:435-497 | with several handles, errors at any step and a crash between any two file or database steps that may lose files and commits, files in place are complete versions of their own body |
| BodyCrash.LookupReturnsStoredContents | crates/core/src/body.rs:350-395 | over any such run, Cached(b) is only answered when b was given complete to an earlier store of that same message |
| BodyCrash.ReadMissesOnlyAfterLoss | crates/core/src/body.rs:350-395 | over any run a lookup that reads the file answers Cached exactly when it is in place, and otherwise NotCached, and then a crash or an eviction took it and nothing has put it back |
| BodyCrash.MissedSince | crates/core/src/body.rs:350-395 | a file that the database, a state it may fall back to, a store about to commit or a lookup counts on is missing only since a crash or an eviction took it |
| BodyCrash.StoreThenLookup | crates/core/src/body.rs:435-497 | in any run: a store, among steps of other handles that keep away from it, then steps that spare the body, then a lookup, give the stored bytes |
| BodyCrash.StoreLeavesBodyInPlace | crates/core/src/body.rs:435-497 | nothing stops a store while no other handle is at its temporary file |
| BodyCrash.SparedBodyStaysOverRun | crates/core/src/body.rs:676-753 | steps that neither replace, evict nor drop a body, crashes that lose neither its file nor its commit included, leave it cached |
| BodyCrash.ConcurrentStoresOfOneBody | crates/core/src/body.rs:1290-1309 | from every sound state: a store of some bytes is harmless, whatever follows, exactly when no other handle is at the temporary file of that body |
| BodyCrash.UnguardedStoreHarms | crates/core/src/body.rs:1290-1309 | otherwise steps that are all allowed lead to an empty body being read |
| BodyCrash.OneWriterIsReached | crates/core/src/body.rs:435-497 | such a state is one step from an empty cache |
| BodySteps.AnswersAre | crates/core/src/body.rs:350-395 | an unknown message, a message without a cached body, a missing file and a failed step are told apart or alike as the source tells them |
| BodySteps.RowChangesOnlySo | crates/core/src/body.rs:435-497 | the whole of what any step does to the row and pointer of one message |
| BodySteps.FileChangesOnlySo | crates/core/src/body.rs:1290-1309 | the whole of what any step does to the file of one message |
| BodySteps.HandleMovesOnlySo | crates/core/src/body.rs:435-497 | no step moves another handle, and a handle takes its steps in order |
| BodySteps.EvictionEvicts | crates/core/src/body.rs:727-753 | an eviction carried through leaves its victims without file and pointer and everything else as it was |
| BodyProjection.PreviewKeepsAgreement | crates/core/src/body.rs:603-655 | a new preview carried to the thread when its message is the latest keeps every thread's snippet that of its latest message |
| BodyProjection.LatestUnique | crates/core/src/body.rs:603-610 | a thread has at most one latest message by date and id |
| BodyProjection.Profile.StoreCachedBodyMetadata | crates/core/src/body.rs:624-655 | pointer, size, preview and attachment rows of the message; of the threads only its own, whose flag is the OR over its messages and whose snippet becomes the preview exactly when the message is its latest; in one transaction that keeps snippets in agreement |
| BodyProjection.Profile.RecordAttachmentMetadata | crates/core/src/body.rs:1110-1205 | the message's attachment rows become those of the parsed parts, other messages' rows stay, and the thread's flag is the OR over its messages |
| BodyProjection.Profile.RepairSnippetBatch | crates/core/src/body.rs:521-622 | a batch repairs the first queued messages, removes them from the queue, counts exactly those whose preview differed and what remains, and changes threads only as below |
| BodyProjection.Profile.RepairOne | crates/core/src/body.rs:543-588 | one queued message takes the preview of its readable body, counted when it differed, and leaves the queue either way; no thread changes but in its snippet, and that only to the new preview of its latest message |
| BodyProjection.Profile.DrainRepairs | crates/core/src/body.rs:521-622 | repeated batches empty the queue, changing threads only so |
| BodyProjection.DrainedPreviews | crates/core/src/body.rs:521-622 | afterwards every queued message with a readable body shows that body's preview and every other message is as it was |
| BodyProjection.ReRecordingChangesNothing | crates/core/src/body.rs:1110-1205 | storing the same bytes again changes no attachment row, so every download stays known |
| BodyProjection.PointersSurvive | crates/core/src/body.rs:1110-1205 | a part that keeps its ordinal over two versions of a body keeps its file |
| BodyProjection.RowIdInjective | crates/core/src/body.rs:1110-1205 | attachment row ids name one message and ordinal, colons in ids included |
| BodyProjection.NamesAre | crates/core/src/body.rs:1110-1205 | a part keeps its name unless that is blank, and is otherwise numbered from one |
| TransferCodec.Base64MachineDecodes | crates/attachments/src/lib.rs:168-192 | the truncating 32-bit register decodes every text as groups of sextets do |
| TransferCodec.Base64RoundTrip | crates/attachments/src/lib.rs:168-192 | it inverts every encoding of section 4 of RFC 4648, line breaks anywhere (section 6.8 of RFC 2045) |
| TransferCodec.QuotedMachineDecodes | crates/attachments/src/lib.rs:194-251 | the quoted-printable machine with its re-push comes to a reading with lookahead, on every text |
| TransferCodec.QuotedRoundTrip | crates/attachments/src/lib.rs:194-251 | it inverts every section 6.7 of RFC 2045 encoding, for any choice of escapes, case and soft breaks |
| TransferAlphabets.SextetsAre | crates/attachments/src/lib.rs:173-181 | the alphabet of table 1 of section 4 of RFC 4648, in its order |
| TransferAlphabets.OnlySymbolsHaveSextets | crates/attachments/src/lib.rs:173-181 | no other byte has a value |
| TransferAlphabets.Base64ReadsPastTheRest | crates/attachments/src/lib.rs:168-192 | an encoding with any other bytes mixed in comes back as the data encoded |
| TransferAlphabets.BreaksAndEscapes | crates/attachments/src/lib.rs:194-251 | what escapes and soft breaks are, byte by byte |
| TransferAlphabets.HexDigitsAre | crates/attachments/src/lib.rs:253-260 | the digits of an escape, in either case |
| TransferStream.DecodeBounded | crates/attachments/src/lib.rs:89-134 | however the input is split into reads: success exactly when all reads and writes and the last flush succeed and the whole decoding fits the limit, then exactly that is written and its length returned; otherwise a prefix within the limit |
| TransferStream.CopyBounded | crates/attachments/src/lib.rs:262-287 | the same for plain copies |
| TransferStream.Output.PushDecoded | crates/attachments/src/lib.rs:136-157 | a byte joins the output unless the limit or the destination refuses, and the pending buffer never passes STREAM_CHUNK |
| TransferStream.Base64State.Push | crates/attachments/src/lib.rs:173-191 | one byte through the register takes the machine's step |
| TransferStream.QuotedPrintableState.Push | crates/attachments/src/lib.rs:202-234 | one byte through the escape state, re-pushing it after an abandoned escape, writes the machine's bytes |
| TransferStream.ConsumedDecodes | crates/attachments/src/lib.rs:110-133 | what the machines wrote byte by byte, plus what finishing adds, is the decoding of the whole input |
| TransferStream.PartIsPrefix | crates/attachments/src/lib.rs:110-133 | what is written for part of an input is a prefix of its decoding |
| FolderSync.RemoteIdSlug | crates/core/src/remote.rs:297-317 | the loop gives the lower-cased words of letters and digits joined by single dashes, or folder |
| FolderSync.UniqueFolderId | crates/core/src/remote.rs:268-291 | the search ends, on the first candidate that no row has |
| FolderSync.TakenBound | crates/core/src/remote.rs:268-291 | pigeonhole: no more candidates in a row are taken than there are ids |
| FolderSync.Folders.SyncFolders | crates/core/src/remote.rs:125-142 | the two passes come to Synced, and an unknown account changes nothing |
| FolderSync.Folders.SyncOneFolder | crates/core/src/remote.rs:147-253 | match by remote id, adopt a placeholder, or insert, as SyncOne says |
| FolderSync.Folders.LinkParent | crates/core/src/remote.rs:322-347 | the parent's id is written exactly when both rows are found |
| FolderSync.SyncKeepsRows | crates/core/src/remote.rs:125-142 | ids and remote ids stay unique; every row keeps its id, account and remote id; other accounts keep everything; a row being deleted stays hidden |
| FolderSync.SyncListsEachMailboxOnce | crates/core/src/remote.rs:147-253 | every listed mailbox has exactly one row, showing its name, kind and delimiter |
| FolderSync.SyncSparesTheRest | crates/core/src/remote.rs:93-108 | any row that shows no listed mailbox was there before and is exactly as it was |
| FolderSync.AdoptionDropsSyncState | crates/core/src/remote.rs:211-235 | sync state is dropped for adopted placeholders and nothing else |
| FolderAdoption.UnknownTakesWaiting | crates/core/src/remote.rs:147-253 | the k-th listed mailbox of a name that no row has takes over the k-th row of that account and name without a remote id, deleted or not, and that row keeps its id; without one it gets a new row |
| FolderAdoption.AddedOnlyWithoutWaiting | crates/core/src/remote.rs:236-253 | a row is added only for such a mailbox that found none |
| FolderAdoption.TableGrowsIff | crates/core/src/remote.rs:147-253 | the table grows exactly when some name has more of the ones than of the others |
| FolderSync.SyncLinksParents | crates/core/src/remote.rs:322-347 | a listed mailbox ends under its parent wherever that sits in the LIST, and otherwise keeps the parent its row had |
| FolderSync.ParentFoundIff | crates/core/src/remote.rs:322-347 | the second pass finds a mailbox's parent exactly when the LIST names it or a row already does |
| FolderLinks.SyncFollowsPlan | crates/core/src/remote.rs:147-253 | which placeholder rows a LIST adopts and which mailboxes it adds, and so the remote id of every row, told from the table and the LIST before the call |
| FolderLinks.LinksAsPlanned | crates/core/src/remote.rs:125-142 | every link after the call, told from the table and the LIST before it |
| FolderLinks.SyncKeepsRooted | crates/core/src/remote.rs:322-347 | parents go on existing and stay in their account |
| FolderLinks.PlacedAsListedIff | crates/core/src/remote.rs:110-117 | a mailbox ends where the server lists it exactly when its parent is listed or a row already, or the row planned for it had no parent |
| FolderSync.SyncIdempotent | crates/core/src/remote.rs:125-142 | syncing the same LIST again changes nothing |
| FolderLinks.SyncIsTidyIff | crates/core/src/remote.rs:322-347 | whatever the table was, with parent names proper prefixes, every server row ends under a server row with a shorter name exactly when no row is loose: a server row the LIST does not place that keeps a link to a row without a shorter name |
| FolderLinks.LooseFromTidyIsAdopted | crates/core/src/remote.rs:194-221 | from a tidy table only an adopted placeholder with a stale parent comes loose |
| FolderLinks.SyncKeepsAcyclic | crates/core/src/remote.rs:322-347 | a sync that leaves no row loose closes no cycle and leaves the table tidy |
| FolderLinks.SyncStaysAcyclicIff | crates/core/src/remote.rs:322-347 | from any acyclic table with existing parents a sync closes a cycle exactly when a loose row climbs back to itself along the links to come |
| FolderLinks.SyncsStayAcyclicIff | crates/core/src/remote.rs:125-142 | over any number of syncs the folders stay acyclic throughout exactly when that happens at none of them |
| FolderLinks.StaleParentClosesACycle | crates/core/src/remote.rs:194-221 | a tombstone adopted with its old parent closes a cycle |
| FolderLinks.TwoSyncsCloseACycle | crates/core/src/remote.rs:194-221 | so do two syncs, the second of which adopts and adds nothing |
| CivilDate.NoUnderflow | crates/core/src/model.rs:7-19 | no unsigned subtraction underflows and no u8 cast loses anything, for any timestamp |
| CivilDate.RangeIsExact | crates/core/src/model.rs:7-19 | the range below is exactly the timestamps from 0000-03-01 whose year fits i32 |
| CivilDate.DateIsValid | crates/core/src/model.rs:7-19 | from 0000-03-01, in a year that fits i32, the result is a valid Gregorian date that counts back to its day |
| CivilDate.DateCountsBackIff | crates/core/src/model.rs:7-19 | for every timestamp: it counts back exactly when the year fits and the day is not before 0000-03-01 or ends an era |
| CivilDate.EpochDate | crates/core/src/model.rs:7-19 | timestamp 0 is 1970-01-01 |
| CivilDate.DatesFollowTheCalendar | crates/core/src/model.rs:7-19 | two dates are as many steps of the calendar apart as their days are |
| CivilDate.NextDayFollows | crates/core/src/model.rs:7-19 | consecutive days are calendar successors under the 4/100/400 rule |
| CivilDate.DayNumberInjective | crates/core/src/model.rs:7-19 | no two valid dates count the same number of days |
| CivilDate.GroupCountsCalendarDays | crates/core/src/model.rs:1197-1205 | the group labels say how many calendar days ago the mail is |
| Crc32.ComputeCrc32 | crates/core/src/diagnostics.rs:280-289 | the nested loops with the mask compute Crc |
| Crc32.StepIsABijection | crates/core/src/diagnostics.rs:284-286 | the register step loses nothing, both ways |
| Crc32.WindowChangesCrc | crates/core/src/diagnostics.rs:280-289 | inputs that agree outside at most four consecutive bytes have equal checksums exactly when they are equal |
| Crc32.ResidueIff | crates/core/src/diagnostics.rs:280-289 | four appended bytes leave the fixed residue exactly when they are the checksum, low byte first |
| Crc32.CrcAffine | crates/core/src/diagnostics.rs:280-289 | the checksum is affine over equal-length inputs |
| Crc32.CheckValue | crates/core/src/diagnostics.rs:280-289 | polynomial, bit order and inversions are those of the standard: the checksum of one letter |
| StoredZip.ZipFile.WriteSingleFileZip | crates/core/src/diagnostics.rs:222-270 | long names and reports are refused before the file is touched; otherwise the file is Archive |
| StoredZip.ArchiveRoundTrip | crates/core/src/diagnostics.rs:222-270 | for every accepted name and report: a reader of sections 4.3.7, 4.3.12 and 4.3.16 of PKWARE APPNOTE gets back exactly them when headers and report fit 32 bits, and refuses the file when they do not |
| StoredZip.OffsetIsTrueIff | crates/core/src/diagnostics.rs:241-268 | the stated directory offset is the true one exactly when headers and report fit 32 bits |
| StoredZip.FramedPieces | crates/core/src/diagnostics.rs:222-270 | where header, name, report, directory and end record sit |
| StoredZip.SignaturesAre | crates/core/src/diagnostics.rs:228-261 | the signatures of the three headers, byte by byte |
| StoredZip.DamageIsRefused | crates/core/src/diagnostics.rs:222-289 | damage within four consecutive bytes of the report never reads as a report |
| FrozenTargets.PermanentDeleteTargets | crates/core/src/locator.rs:275-314 | the scanning loops compute Targets |
| FrozenTargets.EscapeIsJsonEscape | crates/core/src/store.rs:3520-3522 | two replacement passes escape each character on its own |
| FrozenTargets.OnePayload | crates/core/src/store.rs:3755-3789 | the text of a payload, written out |
| FrozenTargets.FrozenIff | crates/core/src/store.rs:3755-3789 | exactly the rows with a mailbox and a UID are frozen |
| FrozenTargets.PayloadReadsBack | crates/core/src/store.rs:3755-3789 | the payload reads back as written up to the first UID beyond u32, and wholly exactly when there is none, even for names containing the markers |
| FrozenTargets.TruncatedKeeps | crates/core/src/locator.rs:267-314 | a truncated payload gives no more entries, the same folders in order, and every UID but possibly the last, which is a front of its digits |
| FrozenTargets.TruncatedIsAFrontIff | crates/core/src/locator.rs:267-314 | it reads as a front of the frozen list exactly when the cut does not fall inside a UID |
| FrozenTargets.TruncatedNamesFrozenIff | crates/core/src/locator.rs:267-314 | it names only frozen messages exactly when the cut does not fall inside a UID or what is left of that UID is frozen for that folder too |
| FrozenTargets.CutUidNamesAnother | crates/core/src/locator.rs:267-314 | a cut inside a UID names another message |
| Paging.ListPage | crates/core/src/fake.rs:327-402 | a page is the first rows behind its cursor, the last rows ahead of it, or the first rows, with cursors that say whether the list goes on; a vanished row's cursor resumes at the first older row |
| Paging.StartAfter | crates/core/src/fake.rs:351-364 | the loop finds where the rows behind the cursor begin |
| Paging.EndBefore | crates/core/src/fake.rs:365-377 | the two searches find where the rows ahead of the cursor end |
| Paging.FullListIsDescending | crates/core/src/fake.rs:283-295 | the list is exactly the listed threads in strict order |
| Paging.OlderIsBehind | crates/core/src/model.rs:1016-1018 | older than a cursor is behind it in the list's order |
| Paging.WalkKeepsOrder | crates/core/src/fake.rs:327-402 | whatever happens to the mailbox between pages, everything shown by following next is in strict order of date and id |
| Paging.WalkNeverRepeatsIff | crates/core/src/fake.rs:327-402 | no thread is shown twice exactly when each is shown at one date |
| Paging.UndatedChangesRepeatNothing | crates/core/src/fake.rs:327-402 | so none is while no thread changes its date, whatever comes, goes or changes otherwise |
| Paging.MovedBackIsShownAgain | crates/core/src/fake.rs:327-402 | a thread shown first that moves behind its page and stays there is shown again by every walk that ends |
| Paging.RedatedThreadIsShownTwice | crates/core/src/fake.rs:327-402 | three lists, each in order without repeats, over which one thread is shown twice |
| Paging.WalkMissesNothing | crates/core/src/fake.rs:327-402 | a walk that stops has shown every thread listed throughout at one date, whatever else about it changed |
| Paging.WalkIsTheList | crates/core/src/fake.rs:327-402 | over an unchanged list the walk stops and is the list behind its start |
| Paging.StampHeaders | crates/core/src/model.rs:1021-1036 | the loop with its carried label computes Stamped and Carried |
| Paging.StampedInPages | crates/core/src/model.rs:1021-1036 | stamping page by page with the carried label is stamping the whole |
| Paging.PagedRowsAreListRows | crates/core/src/fake.rs:404-407 | the rows built over pages are those of list_rows |
| Paging.HeadersStandOnce | crates/core/src/model.rs:1021-1036 | in a list in order each header stands at most once and every thread stands under the header of its own group |
| Linkifier.FindLinkSpan | crates/app/src/html_view.rs:479-521 | the scan and the trimming loop give the longest untrimmable front before the first stop, if it is more than a scheme |
| Linkifier.SpanIsLink | crates/app/src/html_view.rs:427-521 | every span found is in bounds, non-empty, free of whitespace, controls and quotes, does not end a sentence and is never refused |
| Linkifier.PlainBodyMarkup | crates/app/src/html_view.rs:531-567 | the cursor loop renders the links taken from the left |
| Linkifier.EscapeReadsBack | crates/app/src/html_view.rs:569-573 | escaped text decodes to itself |
| Linkifier.MarkupReadsBack | crates/app/src/html_view.rs:531-567 | a reader of the markup finds text and anchors that never nest; dropping the anchors gives the text back, and each anchor shows the link it opens |
| Linkifier.NoLinkIsMissed | crates/app/src/html_view.rs:541-563 | no place before the next link starts a link |
| Linkifier.LinksStartOutsideWords | crates/app/src/html_view.rs:541-545 | no link is glued to the end of a word or of another link |
| LinkSpans.LinkSpanIff | crates/app/src/html_view.rs:479-521 | at every place of every text: n characters are a link exactly when they begin with one of the three schemes in any case and go on, hold no white space, control or quoting character, end in no sentence sign or unbalanced bracket, and no longer front is like that |
| LinkSpans.DecisionIs | crates/app/src/html_view.rs:427-444 | web addresses open, or ask if so set; mail asks; every other scheme is refused |
| LinkSpans.OneLinkRenders | crates/app/src/html_view.rs:531-567 | the markup of a link, written out |
| LinkSpans.EscapedIs | crates/app/src/html_view.rs:569-573 | which characters are named, which numbered and which kept |
| Preview.HtmlToText | crates/core/src/preview.rs:50-102 | the scanner's loop computes Text |
| Preview.WellFormedReads | crates/core/src/preview.rs:50-102 | text, references and tags read as the text, what the references stand for, and nothing from inside the tags |
| Preview.TagsAreIgnored | crates/core/src/preview.rs:55-67 | inputs that differ only inside tags read the same |
| Preview.BareTextIsKept | crates/core/src/preview.rs:68-102 | without a tag or a semicolon the text comes through unchanged, ampersands and all |
| Preview.DecimalReference | crates/core/src/preview.rs:108-132 | every decimal spelling of a scalar value decodes to it, apostrophe shortcut included |
| Preview.HexReference | crates/core/src/preview.rs:108-132 | so does every hexadecimal spelling, in either case |
| Preview.UnknownReferenceLosesSemicolon | crates/core/src/preview.rs:68-71 | an unknown reference is kept without its semicolon |
| Preview.EscapedTextComesBack | crates/core/src/preview.rs:50-102 | the scanner undoes the markup escaping of the reading pane |
| Preview.NamedReferences | crates/core/src/preview.rs:108-132 | the references known by name |
| Preview.OtherNamesAreKept | crates/core/src/preview.rs:108-132 | every other name is kept |
| Preview.NumbersAreKeptIff | crates/core/src/preview.rs:108-132 | a number is kept exactly when it is no scalar value |
| Preview.BareNumberSignsAreKept | crates/core/src/preview.rs:108-132 | so are number signs without digits |
| Preview.LongReferenceIsText | crates/core/src/preview.rs:68-102 | a reference of more than sixteen characters is text |
| SettingsCodec.NormalizeAllowedImageDomains | crates/core/src/settings.rs:458-475 | the loop with its seen set and cap, then the sort, computes NormalizedDomains |
| SettingsCodec.NormalizedIsFixed | crates/core/src/settings.rs:458-475 | the result is distinct valid hosts in byte order, no more than 500, and is left alone when normalised again |
| SettingsCodec.HostsAreKept | crates/core/src/settings.rs:458-475 | no host is made up, and none is dropped unless the list is full |
| SettingsCodec.NormalDomainIsFixed | crates/core/src/mailbox.rs:356-371 | a normalised host is its own normal form and holds no line break |
| SettingsCodec.HostIff | crates/core/src/mailbox.rs:356-371 | what stands between white space is a host, in lower case, exactly when it has 1 to 253 letters, digits, dashes and dots, and every dot stands singly and inside |
| SettingsCodec.NamesReadBackIff | crates/core/src/settings.rs:375-381 | muted ids read back exactly when none is empty, holds a line feed, or ends in a return that a line feed follows |
| SettingsStore.ClampIdempotent | crates/core/src/settings.rs:133-162 | each clamped field is left alone by clamping |
| SettingsStore.ClampAllIdempotent | crates/core/src/settings.rs:133-162 | so are the settings as a whole |
| SettingsStore.ReadsBackIff | crates/core/src/settings.rs:248-455 | a clamped value read back from its row is the value, whatever was there before, exactly when it is lasting |
| SettingsStore.Store.Load | crates/core/src/settings.rs:175-199 | loading applies every row, in any order, to the defaults and clamps |
| SettingsStore.Store.Patch | crates/core/src/settings.rs:205-211 | a patch clamps and marks dirty since the first change |
| SettingsStore.Store.Flush | crates/core/src/settings.rs:213-233 | a flush writes exactly the drifted keys or, when its commit fails, changes nothing and stays dirty |
| SettingsStore.Store.MaybeFlush | crates/core/src/settings.rs:236-245 | it flushes only once 750 ms have passed since the first change |
| SettingsStore.ApplyTo | crates/app/src/settings_writer.rs:117-140 | all patches in order, one flush, at most three attempts; when all fail nothing is lost from the handle |
| SettingsStore.FlushLoads | crates/core/src/settings.rs:213-233 | after a sole writer's flush the table loads as its settings, and the handle knows it |
| SettingsStore.FlushLoadsIff | crates/core/src/settings.rs:213-233 | exactly when no id is empty or broken by a line ending |
| SettingsStore.DisjointFlushesCommute | crates/core/src/settings.rs:164-172 | two handles that changed different keys reach one table in either order, loading both changes |
| SettingsStore.OneFlushLoadsTheSame | crates/app/src/settings_writer.rs:117-140 | a batch with one flush loads the same as a flush after each patch |
| SettingsByKey.ClampSettles | crates/core/src/settings.rs:133-162 | key by key, what a patch leaves: switches, choices, owners and muted ids unchanged, scale and widths at the nearer bound, a zero limit or width and an empty folder at its default, domains normalised |
| SettingsByKey.EmptyTableLoads | crates/core/src/settings.rs:101-130 | key by key, what a profile without rows starts as |
| SettingsByKey.SwitchReads | crates/core/src/settings.rs:320-338 | the four texts a switch reads, and no other |
| SettingsByKey.ChoiceReads | crates/core/src/settings.rs:328-455 | the names each choice reads, and no other |
| SettingsByKey.NumberReads | crates/core/src/settings.rs:328-455 | a number reads from every text that spells one of its type, and from no other |
| SettingsByKey.ReadsNumberIff | crates/core/src/settings.rs:328-455 | optional sign, digits, range, and no minus sign for an unsigned type |
| SettingsByKey.PlaceReads | crates/core/src/settings.rs:328-455 | an empty account is none, an empty folder the default |

## Left out

- McpApprovals.ApprovedSendIsTheAskedSend: the fingerprint names draft and revision; that a draft has one account is the primary key of its table, which is not modelled.
- McpCore: the echo fields of a confirmation answer other than id and expiry, the audit log, the events, and the spelling of levels and choices as text.
- McpPolicy: grants of value deny are honoured by the gates but no code writes one, and no step does here.
- CacheEviction.EnforceLimit: negative recorded sizes and overflow of SQL's SUM are not modelled.
- BodyCrash.LookupReturnsStoredContents: cache paths are taken to be distinct, and two handles are taken not to write one body at once; the second is shown to be needed.
- BodyCrash: what a second writer of one body writes after the first has renamed their file is not modelled.
- BodyProjection: the MIME parser and the previewer are parameters, and warm_bodies with its sessions is not modelled; read stamps only as the protection key of the sweep.
- TransferCodec.QuotedRoundTrip: white space that a transport adds before a line end, which section 6.7 of RFC 2045 asks decoders to delete, is not deleted by the code and not claimed.
- TransferStream: decode_to_file and stream_to_file, whose partial file and rename are operating system calls.
- FolderSync: the unique index on sibling names is taken not to be violated; where several placeholders share a name the first in row order is adopted; folder colours.
- Linkifier: GLib's escaper is modelled from its documented output, a NUL in the text is not; alphanumeric characters are a parameter.
- Preview: normalize_whitespace and bound_preview, which only split, join and cut.
- Paging: the list is sorted as threads where the source sorts their indexes; what makes a thread listed is a parameter; the undo stack and the mutators of the fixture store.
- SettingsStore: rows under unknown keys are neither read nor written and so left out; the channel and thread of the writer, its pause between attempts, and the busy timeout.
- SettingsStore.FlushLoads: for a handle that knew the table; a second writer's change to the same key is last-writer-wins and not claimed to survive.
- StoredZip: errors of the file itself.
- SQLite, file permissions, fsync, IMAP and SMTP sessions, the keyring, the HTML sanitizer and the user interface.
- nav, provider, mailbox forms, selection, notifications and mail_writer: small, and would only add easy members.
