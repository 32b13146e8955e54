# Habenula verification

A Dafny 4.11 model of the cores of the Habenula repository whose promises span
more than one function, with proofs of those promises. `dafny verify
dfyconfig.toml` checks the whole project.

**Audit chain.** `Utf16` and `EntryHash` model JavaScript strings, their UTF-8
bytes, and the length-prefixed framing that a row hash covers. `VerifyChain` is
the range verifier, `DecisionClosure` the closer check with its carry, `Walk`
and `WalkSummary` the paged walk and the exit code, `Dump` the file reader, and
`TamperEvidence` the reduction to a hash collision, and `RecordedTip` what an
earlier copy of the log anchors. SHA-256 is an arbitrary
function on bytes, the audit route an arbitrary sequence of answers, and the
dump's JSON an arbitrary line classifier.

**Token refresh.** `TokenRefresh` is a transition system: calls suspended at
awaits, one in-flight map, one row per service, and reconnects or disconnects
between any two awaits. Every encryption yields a ciphertext not seen before
(the AES-GCM nonce is random). `SingleFlight` is the refresher and its row store
as objects, one method per stretch of code between awaits.

**Run slot.** `RunSlot` is the claim protocol of `habenula up` over one record
file, for any number of processes, interleaved at every file operation.
`RunRecordFile` is the file and the processes as objects, and the claim loop run
alone. Taken as given: an exclusive create lands with its content in one step; a
conditional removal checks and unlinks in one step; claim times strictly
increase; pids are not reused; a run that goes on to spawn records its child's
pid before its claim reaches the stale bound.

**Config file.** `EnvFile` is the strict parser and its printer, `EnvLines` what
its line rules amount to, `ConfigFile` the first create and the absent-keys merge.

**Smaller cores.** `Trace` (trace lineage), `Policy` (policy evaluation), `Spend`
(the spend check in doubles), `Wrap` and `Layout` (display-width wrapping),
`ReplMeta`, `Completion` and `LineEditor` (the prompt). `Wrappers` and
`Sequences` hold shared shapes and sequence facts.

## What turned out not to hold as stated

- Paging does not agree with one pass on every list of rows. The in-range link
  check exempts a sequence-0 row (`packages/audit/src/verify-chain.ts:169`) and the
  seam check does not (`packages/audit/src/verify-chain.ts:236`), so each page edge
  whose upper row is a sequence-0 row of its neighbour's epoch, with another link
  than that neighbour's hash, reports one break more than one pass
  (`VerifyChain.PagingCounts`). The pages agree with one pass exactly when no edge
  has that shape (`VerifyChain.PagingKeepsBreaks`, `WalkSummary.PagingRefinesOnePass`).
  Over the wire the shape needs a negative sequence number, because the stall check
  (`packages/cli/src/audit/walk.ts:174-180`) lets only pages through that step down
  (`WalkSummary.AcceptedEdgesSafe`, `WalkSummary.NegativeNumbersDisagree`). The dump
  reader has no such check, so there rows out of chain order reach it, and the file
  agrees with the wire exactly when they do not show it at a batch edge
  (`Dump.FileAgreesWithWire`, `Dump.RepeatedRowsDisagree`).
- At a seam the link break of a row is reported before that row's own breaks. The
  break lists always agree as multisets and place by place when the edges are free
  of the shape; they agree as sequences exactly when, besides, no edge has both a
  broken link and an upper row that is broken by itself
  (`VerifyChain.PagesListAlikeIff`; `VerifyChain.PagesListDifferently` shows two
  pages in chain order whose lists differ).
- A clean verdict does not bind every row of the range it covered, as the format
  document says it does (`packages/engine/docs/architecture/audit-chain-format.md:125`).
  Nothing checks the order of rows, and the in-range check exempts a sequence-0 row,
  so within an epoch whatever stands before the newest sequence-0 row is free: any
  clean rows that end in that epoch can stand there instead, with the same tip and
  no break (`TamperEvidence.SpliceIsClean`; `TamperEvidence.SameTipOtherHistory`
  shows two such ranges, whatever the hash function). From that row on everything is
  bound (`TamperEvidence.SameTipSameHistory`), and in chain order that is the whole
  epoch (`TamperEvidence.ChainOrderIsAllBound`).
- The run slot is not exclusive under the listed assumptions alone: a record read
  young and without a pid, but judged only after the stale bound, is removed
  although its run has recorded a child since, because the removal compares
  `startedAt` alone (`packages/cli/src/engine/run-record.ts:168`).
  `RunSlot.LateJudgementBreaksTheSlot` is such a run. The exact condition is that
  the judgement is fair: the claim that it condemns is still stale as the file has
  it at that moment, or has left the file. `RunSlot.RemovalIsSafeIffFair` proves
  both directions, the safety theorems hold of every run of fair judgements, and
  `RunSlot.PromptRunsAreFair` says that judging a record as soon as it is read is
  enough.
- `mergeAbsentKeys` never adds a key named `__proto__`: it collects the absent keys
  on a plain object (`packages/cli/src/engine/config-file.ts:89`), which drops that
  assignment (`ConfigFile.ProtoIsDropped`). `ConfigFile.MergeIsUnionIff` gives the
  exact condition.
- After nothing but space a `#` does not start a comment: `KEY= # note` binds the
  text from the hash on (`packages/cli/src/engine/env-file.ts:163`, which trims
  before the comment is looked for), while the parser's own description
  (`packages/cli/src/engine/env-file.ts:68-75`) reads the line as a shell would.
  `EnvLines.CommentIsDroppedIff` gives the exact condition.
- A second merge changes nothing exactly when no absent key is an illegal variable
  name and no line printed for an absent variable is refused
  (`ConfigFile.SecondMergeChangesNothing`): an unclosed quote, say, is written as it
  is and makes the file unreadable.
- `layoutField` promises that no row with any of the value passes the terminal's
  edge at any width (`packages/cli/src/render/attribution.ts:405-432`). That holds of
  every value exactly when there are two columns for it, behind the prefix if they
  share a row and behind the indent (`Layout.FieldIsGuarded`); otherwise a
  double-width grapheme passes the edge.
- A paste can submit (`packages/cli/src/input/line-editor.ts:219-220` says that a
  pasted line break cannot). Inside the markers everything is literal text as long as
  it holds no Escape and no Ctrl-C (`LineEditor.PasteIsLiteral`), and a submission
  needs one of them before it (`LineEditor.SubmitNeedsBreakOut`); after an Escape the
  next line break acts as Enter (`LineEditor.PasteCanSubmit`). With a chooser open a
  pasted line break confirms the highlighted choice (`LineEditor.PasteConfirmsChoice`).
- Two callers whose user and service spell the same refresh key share one refresh,
  so one of them can be handed the other service's credential
  (`packages/credentials/src/token-refresh.ts:61`, `TokenRefresh.SharedKeyMisleads`).
  It takes a colon in a user id or a service name, and two users on a store that is
  documented as one user's (`packages/credentials/src/credential-store.ts:12`).
- Enter on a highlighted service-taking command with no service to offer submits
  the bare command, which is a usage error (`LineEditor.AcceptedServiceCommand`).

## Model

| member | source | states |
|---|---|---|
| Utf16.DecodeIsConditioning | packages/audit/src/hash.ts:20-50 | decoding the UTF-8 bytes of any string strictly gives back exactly its well-formed conditioning |
| Utf16.ConditioningIsIdempotent | packages/audit/src/hash.ts:48-50 | conditioning keeps the length and leaves nothing further to condition |
| Utf16.WellFormedByUnit | packages/audit/src/hash.ts:48-50 | conditioning replaces just the unpaired surrogates, each by U+FFFD, and keeps every other unit |
| Utf16.ConditioningKeepsBytes | packages/audit/src/hash.ts:33-40 | any string and its conditioned form have the same UTF-8 bytes |
| Utf16.SameBytesIffSameConditioned | packages/audit/src/hash.ts:33-40 | two strings have equal bytes exactly when they condition to the same text |
| Utf16.Utf8OfJoin | packages/audit/src/hash.ts:52-77 | encoding distributes over a join that splits no surrogate pair |
| EntryHash.FrameEncodes | packages/audit/src/hash.ts:74-77 | each frame's bytes are the decimal byte length of its value, a colon, and the value's own bytes |
| EntryHash.JoinEncodes | packages/audit/src/hash.ts:138-165 | the bytes of the joined frames are the joined bytes of the frames, whatever surrogates the fields begin or end with |
| EntryHash.FramingDecodes | packages/audit/src/hash.ts:138-165 | reading digits, colon and that many bytes, twenty times, recovers the 20 byte fields and leaves nothing |
| EntryHash.HashInputIsColumns | packages/audit/src/hash.ts:138-165 | what is hashed reads back as the 20 columns of the row in the format's order: texts as their bytes, numbers as decimal digits, null as nothing |
| EntryHash.HexDigits | packages/audit/src/hash.ts:165 | the digest is printed in lower-case hexadecimal, high digit first |
| EntryHash.HashInputInjective | packages/audit/src/hash.ts:138-165 | two rows have the same hash input exactly when they agree on all 20 hashed fields, null read as empty |
| EntryHash.ConditioningKeepsHash | packages/audit/src/hash.ts:20-50 | conditioning every text field of a row changes no digest |
| VerifyChain.CheckRow | packages/audit/src/verify-chain.ts:126-220 | one turn of the range loop reports the hash, sentinel and link breaks of its row, in that order |
| VerifyChain.CheckSeam | packages/audit/src/verify-chain.ts:232-278 | the seam block reports the link break of the boundary row against the range's newest |
| VerifyChain.VerifyChainRange | packages/audit/src/verify-chain.ts:96-290 | the single pass returns the specified verdict, its edges and count by the columns of the oldest and the newest row |
| VerifyChain.EdgesByColumns | packages/audit/src/verify-chain.ts:115-123 | the lower edge is genesis-shaped exactly when the oldest row has sequence number 0 and no `epochPrevHash`, and else unchecked at that row; the upper one is closed exactly by a boundary row |
| VerifyChain.ReportedIffExplained | packages/audit/src/verify-chain.ts:126-223 | a break with given kind, place, hashes and rowsMissing is reported exactly when some row of the range breaks the rule it names in just that way |
| VerifyChain.BreakFreeIffRulesHold | packages/audit/src/verify-chain.ts:126-223 | a range is break-free exactly when every row rehashes, every sentinel holds, and every in-epoch and epoch link holds |
| VerifyChain.SeamIsLinkExactly | packages/audit/src/verify-chain.ts:234-245 | the seam check agrees with the in-range check exactly when the boundary row is not a sequence-0 row of the same epoch with a foreign link |
| VerifyChain.ChainOrderIsSeamSafe | packages/cli/src/audit/walk.ts:129-133 | strictly ascending rows with non-negative sequence numbers never show that shape |
| VerifyChain.CutKeepsBreaks | packages/audit/src/verify-chain.ts:225-281 | two adjacent ranges verified apart with one boundary row give the breaks of the whole, as a multiset and place by place |
| VerifyChain.CutCounts | packages/audit/src/verify-chain.ts:225-281 | a cut adds exactly one break at an edge of the excluded shape and none elsewhere, for any rows |
| VerifyChain.PagingKeepsBreaks | packages/cli/src/audit/walk.ts:157-224 | any cut of any rows into nonempty pages keeps the multiset of breaks and the order of their places if and only if no page edge has the excluded shape |
| VerifyChain.PagingCounts | packages/cli/src/audit/walk.ts:157-224 | paging reports exactly as many breaks more than one pass as there are page edges of the excluded shape |
| VerifyChain.PagesListAlikeIff | packages/audit/src/verify-chain.ts:225-281 | the pages list the breaks of one pass in the same order if and only if no edge has the shape and none has both a broken link and a row above it broken by itself |
| VerifyChain.PagesListDifferently | packages/audit/src/verify-chain.ts:225-281 | two pages in chain order that list the breaks of one pass in another order |
| VerifyChain.SeamSafeEdges | packages/audit/src/verify-chain.ts:234-245 | rows with no neighbours of the shape have no edge of it, however they are cut |
| VerifyChain.PagingIsExactIff | packages/audit/src/verify-chain.ts:161-281 | every cut of a list of rows agrees with one pass exactly when no neighbouring rows have the excluded shape |
| VerifyChain.PagingKeepsEpochs | packages/cli/src/audit/walk.ts:314-316 | the pages' epochs, deduplicated, are those of one pass, for any rows and any cut |
| VerifyChain.EpochsDistinct | packages/audit/src/verify-chain.ts:127-129 | in chain order one pass lists each epoch once |
| VerifyChain.PagingKeepsLowerEdge | packages/cli/src/audit/walk.ts:325-327 | the last page's lower edge is the lower edge of one pass |
| VerifyChain.PagesAggregate | packages/cli/src/audit/walk.ts:311-316 | the pages' breaks, epochs and counts add up page by page |
| TamperEvidence.SameTipSameHistory | packages/audit/src/verify-chain.ts:125-223 | two break-free ranges with the same newest stored hash, of any epochs and in any order, agree backwards on all hashed fields over the shorter length as far as the newest sequence-0 row of each, or two different framed inputs with equal digest are exhibited |
| TamperEvidence.SameHashSameRow | packages/audit/src/hash.ts:138-165 | equal stored hashes on two rows that rehash mean the same 20 fields or a collision on the spot |
| TamperEvidence.CleanJoinIff | packages/audit/src/verify-chain.ts:125-223 | rows are break-free together exactly when both parts are and the link across the cut holds |
| TamperEvidence.SpliceIsClean | packages/audit/src/verify-chain.ts:161-223 | any break-free rows that end in its epoch can stand before the newest sequence-0 row of a break-free range, with the same tip and still no break |
| TamperEvidence.SameTipOtherHistory | packages/engine/docs/architecture/audit-chain-format.md:125 | two break-free ranges of one epoch with the same tip that hold different rows, whatever the hash function |
| TamperEvidence.ChainOrderIsAllBound | packages/cli/src/audit/walk.ts:129-133 | in chain order a range of one epoch has a sequence-0 row only at its start |
| TamperEvidence.ChainOrderSameHistory | packages/engine/docs/architecture/audit-chain-format.md:125 | two break-free ranges of one epoch each, in chain order and with the same tip, agree backwards over the shorter length or exhibit a collision |
| TamperEvidence.SameEpochLinkSameHistory | packages/audit/src/hash.ts:124-128 | where two break-free ranges state the same link at an epoch change, the epochs before agree likewise |
| RecordedTip.CleanPagesAreClean | packages/cli/src/audit/walk.ts:157-224 | pages or batches without a break are, end to end, rows without a break |
| RecordedTip.EarlierCopyAnchors | packages/engine/docs/architecture/audit-chain-format.md:127-131 | if a later clean read, over the wire or from a file, shows a row with the stored hash of an earlier clean copy's newest row, the two hold the same rows from there back to the newest sequence-0 row of each, or a collision is exhibited |
| RecordedTip.SameTipReadsAgree | packages/engine/docs/architecture/audit-chain-format.md:127-131 | two clean reads, over the wire or from a file, with the same newest stored hash agree likewise |
| DecisionClosure.CheckDecisionClosure | packages/audit/src/decision-closure.ts:165-256 | the newest-to-oldest walk returns the specified findings, count and carry |
| DecisionClosure.CarryRebuildsMap | packages/audit/src/decision-closure.ts:171-178 | handing the insertion-ordered map on as one flat list loses nothing: seeding from it rebuilds the map |
| DecisionClosure.ResumeIsExact | packages/audit/src/decision-closure.ts:165-256 | running on newer rows and then on older rows with the carry gives the lists, closer orders, count and final carry of one run, for any rows and any cut |
| DecisionClosure.WaitingClosers | packages/audit/src/decision-closure.ts:185-207 | what waits under an id after any rows is what waited before, unless a row had that id, plus the later rows still open that name it |
| DecisionClosure.FindingsAreDeclared | packages/audit/src/decision-closure.ts:185-238 | with no carry and a closed upper edge, each owing decision's closers are exactly the later rows naming it, newest first, up to the next row of the same id if there is one |
| DecisionClosure.OwingRule | packages/audit/src/decision-closure.ts:71-76 | a row owes a closer exactly when it has no referent, its tool is none of the ten lifecycle tools, and its decision is `pending` or `allow` |
| DecisionClosure.ClosersAndLifecycleOweNothing | packages/audit/src/decision-closure.ts:61-76 | a `pending` row with a referent and a lifecycle row that says `allow` owe nothing |
| DecisionClosure.CountedAreOwing | packages/audit/src/decision-closure.ts:208-218 | whatever is carried in, exactly the owing rows are counted; with an open upper edge all of them are listed as unchecked and nothing else is claimed |
| DecisionClosure.ListedIff | packages/audit/src/decision-closure.ts:185-238 | a row is listed as unresolved exactly when it owes a closer and none names it, and as conflicted, duplicated or contradictory, exactly when it owes one and several do |
| DecisionClosure.NamersAre | packages/audit/src/decision-closure.ts:185-207 | the closers found for a row are the later rows that name it with no row of its id between, each with its own columns |
| DecisionClosure.UniqueIdsReachAll | packages/audit/src/decision-closure.ts:185-238 | with unique ids those are all the later rows naming it |
| DecisionClosure.StatusMeaning | packages/audit/src/decision-closure.ts:218-237 | the status is fixed by the number of closers and whether every pair of them agrees |
| DecisionClosure.ClosersConserved | packages/audit/src/decision-closure.ts:187-247 | every outcome row and carried-in closer is counted, discarded or carried on exactly once |
| DecisionClosure.CarryMeaning | packages/audit/src/decision-closure.ts:165-256 | for any rows and any incoming carry, the carry holds under each id, in order, the closers carried in unless the range has that row, and then, newest first, the rows naming it that no older row of that id has taken |
| Walk.CheckPage | packages/cli/src/audit/walk.ts:190-216 | one page is verified against the page above and its closures resumed from the carry |
| Walk.KeepPage | packages/cli/src/audit/walk.ts:182-218 | taking a page moves every loop variable to its value over the pages kept so far |
| Walk.TakeTurn | packages/cli/src/audit/walk.ts:157-224 | one turn of the walk stops or keeps a page just as the page acceptance rule says |
| Walk.WalkAuditChain | packages/cli/src/audit/walk.ts:135-237 | the walk returns the result over exactly the pages it keeps, and these and how it stopped are as the walk's rules say, for any answers and any cancels |
| Walk.WalkEndsIff | packages/cli/src/audit/walk.ts:157-224 | which pages a walk keeps and how it ends, without the loop: cancelled, at the ceiling, stalled or exhausted exactly when the turn after its last page is so, and the cursor closed exactly when the last answer says so; these hold of its result and of no other |
| Walk.ExtentByColumns | packages/cli/src/audit/walk.ts:182-237 | the counts and the newest and oldest locations are those of the rows delivered |
| Walk.VerdictsByPage | packages/cli/src/audit/walk.ts:193-237 | a verifying walk returns one verdict of each kind a page, a dump walk none |
| Walk.CheckedPagesMeaning | packages/cli/src/audit/walk.ts:190-216 | the accumulated verdicts are those of verifying each page with the oldest row of the page above as its boundary |
| Walk.PagingKeepsClosures | packages/cli/src/audit/walk.ts:205-210 | page by page the closure check finds, in the same order, what one run over all rows finds |
| Walk.AcceptedStepsDown | packages/cli/src/audit/walk.ts:174-180 | whatever rows are served, the stall check keeps only pages that each start strictly below the page before |
| WalkSummary.PagingRefinesOnePass | packages/cli/src/audit/walk.ts:307-369 | however any rows are cut, the summary is that of one pass over all of them if and only if no page edge has the excluded shape |
| WalkSummary.CoverageIsTold | packages/cli/src/audit/walk.ts:325-342 | however any rows are cut and however the read ended, the summary says that the head is genesis-shaped exactly when the oldest row is, and names the one reason that leaves the log unchecked |
| WalkSummary.OnePassIsOnePage | packages/cli/src/audit/walk.ts:307-369 | the summary of one pass is the summary of the walk that gets all rows in one page |
| WalkSummary.AnyWalkRefinesOnePass | packages/cli/src/audit/walk.ts:135-369 | whatever rows with non-negative sequence numbers the engine serves, in whatever order, and however the walk ends, its summary is that of one pass over the rows it kept and names the reason of its ending |
| WalkSummary.AcceptedEdgesSafe | packages/cli/src/audit/walk.ts:174-180 | the stall check rules the excluded shape out at every page edge of such a walk |
| WalkSummary.KeptRefinesOnePass | packages/cli/src/audit/walk.ts:135-369 | for any pages a walk may keep, negative numbers included, its summary is that of one pass if and only if their edges are free of the shape |
| WalkSummary.NegativeNumbersDisagree | packages/cli/src/audit/walk.ts:174-180 | two answers with a negative sequence number whose walk differs from one pass |
| WalkSummary.ConflictReportedIff | packages/audit/src/decision-closure.ts:228-236 | a conflict is reported exactly when some row that owes a closer by its columns has two later rows naming it with no row of its own id before the second |
| WalkSummary.ExitCodeMeaning | packages/cli/src/audit/walk.ts:343-356 | over any pages of a log in chain order the exit code is 3, 5, 0 or 4 exactly as the rules, the conflicts and the columns of the oldest row deserve |
| WalkSummary.ExitCodeAfterAnyEnd | packages/cli/src/audit/walk.ts:343-356 | however a read of any rows ended, the exit code is what the rows it kept and its ending deserve - 3, then 5, then 130, then 4 or 0 - if and only if no page edge has the excluded shape or some rule fails anyway |
| WalkSummary.AnyWalkExitCode | packages/cli/src/audit/walk.ts:135-369 | whatever rows with non-negative sequence numbers are served and however the walk ends, its exit code is what the rows it kept deserve |
| WalkSummary.HonestWalkKeepsLog | packages/cli/src/audit/walk.ts:157-224 | a log served newest first to exhaustion below the ceiling is kept whole |
| WalkSummary.WalkExitCode | packages/cli/src/audit/walk.ts:135-369 | end to end, the exit code of a completed walk says exactly what is true of the log |
| Dump.FlushBatch | packages/cli/src/audit/dump.ts:179-207 | a waiting batch is verified with its boundary and carry; an empty one changes nothing |
| Dump.TakeRow | packages/cli/src/audit/dump.ts:238-242 | a row is queued, and a full batch flushed, at any batch size |
| Dump.VerifyDumpLines | packages/cli/src/audit/dump.ts:157-254 | the reader returns the result over exactly the rows read, or the file defect, at any batch size |
| Dump.ReadMeaning | packages/cli/src/audit/dump.ts:209-251 | what any file reads as, whenever a cancel is seen: a malformed last line is truncation that keeps the rows before it; a malformed line with a successor, a bad manifest and an empty file are errors |
| Dump.ReadExtent | packages/cli/src/audit/dump.ts:238-254 | the count and the newest and oldest locations are those of the rows read |
| Dump.FileRefinesOnePass | packages/cli/src/audit/dump.ts:157-254 | at any batch size the summary is that of one pass over the rows read if and only if no batch edge has the excluded shape |
| Dump.RepeatedRowsDisagree | packages/cli/src/audit/dump.ts:179-207 | at every batch size a file of one row more than a batch whose summary differs from one pass |
| Dump.FileExitCodeAfterAnyEnd | packages/cli/src/commands/log.ts:289-330 | at any batch size and however the read ended, the exit code is what the rows read deserve if and only if no batch edge has the shape or some rule fails anyway |
| Dump.DumpReadsBack | packages/cli/src/audit/dump.ts:42-114 | a dump of rows whose lines read back reads back as those rows |
| Dump.FileAgreesWithWire | packages/cli/src/audit/dump.ts:42-254 | whatever is served, once a walk has run to a closed cursor its dump reads back, and the summary of the file is that of the verifying walk if and only if no batch edge has the excluded shape |
| Dump.ChainOrderFileAgrees | packages/cli/src/audit/dump.ts:42-254 | a log in chain order, served in full, has the same summary from its dump as over the wire |
| TokenRefresh.RowUnchangedIff | packages/credentials/src/credential-store.ts:17-30 | comparing ciphertexts detects every change: a row equals what was read exactly when nothing touched its service since |
| TokenRefresh.WriteLandsIffUntouched | packages/credentials/src/token-refresh.ts:95-107 | after any run a refresh's write lands exactly when its service was not touched since the read |
| TokenRefresh.StepKeepsInv | packages/credentials/src/token-refresh.ts:32-112 | every step of callers, refreshes, reconnects and disconnects keeps the protocol invariant |
| TokenRefresh.RunKeepsInv | packages/credentials/src/token-refresh.ts:32-112 | every run keeps the protocol invariant |
| TokenRefresh.RestingIsReached | packages/credentials/src/token-refresh.ts:20-25 | a refresher started over any history starts where a run of connections and disconnects leads, so every theorem about runs holds of what follows |
| TokenRefresh.NoConnectionOverwritten | packages/credentials/src/token-refresh.ts:39-48 | in every run a refresh writes only over the ciphertext it was read from, with no reconnect or disconnect in between |
| TokenRefresh.RefreshedCallersToldTruly | packages/credentials/src/token-refresh.ts:60-72 | in every run in which no two calls share a refresh key for different services, a caller returning a refreshed credential returns the one that landed on its service's row, and a refused one waited on a refresh that wrote nothing |
| TokenRefresh.OneUserToldTruly | packages/credentials/src/credential-store.ts:8-13 | so it is in every run over one user's store |
| TokenRefresh.SharedKeyMisleads | packages/credentials/src/token-refresh.ts:61 | for any two calls that share a key for different services there is a run in which the second is told what is not true of its service |
| TokenRefresh.ColonsShareAKey | packages/credentials/src/token-refresh.ts:61 | a pair of users and services that share a key |
| TokenRefresh.OneRefreshPerKey | packages/credentials/src/token-refresh.ts:60-72 | at most one refresh per key is in flight, and no caller waits on a lost promise |
| TokenRefresh.TokensAreUsable | packages/credentials/src/token-refresh.ts:86-94 | in every run each row a refresh wrote decrypts to a credential with an access token, and every caller told a credential gets one with an access token |
| TokenRefresh.BadRefreshWritesNothing | packages/credentials/src/token-refresh.ts:86-107 | in every run a refresh whose provider threw, or answered with no credential or an empty access token, never writes, and every caller that waited on it is told that error |
| TokenRefresh.LoadMeaning | packages/credentials/src/token-refresh.ts:50-72 | a load fails, returns a credential good for more than a minute, joins the refresh in flight under its key or starts one, exactly by the row read and the time |
| TokenRefresh.StoringMeaning | packages/credentials/src/token-refresh.ts:101-112 | a stored refresh settles as its credential if the write landed and as not found if not, and a failed encryption as an error |
| TokenRefresh.SameUserSameService | packages/credentials/src/token-refresh.ts:61 | for one user, refresh keys are equal exactly when the services are |
| SingleFlight.RowStore.Write | packages/engine/src/data/helpers/connected-services.ts:121-144 | the write lands exactly when the row exists and holds the expected ciphertext, if one is given |
| SingleFlight.RowStore.Read | packages/engine/src/data/helpers/connected-services.ts:97-107 | the stored ciphertext, or nothing for an absent row and for a row without one |
| SingleFlight.RowStore.Connect | packages/engine/src/data/helpers/connected-services.ts:57-67 | a connection creates the row or replaces its credential, by none if it comes without one |
| SingleFlight.RowStore.Disconnect | packages/engine/src/data/helpers/connected-services.ts:76-84 | a disconnect removes the row with its credential and says whether there was one |
| SingleFlight.SingleFlightRefresher.constructor | packages/credentials/src/token-refresh.ts:24-25 | over a store in any state, rows of connections and of earlier refreshers included, a new refresher starts in a world that the protocol reaches |
| SingleFlight.SingleFlightRefresher.GetValidCredential | packages/credentials/src/token-refresh.ts:32-49 | a call records the row its refresh would be based on |
| SingleFlight.SingleFlightRefresher.CredentialLoaded | packages/credentials/src/token-refresh.ts:50-72 | a loaded call fails, returns the unexpired credential, joins the refresh in flight, or starts one |
| SingleFlight.SingleFlightRefresher.ProviderReturned | packages/credentials/src/token-refresh.ts:86-94 | a malformed or empty refresh result settles as an error before anything is stored |
| SingleFlight.SingleFlightRefresher.Encrypted | packages/credentials/src/token-refresh.ts:101-107 | the write-back is a compare-and-swap against the baseline |
| SingleFlight.SingleFlightRefresher.EncryptionRejected | packages/credentials/src/credential-store.ts:59 | a failed encryption settles the refresh without a write |
| SingleFlight.SingleFlightRefresher.WriteAnswered | packages/credentials/src/token-refresh.ts:108-111 | a write that did not land is refused to every waiter |
| SingleFlight.SingleFlightRefresher.Finally | packages/credentials/src/token-refresh.ts:67-69 | the in-flight entry is dropped whatever the outcome |
| SingleFlight.SingleFlightRefresher.CallerResumed | packages/credentials/src/token-refresh.ts:62-72 | a waiter resumes with the refresh's outcome |
| SingleFlight.SingleFlightRefresher.Reconnected | packages/credentials/src/token-refresh.ts:39-43 | a reconnect at any step keeps the protocol |
| SingleFlight.SingleFlightRefresher.ReconnectedBare | packages/engine/src/data/helpers/connected-services.ts:57-67 | a connection without a credential is, to a refresh, a disconnect, and keeps the protocol |
| SingleFlight.SingleFlightRefresher.Disconnected | packages/credentials/src/token-refresh.ts:95-100 | a disconnect at any step keeps the protocol |
| RunSlot.StepKeepsInv | packages/cli/src/commands/up.ts:532-554 | every file or process operation keeps the slot invariant, judgements being fair |
| RunSlot.RunKeepsInv | packages/cli/src/commands/up.ts:532-828 | every run of fair judgements keeps the slot invariant |
| RunSlot.AtMostOneLiveRun | packages/cli/src/engine/run-record.ts:20-23 | in every run of fair judgements at most one live run holds the slot, and the file is its record |
| RunSlot.RemovalsAreSound | packages/cli/src/engine/run-record.ts:158-200 | a removal deletes no record but one its remover claimed or read as stale, and never a live run's |
| RunSlot.FairIffDead | packages/cli/src/commands/up.ts:805-827 | a judgement condemns no live run exactly when the claim is still stale as the file now has it, or has left the file |
| RunSlot.RemovalIsSafeIffFair | packages/cli/src/commands/up.ts:825-827 | judging a record stale and removing it keeps the slot exclusive exactly when the judgement was fair |
| RunSlot.PromptRunsAreFair | packages/cli/src/commands/up.ts:818-823 | runs in which a claim without a pid is found too old only if it was so when read are fair |
| RunSlot.AtMostTwoCreates | packages/cli/src/commands/up.ts:534-554 | in every run each process tries the exclusive create at most twice |
| RunSlot.FoundIsReached | packages/cli/src/commands/up.ts:512-554 | a start over any file earlier runs left - unparseable, a dead run's or a live run's record - starts where a run of fair judgements leads |
| RunSlot.LateJudgementBreaksTheSlot | packages/cli/src/engine/run-record.ts:163-176 | a concrete run with a late judgement leaves two live runs |
| RunSlot.UninterruptedRun | packages/cli/src/commands/up.ts:532-554 | an `up` whose steps nobody interrupts takes a free slot, waits on a live pid or a claim younger than two minutes, and takes over anything else |
| RunSlot.WithdrawnLeavesNoRecord | packages/cli/src/commands/up.ts:763-776 | a run that withdraws leaves no record with its claim behind |
| RunRecordFile.RecordFile.CreateExclusive | packages/cli/src/engine/run-record.ts:129-139 | the create lands exactly on an absent file |
| RunRecordFile.RecordFile.ReadRunRecord | packages/cli/src/engine/run-record.ts:77-86 | a record, or nothing for an absent or unparseable file |
| RunRecordFile.RecordFile.WriteRunRecord | packages/cli/src/engine/run-record.ts:152-156 | the rename replaces whatever was there |
| RunRecordFile.RecordFile.RemoveRunRecordIfUnchanged | packages/cli/src/engine/run-record.ts:163-176 | only a record with this claim time is removed, and the answer says whether |
| RunRecordFile.RecordFile.RemoveUnparseableRunRecord | packages/cli/src/engine/run-record.ts:184-200 | only an unparseable file is removed, and the answer says whether |
| RunRecordFile.ClaimAlone | packages/cli/src/commands/up.ts:532-554 | run alone, the claim loop gets the slot exactly when no record blocks it, within two attempts, and otherwise leaves the file alone |
| RunRecordFile.StaleRulesAgree | packages/cli/src/engine/run-record.ts:226-264 | what `down` would call stale an `up` reclaims, and what `up` waits on is never called stale or foreign |
| RunRecordFile.OwnershipByColumns | packages/cli/src/engine/run-record.ts:226-264 | each answer of `down`, by what the record says, whether its pid lives, its age, and whether the port answers |
| RunRecordFile.UpRuns.constructor | packages/cli/src/commands/up.ts:512-533 | the protocol starts over the file as it is found: absent, unparseable, or a record whose run is dead or still going |
| RunRecordFile.UpRuns.TryCreate | packages/cli/src/engine/run-record.ts:119-145 | a create wins the slot or collides |
| RunRecordFile.UpRuns.ReadCollided | packages/cli/src/engine/run-record.ts:135-137 | a loser takes the record it then reads |
| RunRecordFile.UpRuns.LoseClaim | packages/cli/src/commands/up.ts:793-828 | the loser waits on a live pid or a young claim and else goes on to remove what it read; the invariant is kept if the judgement is fair |
| RunRecordFile.UpRuns.RemoveStale | packages/cli/src/commands/up.ts:800-827 | the conditional removal before the one reclaim |
| RunRecordFile.UpRuns.SpawnChild | packages/cli/src/commands/up.ts:675-691 | the winner starts a child with a pid never used before |
| RunRecordFile.UpRuns.RecordChild | packages/cli/src/commands/up.ts:709-715 | the winner rewrites the record with its child's pid |
| RunRecordFile.UpRuns.RemoveOwn | packages/cli/src/commands/up.ts:763-776 | a refused or exited run takes away its own record only |
| EnvFile.ReadConfigLine | packages/cli/src/engine/env-file.ts:124-163 | one line is skipped, bound or refused as the line rules say |
| EnvFile.ParseEnvFile | packages/cli/src/engine/env-file.ts:117-166 | the loop returns the specified record or the specified error with its line number |
| EnvFile.ParseMeaning | packages/cli/src/engine/env-file.ts:96-116 | the file is refused exactly at its first bad line, and otherwise every key has the value of the last line that binds it and no other key is bound |
| EnvFile.ParsedIsLineFree | packages/cli/src/engine/env-file.ts:123-163 | no parsed value holds a line break |
| EnvFile.SortOrders | packages/cli/src/engine/env-file.ts:214-216 | unknown keys are written once each in code-unit order |
| EnvFile.WriteOrderIsThorough | packages/cli/src/engine/env-file.ts:209-217 | the write order lists exactly the record's keys, each once |
| EnvFile.WriteOrderIsFixed | packages/cli/src/engine/env-file.ts:209-217 | the four known keys come first, in their fixed order, and the others after them in code-unit order |
| EnvFile.ReadBackIff | packages/cli/src/engine/env-file.ts:173-195 | a line-free value reads back unchanged exactly when it is trimmed, does not open with a quote and has no hash after white space |
| EnvFile.ParseUndoesSerializeIff | packages/cli/src/engine/env-file.ts:117-218 | parsing undoes serializing, for any record, exactly when every key is legal and every value printable |
| EnvFile.ParsedKeysAreLegal | packages/cli/src/engine/env-file.ts:136-160 | only legal variable names are ever bound |
| EnvLines.SurroundingSpaceIsIgnored | packages/cli/src/engine/env-file.ts:126 | white space around a line changes nothing |
| EnvLines.BlankAndCommentLinesAreSkipped | packages/cli/src/engine/env-file.ts:127 | blank lines and comment lines say nothing |
| EnvLines.SpacesAre | packages/cli/src/engine/env-file.ts:126 | the units that are trimmed as white space |
| EnvLines.QuotesAre | packages/cli/src/engine/env-file.ts:173-180 | the two units that open a quoted value |
| EnvLines.SkippedIff | packages/cli/src/engine/env-file.ts:126-127 | blank lines and comments, and no others, say nothing |
| EnvLines.LineWithoutEquals | packages/cli/src/engine/env-file.ts:129-137 | a line without an equals sign is refused for that |
| EnvLines.LineWithEquals | packages/cli/src/engine/env-file.ts:138-163 | a line is cut at its first equals sign; the key is refused when empty, when no variable name, and when the shell's own, in this order, and the rest is the value |
| EnvLines.ExportIsStripped | packages/cli/src/engine/env-file.ts:128 | a leading `export` and its white space change nothing |
| EnvLines.QuotedReading | packages/cli/src/engine/env-file.ts:173-195 | a quoted value ends at its closing quote, only white space or a comment may follow, and without a closing quote the line is refused |
| EnvLines.QuotedValueReads | packages/cli/src/engine/env-file.ts:168-195 | any value without the quote in it survives in quotes, hashes and spaces included |
| EnvLines.CommentIsDroppedIff | packages/cli/src/engine/env-file.ts:68-79 | a trailing comment is dropped from a printable value exactly when the value is not empty |
| ConfigFile.ConfigFile.ReadConfigFile | packages/cli/src/engine/config-file.ts:32-41 | nothing only for an absent file; a malformed one is an error |
| ConfigFile.ConfigFile.CreateConfigFile | packages/cli/src/engine/config-file.ts:48-59 | the create lands exactly on an absent file, with the serialized record |
| ConfigFile.ConfigFile.MergeAbsentKeys | packages/cli/src/engine/config-file.ts:81-108 | the file becomes the merged text, or is left alone with the parse error |
| ConfigFile.AbsentIsWanted | packages/cli/src/engine/config-file.ts:89-95 | the collected keys are every absent key but `__proto__` |
| ConfigFile.MergeIsUnionIff | packages/cli/src/engine/config-file.ts:61-108 | the merged text parses to the old map plus exactly the absent keys if and only if each absent key is a legal variable name other than `__proto__` and each absent value is printable |
| ConfigFile.ProtoIsDropped | packages/cli/src/engine/config-file.ts:89-96 | a wanted `__proto__` is never written |
| ConfigFile.MergeKeepsText | packages/cli/src/engine/config-file.ts:96-102 | the old text is a prefix of the new, and with nothing to add it is the whole |
| ConfigFile.SecondMergeChangesNothing | packages/cli/src/engine/config-file.ts:81-96 | for any keys and values, a second merge of the same variables changes nothing if and only if every absent key but `__proto__` is legal and every line printed for an absent variable can be read, which it can exactly when the merged text parses |
| ConfigFile.MergedParsesIff | packages/cli/src/engine/config-file.ts:81-108 | the merged text parses exactly when every line printed for an absent variable can be read |
| ConfigFile.OneLineBindingReadsIff | packages/cli/src/engine/env-file.ts:173-218 | a value on one line can be read back exactly when, trimmed, it is no faulty quotation |
| Trace.CheckTrace | packages/contracts/src/workflows.ts:237-256 | the refinement raises no issue exactly when every check passes |
| Trace.CheckNodes | packages/contracts/src/workflows.ts:240-245 | the node loop raises no issue exactly on distinct ids, one root and good lineage |
| Trace.CheckCalls | packages/contracts/src/workflows.ts:246-250 | the call loop raises no issue exactly when each call passes against the ids seen before it |
| Trace.CheckOperations | packages/contracts/src/workflows.ts:251-255 | the operation loop raises no issue exactly when each operation passes against the ids seen before it |
| Trace.NodesAcceptedIffTree | packages/contracts/src/workflows.ts:240-245 | the node checks hold exactly when the nodes form one tree whose single root every node reaches in its depth many parent steps |
| Trace.CallsCheckedIffOrdered | packages/contracts/src/workflows.ts:246-250 | the call checks hold exactly when ids are distinct, nodes known, and each parent call earlier in the list |
| Trace.AcceptedIffWellShaped | packages/contracts/src/workflows.ts:237-256 | a trace is accepted exactly when it is globally well shaped |
| Trace.AcceptedCallsAreAcyclic | packages/contracts/src/workflows.ts:246-250 | in an accepted trace every walk to parent calls goes strictly down the list |
| Policy.SortOrders | packages/governance/src/evaluate-policy.ts:71-86 | the sort rearranges the matched entries into the comparator's order |
| Policy.SortIsStable | packages/governance/src/evaluate-policy.ts:71-86 | within one rank the sort keeps the listed order |
| Policy.DecisionIsDeclared | packages/governance/src/evaluate-policy.ts:45-97 | deny on any covering entry of unrankable priority, else the highest priority with deny winning ties, else deny, where coverage is by columns; malformed and implicit are reported exactly when they are the reason |
| Policy.MatchIsByColumns | packages/governance/src/evaluate-policy.ts:6-30 | an allow matches exactly the action it names without a wildcard; a deny matches when each of its columns is the wildcard or the action's, the noun compared in lower case |
| Policy.DenyPrevails | packages/governance/src/evaluate-policy.ts:6-97 | a listed deny that covers the action, with a priority at least that of every allow that names it, denies it whatever else is listed |
| Policy.FloorCoversAll | packages/governance/src/evaluate-policy.ts:6-97 | a deny of everything covers every action: only an allow of higher priority gets past it |
| Policy.AllowPrevails | packages/governance/src/evaluate-policy.ts:71-97 | an allow that names the action allows it when no covering deny is as high and all priorities are numbers |
| Policy.WinnerIsFirstOfItsRank | packages/governance/src/evaluate-policy.ts:88-96 | the entry named is the first listed of those that tie for the win |
| Policy.WinnerIsNamedFirst | packages/governance/src/evaluate-policy.ts:71-97 | the decision, source and id are those of the first listed entry of the top priority that decides so |
| Policy.OrderDoesNotMatter | packages/governance/src/evaluate-policy.ts:77-84 | the decision does not depend on list order |
| Policy.AddedDenyNeverAllows | packages/governance/src/evaluate-policy.ts:51-86 | adding a deny entry anywhere never turns a deny into an allow |
| Policy.AllowIsExact | packages/governance/src/evaluate-policy.ts:6-30 | an allow names a listed allow entry that matches the action with no wildcard |
| Spend.RoundSumIsNearest | packages/governance/src/evaluate-spend.ts:62-66 | the modelled sum is the nearest double, ties to even |
| Spend.OverIsExact | packages/governance/src/evaluate-spend.ts:88-102 | rounding never changes the comparison of a sum of safe integers with a safe limit |
| Spend.SpendCheckIsExact | packages/governance/src/evaluate-spend.ts:70-108 | the result is unavailable exactly on an unread ledger or an unsafe value, and otherwise names the breaches of the true sums |
| Spend.SpendCheckOnCents | packages/governance/src/evaluate-spend.ts:86-108 | on whole cents each window is a breach exactly when what is spent and the amount pass its limit |
| Spend.UnavailableIff | packages/governance/src/evaluate-spend.ts:70-86 | unavailable exactly on an unread ledger or when one of the five numbers is not whole safe cents |
| Spend.RunsStayWithinLimits | packages/governance/src/evaluate-spend.ts:51-60 | any run committing only within amounts under fixed limits keeps both totals within them |
| Wrap.HardWrap | packages/cli/src/render/attribution.ts:184-200 | the loop returns the specified broken rows |
| Wrap.BrokenIsWellBroken | packages/cli/src/render/attribution.ts:177-200 | rows concatenate to the text, each fits or is one over-wide grapheme, and a row ends only where the next grapheme would not fit |
| Wrap.WrapToWidth | packages/cli/src/render/attribution.ts:221-259 | over any text split at its space characters and any segmentation of the tokens, the loop returns the specified wrapped rows |
| Wrap.WrapKeepsWords | packages/cli/src/render/attribution.ts:202-259 | the words the rows show are the words of the text in order, only a word wider than a row being cut |
| Wrap.FittingWordsAreWhole | packages/cli/src/render/attribution.ts:202-259 | if every token fits a row, the rows show exactly the words of the text |
| Wrap.WrapKeepsText | packages/cli/src/render/attribution.ts:202-259 | no character but a space is lost, added or moved |
| Wrap.WrapRowsFit | packages/cli/src/render/attribution.ts:202-259 | every row fits or is one over-wide grapheme, and in two columns or more every row fits |
| Layout.CutValue | packages/cli/src/render/attribution.ts:457-473 | the value is cut with the first row's budget and then the others' |
| Layout.LayoutField | packages/cli/src/render/attribution.ts:433-500 | the method returns the specified rows |
| Layout.LastRowWidthIsRight | packages/cli/src/render/attribution.ts:485-490 | the width the suffix is measured against is the real width of the last row |
| Layout.FieldIsGuarded | packages/cli/src/render/attribution.ts:405-432 | for every value no row showing any of it is wider than the terminal, if and only if there is room for two columns beside the prefix, where they share a row, and behind the indent |
| Layout.FieldKeepsValue | packages/cli/src/render/attribution.ts:405-432 | at any width the rows hold every grapheme of the value in order, every later row starts with a space, and the suffix is on the last row only |
| Layout.OneColumnIsTooFew | packages/cli/src/render/attribution.ts:453-472 | with less than two columns beside the prefix a double-width grapheme passes the edge |
| Layout.IndentLeavesTooLittle | packages/cli/src/render/attribution.ts:466-470 | so it does behind the indent, when the prefix has the first row to itself |
| Layout.SpillPassesTheEdge | packages/cli/src/render/attribution.ts:453-473 | so it does on a later row that the value spills onto |
| Layout.FittingFieldIsOneRow | packages/cli/src/render/attribution.ts:421-423 | a line that fits is one row of prefix, value and suffix |
| Layout.FirstRowIsPrefixIff | packages/cli/src/render/attribution.ts:448-453 | a prefix as wide as the terminal has the first row to itself, and no other prefix has |
| ReplMeta.TableParses | packages/cli/src/commands/repl-meta.ts:52-132 | every command of the table parses to its own meaning |
| ReplMeta.ServiceLineParsesIff | packages/cli/src/commands/repl-meta.ts:84-124 | a command line with a service parses to that command on that service exactly when the service is one plain word |
| ReplMeta.BareServiceCommand | packages/cli/src/commands/repl-meta.ts:104-124 | a service-taking command without an argument is a usage error |
| ReplMeta.PlainLines | packages/cli/src/commands/repl-meta.ts:84-104 | a line that opens with no colon is chat, except for nothing and for the two dotted ways out |
| ReplMeta.UnknownWords | packages/cli/src/commands/repl-meta.ts:104-132 | one word behind a colon that is no command of the table is an unknown command |
| Completion.CommandsOffered | packages/cli/src/input/completion.ts:58-64 | without a space exactly the table's commands that extend the stem are offered |
| Completion.ServicesOffered | packages/cli/src/input/completion.ts:71-85 | after a command exactly its services that extend the stem are offered |
| Completion.CandidatesByCommand | packages/cli/src/input/completion.ts:71-85 | `:connect` offers the services to connect, `:disconnect` the connected ones, and no other command any |
| Completion.MenuSteps | packages/cli/src/input/completion.ts:139-145 | on an open menu Down and Up go to the neighbouring item, wrapping round, and undo each other |
| Completion.DownsWalkTheMenu | packages/cli/src/input/completion.ts:133-147 | on a fresh menu the k-th Down highlights item k and the last comes back to the first |
| LineEditor.KeyKeepsSound | packages/cli/src/input/line-editor.ts:214-334 | whatever the service lists are by now, every key keeps the cursor in the buffer, the highlights in range, and an open menu the completions of the buffer under the lists it was last computed from |
| LineEditor.EditorStaysSound | packages/cli/src/input/line-editor.ts:167-334 | every sequence of keys and choosers keeps the editor sound while the service lists change at will, an open menu being the completions under the lists of the last text change or Tab |
| LineEditor.AcceptingExtends | packages/cli/src/input/line-editor.ts:109-147 | accepting a completion only extends the typed text |
| LineEditor.PasteIsLiteral | packages/cli/src/input/line-editor.ts:219-242 | with no chooser open, any sequence of keys inside a paste without Escape and Ctrl-C has no effect but to put its texts, line breaks flattened, at the cursor, and paste mode stays on |
| LineEditor.PasteLastsIff | packages/cli/src/input/line-editor.ts:229-236 | paste mode outlasts the keys between its markers exactly when none of them is Escape or Ctrl-C |
| LineEditor.SubmitNeedsBreakOut | packages/cli/src/input/line-editor.ts:219-242 | whatever is submitted inside a paste has an Escape or Ctrl-C before it |
| LineEditor.EscapeLetsPasteSubmit | packages/cli/src/input/line-editor.ts:229-233 | after an Escape inside a paste the next line break acts as Enter on the text so far |
| LineEditor.PasteCanSubmit | packages/cli/src/input/line-editor.ts:219-233 | a paste of an Escape and a line break submits, from a blank prompt |
| LineEditor.PasteConfirmsChoice | packages/cli/src/input/line-editor.ts:223-226 | with a chooser open a pasted line break submits the highlighted choice |
| LineEditor.FlattenMeaning | packages/cli/src/input/line-editor.ts:237-240 | a run of line breaks is flattened to one blank and everything else is kept |
| LineEditor.PasteWaysOut | packages/cli/src/input/line-editor.ts:229-236 | Escape leaves a paste quietly and Ctrl-C leaves it and interrupts |
| LineEditor.BackspaceUndoesTyping | packages/cli/src/input/line-editor.ts:315-332 | typing puts the unit at the cursor and Backspace takes it away again |
| LineEditor.LeftDeleteUndoesTyping | packages/cli/src/input/line-editor.ts:300-332 | Left and Delete take away the unit just typed |
| LineEditor.RightUndoesLeft | packages/cli/src/input/line-editor.ts:300-310 | with nothing to accept, Left moves one unit back and Right undoes it |
| LineEditor.HomeAndEnd | packages/cli/src/input/line-editor.ts:311-314 | typing after Home goes in front of the line, after End behind it |
| LineEditor.ChooserMeaning | packages/cli/src/input/line-editor.ts:167-203 | in a chooser Enter submits the highlighted choice, a digit in range highlights its own, Down moves on with wraparound and Up undoes it |
| LineEditor.ChooserOpens | packages/cli/src/input/line-editor.ts:547-550 | a chooser opens on the default choice, the nearest in range, and in it Tab is Down |
| LineEditor.ChooserChords | packages/cli/src/input/line-editor.ts:167-203 | in a chooser Ctrl-C interrupts, Ctrl-D closes, nothing can be typed, and Enter with no choice submits nothing |
| LineEditor.ControlChords | packages/cli/src/input/line-editor.ts:244-260 | on the line Ctrl-C interrupts, Ctrl-D closes an empty line only, and Ctrl-A and Ctrl-E go to its ends |
| LineEditor.MenuKeys | packages/cli/src/input/line-editor.ts:264-298 | Tab and Right take the highlighted item and stay, Escape closes the menu, and without one Tab asks for completions and Enter submits the line |
| LineEditor.ArrowKeys | packages/cli/src/input/line-editor.ts:290-310 | Up and Down move the highlight of an open menu in a ring, Left and Right the cursor |
| LineEditor.ControlTextIsIgnored | packages/cli/src/input/line-editor.ts:333-345 | a control unit is not typed, and neither is a key without text |
| LineEditor.OnlyEnterSubmits | packages/cli/src/input/line-editor.ts:205-334 | only Enter submits, and it leaves a blank editor |
| LineEditor.AcceptedCommandParses | packages/cli/src/input/line-editor.ts:264-282 | Enter on a highlighted terminal command submits it, and it parses to its own meaning |
| LineEditor.AcceptedServiceParsesIff | packages/cli/src/input/line-editor.ts:264-282 | Enter on a highlighted service submits the typed command with it, which parses to it exactly when the service is one plain word |
| LineEditor.AcceptedServiceCommand | packages/cli/src/input/line-editor.ts:264-282 | Enter on a service-taking command stays to offer all its services, and with none submits a usage error |

## Left out

- Cross-epoch tamper evidence: `epochPrevHash` is not hashed (`packages/audit/src/hash.ts:124-128`), so agreement goes on into the epoch before only where both ranges state the same link (`TamperEvidence.SameEpochLinkSameHistory`).
- SHA-256, AES-GCM, `JSON.parse` and `JSON.stringify`, `Intl.Segmenter` and Unicode case mapping: each is a function parameter or a classifier.
- Numbers in audit rows: `sequenceNum` and `latencyMs` are integers printed in decimal, and `costUsd` is the text it prints as.
- The callbacks of the walk and the file reader (`onPage`, `onBreakFound`, `onConflictFound`): a walk is modelled by what it keeps and returns.
- Rejected requests: a walk whose client throws has no result.
- TokenRefresh: hibernation in the middle of a run, which ends every waiter with the map; a refresher started afterwards over the rows it left is covered.
- RunSlot.AtMostOneLiveRun: assumes fair judgements, because the code as it stands does not keep the slot exclusive without them; the condition is proved exact beside it.
- RunSlot.FoundIsReached: a record claimed at or before time zero or after the current time, which increasing claim times rule out.
- RunSlot: `down` and its removals, the later `servedAt` rewrite, readiness polling, and a pid alive under another user, which the source reads as dead.
- The port, URL and log path of a run record: the protocol reads only `startedAt` and `pid`.
- File modes, symbolic links, temporary names and decoding of the config file: its text is given.
- Wrap.WrapRowsFit: a joined row is taken to segment into the graphemes it was joined from, so that its width is their sum.
- Layout and Wrap: colour sequences, truncation and speaker labels.
- LineEditor: key names and raw sequences beyond those the reducer tells apart, the geometry of the input area, and the terminal shell.
- Policy: session scoping and expiry, which the evaluator does not read.
- Trace: the field shapes beside the lineage checks, such as lengths and hash formats.
- HTTP routing, OAuth flows, the MCP surfaces, terminal painting, child processes and log rotation: effects outside the logic modelled.
- The prompt latch, the online tracker, kill retry and connect wait: each is a flag or a counter around an effect (a terminal prompt, a socket, a process signal) that is itself outside the model.
