# A verified model of the Teams bridge

This project models the logic of mautrix-teams that decides what crosses the bridge, when, and how often, and proves
properties of it over all inputs and all runs. `dafny verify dfyconfig.toml` checks the whole project.

Operations that update state in place are classes and methods (`TeamsClient.Client`, `PollBackoff.BackoffState`,
`Scheduler.PollLoop`, `TokenRotation.Login`, `SelfEcho.SelfMessages`, `Auth.StateRef`, `Html.Builder`), each proved to
compute a specification function; loops are loops. The properties are then lemmas about those functions. What an
operation does with ids, tags, status codes, times and expiries is stated once more on its inputs, with every constant
written out and without the helper functions that the operation and its specification share (`EventContent`,
`ReadReceipts`, `Allowlist`, `ChunkReplies`, `TokenExpiry`, `Scopes`, `CacheEntries`, `Membership`).

- **Sync** (`SequenceOrder`, `ListMessages`, `SyncState`, `Delivery`, `EventContent`, `ExactlyOnce`, `OnePoll`,
  `SyncRuns`, `SyncExample`, `TeamsClient`): a world of server logs that only grow, the thread-state table, the poll
  loop's listing and the event queue. Steps are arrivals at the server, discovery upserts, listing the table and polling
  one listed thread; each poll answers with an arbitrary window of copies, unsorted, repeated and historical.
- **Reactions and receipts** (`Reactions`, `ReactionRuns`, `ReadReceipts`, `HorizonRuns`): full reaction syncs and read
  horizons on the same runs.
- **Polling** (`PollBackoff`, `Scheduler`): backoff in 64-bit arithmetic and the schedule over all rounds.
- **Requests** (`Executor`, `Upload`, `ChunkReplies`): the retry loop against any outcomes, and chunked upload through
  that loop against a session that may keep part of a chunk and see a chunk again.
- **HTML** (`Html`, `HtmlTree`, `Sanitizer`, `Allowlist`, `Echo`): the two renderers over a DOM, a printer and parser for
  the markup they emit, and the way a sent text comes back.
- **Tokens and small state** (`Auth`, `TokenRotation`, `TokenExpiry`, `Scopes`, `TokenCache`, `CacheEntries`,
  `CacheOrder`, `Pkcs7`, `SelfEcho`, `ClientIds`, `OneToOne`, `Membership`, `Emoji`).

## What does not hold, and when it does

Some properties one would expect are false of the code. For each there is an input that shows it and an exact
condition.

- Sequence ids are not ordered transitively when numerals and other strings mix (`SequenceOrder.MixedIdsCycle`); the
  order is transitive on a set of ids exactly when no other string is wedged between two numerals that are ordered one
  way as numbers and the other way as text (`SequenceOrder.TransitiveIffNothingWedged`). Listings are sorted whenever
  it is transitive; the delivery theorems assume numeric ids.
- The failure backoff overflows from the 34th failure in a row (`PollBackoff.ThirtyFourFailures`). It is as intended up
  to 33 and at eight later counts; at all others the delay is zero or negative
  (`PollBackoff.FailureDelayAsIntendedIff`), and the thread is polled again in the next round that lists it
  (`Scheduler.OverflowPollsAtOnce`).
- A removed last reaction stays bridged (`ReactionRuns.RemovedReactionStays`) exactly when its target is not remembered
  and the reaction rows cannot be read (`ReactionRuns.SyncConverges`).
- A rotated refresh token is dropped when it comes without an access token
  (`TokenRotation.RotationLostWithoutAccessToken`), and by the Graph refresher also when it comes without a lifetime or
  with a blank access token (`TokenRotation.RotationLostWithoutLifetime`). Over every run the newest token is presented,
  held and saved exactly when no step does so (`TokenRotation.RotationKeptIff`).
- Which cached tokens are extracted can depend on map order: when two different tokens of a kind tie for the latest
  expiry (`CacheOrder.TieDependsOnOrder`), and also without any tie when the storage names two primary users
  (`CacheOrder.TwoUsersDependOnOrder`). All extractions agree exactly when any two choices of key and user the storage
  allows, also one choice with itself, lead to the same latest token of every kind and, where there is none, to the
  same failure (`CacheOrder.ExtractionsAgreeIff`); with the key and the user given, exactly when nothing ties
  (`CacheOrder.OrderIrrelevantIff`).
- Normalizing a participant id twice differs from once (`OneToOne.BlankTakesTwoRounds`) exactly when the trimmed id has
  a blank right after its leading digit groups (`OneToOne.NormalizeIdempotentIff`).
- The client id counter wraps at 2^64 (`ClientIds.WrapsAtTheEnd`). A run of any length stays sound exactly when no load
  meets the counter at 2^64 - 1 (`ClientIds.SoundThroughoutIff`).

The executor's backoff could overflow in the same way, but not as it is configured: it doubles from half a second up to
ten seconds (`Executor.ConfiguredBackoffDoubles`), and the first retry that overflows is the 36th
(`Executor.FirstOverflowAt36`).

## Model

| member | source | states |
|---|---|---|
| SequenceOrder.CompareIsNumeric | internal/teams/model/message.go:222-236 | on decimal ids below 2^64 the comparison is the numeric one |
| SequenceOrder.PrintedIdsCompare | internal/teams/model/message.go:222-236 | ids printed from two 64-bit numbers compare as the numbers do |
| SequenceOrder.CompareFlips | internal/teams/model/message.go:222-236 | swapping the arguments flips the sign, so any two ids are comparable |
| SequenceOrder.HomogeneousTransitive | internal/teams/model/message.go:222-236 | three ids that are all numerals, or none of them numerals, are ordered transitively |
| SequenceOrder.UnparseableAntisymmetric | internal/teams/model/message.go:222-236 | ids that do not parse compare equal only when identical |
| SequenceOrder.FirstDifferenceDecides | internal/teams/model/message.go:222-236 | of two ids that are not both numerals the first differing character decides, and an id comes before its continuations |
| SequenceOrder.TransitiveIffNothingWedged | internal/teams/model/message.go:222-236 | the exact condition on a set of ids under which the comparison is transitive |
| SequenceOrder.MixedIdsCycle | internal/teams/model/message.go:222-236 | "2", "10" and "1A" form a cycle |
| Decimal.FormatInjective | internal/teams/client/messages.go:138 | different numbers are printed as different ids |
| Decimal.ParseUintOfFormat | internal/teams/model/message.go:223-224 | a printed number parses back iff it is below 2^64 |
| ListMessages.List | internal/teams/client/messages.go:59-126 | a response is refused iff a message that is not a repeat has an undecodable sequence id; otherwise the result is a permutation of the first copies, each as it came but for the decoded sequence id, sorted whenever the comparison is transitive on their ids |
| ListMessages.DropRepeats | internal/teams/client/messages.go:83-119 | exactly the first message of each non-blank trimmed id survives, and every message without an id |
| ListMessages.SortBySequence | internal/teams/client/messages.go:121-123 | a permutation, sorted by sequence id whenever the comparison is transitive on the ids |
| ListMessages.OneKindIsTransitive | internal/teams/client/messages.go:121-123 | which it is on ids that are all numerals, and on ids of which none is |
| ListMessages.DistinctHasFirstCopies | internal/teams/client/messages.go:83-119 | the kept messages are the first copies and nothing else |
| ListMessages.DistinctHasNoRepeats | internal/teams/client/messages.go:83-119 | no two kept messages share a non-blank id |
| ListMessages.EveryIDIsKept | internal/teams/client/messages.go:83-119 | every dropped message has an earlier kept one with its id |
| TeamsClient.Client.UpsertThread | pkg/teamsdb/thread_state.go:32-54 | a known thread keeps its cursor and last timestamp, a new one starts with the given row |
| TeamsClient.Client.UpdateThreadCursor | pkg/teamsdb/thread_state.go:56-70 | sets cursor and timestamp of an existing row and touches no other |
| TeamsClient.Client.ListForLogin | pkg/teamsdb/thread_state.go:72-97 | every row once |
| TeamsClient.Client.RefreshThreads | pkg/connector/handleteams.go:166-212 | rows and queue after a discovery, for any list of conversations |
| TeamsClient.ListedRowExactly | pkg/connector/handleteams.go:184-196 | after a discovery the row of a listed thread holds its last listing's conversation, kind and name, and the cursor and timestamp it had, or none if it is new |
| TeamsClient.CursorsStay | pkg/teamsdb/thread_state.go:44-53 | no discovery changes the cursor or the timestamp of a row |
| TeamsClient.UnlistedRowsStay | pkg/connector/handleteams.go:184-196 | rows of threads that are not listed stay as they are |
| TeamsClient.DiscoveredResyncs | pkg/connector/handleteams.go:198-210 | one resync is queued per listing and nothing else |
| TeamsClient.Client.PollThread | pkg/connector/handleteams.go:315-431 | a failed refresh, fetch or unreadable body changes nothing; otherwise the messages are the first copies of the body, and rows, queue, reaction memory, horizons, the loop's copy and the count are those of one poll over them; what that means for the queued events and the row is EventContent.PollQueuesEvents and EventContent.PollSavesRow |
| TeamsClient.Client.QueueReactionSync | pkg/connector/handleteams.go:573-603 | queue and reaction memory after one sync request |
| TeamsClient.Client.ShouldSendEmptyReactionSync | pkg/connector/handleteams.go:663-678 | an empty sync is due iff the target was remembered, which is forgotten, or readable rows show reactions |
| TeamsClient.Client.MarkReactionSeen | pkg/connector/handleteams.go:680-693 | sets or clears the mark and answers whether it was set |
| TeamsClient.Client.OnlyRemote | pkg/connector/handleteams.go:470-488 | the single entry of another user, found in one pass; none when there are two |
| TeamsClient.Client.PollConsumptionHorizons | pkg/connector/handleteams.go:442-532 | queue, stored horizons and fetch times after one horizon poll |
| TeamsClient.Client.ShouldPollReceipts | pkg/connector/handleteams.go:559-571 | due iff never fetched or 30 seconds have passed; being due is recorded |
| Delivery.IngestDelivers | pkg/connector/handleteams.go:342-428 | the loop queues message events for exactly the user-sent messages above the cursor, in list order, and counts each twice; what is in them is EventContent.PollQueuesEvents |
| EventContent.PollQueuesEvents | pkg/connector/handleteams.go:342-428 | a poll queues message events for exactly the messages with an id above the cursor from a sender that is neither blank, nor the thread, nor a thread id, in list order; each holds the message, the trimmed sender, whether that is the own user, and as id the message id without blanks and "msg/" prefix, else the sequence id likewise |
| EventContent.PollSavesRow | pkg/connector/handleteams.go:422-426 | a poll changes no row but its own thread's, and of that only cursor and time, which becomes the latest above the cursor |
| Delivery.MaxSeqIsHighest | pkg/connector/handleteams.go:353-358 | the saved cursor is the highest sequence id above the old one, or none |
| ExactlyOnce.HonestListing | internal/teams/client/messages.go:83-125 | the listing of a window of copies holds copies of logged messages only, sorted, each id once |
| ExactlyOnce.CoveredListing | internal/teams/client/messages.go:83-125 | nothing above the cursor gets lost between the window and the listing |
| ExactlyOnce.AscendingUnique | pkg/connector/handleteams.go:342-428 | two ascending event lists with the same members are the same list |
| ExactlyOnce.TicketsAboveAscend | pkg/connector/handleteams.go:342-428 | the events of one poll strictly ascend in sequence id |
| OnePoll.PollDelivers | pkg/connector/handleteams.go:315-431 | one poll adds the events above the cursor to its own thread's and to no other |
| OnePoll.CountIsPositiveIffQueued | pkg/connector/handleteams.go:315-431 | the reported count is positive iff a message event was queued |
| OnePoll.CursorAdvances | pkg/connector/handleteams.go:353-358 | a new cursor is a larger number |
| OnePoll.AscendingAppend | pkg/connector/handleteams.go:342-428 | new events lie above the old cursor and up to the new one, so the whole list stays ascending |
| OnePoll.CatchesUp | pkg/connector/handleteams.go:342-428 | what was visible up to the old cursor, followed by the new events, is what is visible up to the new cursor |
| SyncRuns.UpsertKeepsCursors | pkg/teamsdb/thread_state.go:44-53 | a discovery upsert changes no cursor |
| SyncRuns.PollEffect | pkg/connector/handleteams.go:315-431 | the effect of a poll step on cursors, listing and queue, for the polled thread and all others |
| SyncRuns.StepKeepsSafe | pkg/connector/handleteams.go:166-431 | every step keeps: delivered events ascending, logged, at or below the cursor; rows trimmed; the listing up to date with the cursors |
| SyncRuns.StepAdvancesCursor | pkg/connector/handleteams.go:315-431 | no step moves a cursor back or removes a row |
| SyncRuns.StepKeepsUpToDate | pkg/connector/handleteams.go:315-431 | a step with a covering window keeps delivery complete up to the cursor |
| SyncRuns.AtMostOnceInOrder | pkg/connector/handleteams.go:342-428 | on every run, whatever windows are shown, each message is delivered at most once and in log order |
| SyncRuns.ExactlyOnceDelivery | pkg/connector/handleteams.go:342-428 | on every run with covering windows the events of a thread are exactly the user-sent messages of its log up to the cursor, in order, each once |
| SyncRuns.PollLeavesNothingBehind | pkg/connector/handleteams.go:315-431 | when the last step of such a run polls a thread, every user-sent message in its log has been delivered |
| SyncRuns.CursorNeverDecreases | pkg/teamsdb/thread_state.go:44-70 | on every run, from any point on, a thread's cursor never decreases |
| SyncExample.FourStepsDeliver | pkg/connector/handleteams.go:166-431 | a covering run from the start that delivers a message |
| Reactions.Resolve | pkg/connector/handleteams.go:703-755 | the first candidate id the bridge knows, else the first candidate |
| EventContent.TargetIsFirstKnown | pkg/connector/handleteams.go:703-755 | over the given id, message id, sequence id and client id, each without and with "msg/": the first spelling the bridge knows, else the first |
| Reactions.BuildSyncData | pkg/connector/handleteams.go:605-661 | for every user and reaction: it is listed under that user as often as the payload shows it, with trimmed known emotion key, its emoji, sender, own-user flag and time, blank users and thread ids left out |
| Reactions.GroupedExactly | pkg/connector/handleteams.go:605-661 | nothing is lost or added: each reaction is under its sender, as often as in the payload, and under nobody else |
| Reactions.ListedAsShown | pkg/connector/handleteams.go:605-661 | the same of the specification of the sync |
| ReactionRuns.SyncConverges | pkg/connector/handleteams.go:573-693 | the exact condition under which one sync makes the bridged reactions of the target equal the Teams reactions, and that no other target is touched |
| ReactionRuns.RemovedReactionStays | pkg/connector/handleteams.go:586-589 | a state in which a removed last reaction stays bridged |
| ReactionRuns.IngestConverges | pkg/connector/handleteams.go:342-428 | after the poll loop every message with the last word on its target is converged |
| ReactionRuns.PollConverges | pkg/connector/handleteams.go:315-431 | the same after the whole poll, receipts included |
| HorizonRuns.ReceiptIsJustified | pkg/connector/handleteams.go:442-532 | a receipt is queued only for the one remote entry, with a positive time above the stored one, and is stored |
| ReadReceipts.ReceiptExactly | pkg/connector/handleteams.go:442-532 | the server is asked iff never before or 30 seconds have passed; a receipt is queued and stored iff exactly one entry is of a remote user, its second semicolon field is a positive time later than the stored one, and the target lookup works; nothing else changes |
| ReadReceipts.HorizonReads | internal/teams/model/consumption_horizon.go:20-34 | the time is the number between the first and the second semicolon, blanks trimmed |
| HorizonRuns.HorizonsStayMonotone | pkg/teamsdb/consumption_horizon.go:53-70 | a horizon poll keeps receipts increasing and the stored time the latest of them |
| HorizonRuns.ReceiptsMonotone | pkg/connector/handleteams.go:442-532 | on every run the receipts of one remote user strictly increase although the store overwrites |
| HorizonRuns.FetchesKeepDistance | pkg/connector/handleteams.go:559-571 | on every run two horizon fetches of a thread are at least 30 seconds apart |
| PollBackoff.BackoffState.ApplyOutcome | pkg/connector/poll_backoff.go:85-118 | the new failure count and delay, and the reason, for every outcome |
| PollBackoff.BackoffState.OnFailure | pkg/connector/poll_backoff.go:58-68 | the delay of the n-th failure in a row, overflow included |
| PollBackoff.BackoffState.OnIdle | pkg/connector/poll_backoff.go:37-45 | the delay after an idle poll |
| PollBackoff.FailuresSinceReset | pkg/connector/poll_backoff.go:31-68 | after every trace the counter is the number of failures since the last outcome that was not one |
| PollBackoff.DelayAfterLast | pkg/connector/poll_backoff.go:85-118 | after every trace: 2s after success; above 2s and at most 30s after idle, iff the poll before was not given a delay that leaves no room for 2s more in 64 bits; the given time after Retry-After; 30s after another 4xx; min(2s * 2^(n-1), 60s) after the n-th failure in a row up to 33 |
| PollBackoff.DelayAfterFailures | pkg/connector/poll_backoff.go:58-68 | after every trace that ends in n failures: the delay is the intended one for exactly the counts up to 33 and eight more, and not positive for all others |
| PollBackoff.ThirtyFourFailures | pkg/connector/poll_backoff.go:58-68 | 34 failed polls in a row leave no delay |
| PollBackoff.IdleRamp | pkg/connector/poll_backoff.go:37-45 | k idle polls after a success wait 2s more each, up to 30s |
| PollBackoff.ExponentialFitsUpTo33 | pkg/connector/poll_backoff.go:58-68 | 33 is the largest count whose product fits in 64 bits |
| PollBackoff.FailureDelayAsIntendedIff | pkg/connector/poll_backoff.go:58-68 | the delay is min(2s * 2^(n-1), 60s) for exactly the counts up to 33 and eight more, and not positive for all others |
| Scheduler.PollLoop.Round | pkg/connector/handleteams.go:260-313 | one round polls exactly the due listed threads, once each and in order, and wakes at the earliest of now + 5s and every next poll |
| Scheduler.PollLoop.PollIfDue | pkg/connector/handleteams.go:277-300 | the loop body for one thread |
| Scheduler.DiscoversAgainIff | pkg/connector/handleteams.go:256-270 | over all rounds: after a discovery the next is in the first round 30 seconds later or more, and not before |
| Scheduler.DiscoveriesKeepDistance | pkg/connector/handleteams.go:265-270 | any two discoveries are at least 30 seconds apart |
| Scheduler.FirstRoundDiscoversIff | pkg/connector/handleteams.go:256-270 | the first round discovers iff the initial discovery failed or 30 seconds have passed |
| Scheduler.OverflowPollsAtOnce | pkg/connector/handleteams.go:277-300 | once the failure delay has overflowed, a failing thread is polled again in the next round that lists it |
| Scheduler.DueThreadsExactly | pkg/connector/handleteams.go:260-300 | a thread is polled in a round iff it is listed and due, and then once |
| Scheduler.ScheduleHolds | pkg/connector/handleteams.go:277-300 | between two polls of a thread its scheduled time does not move |
| Scheduler.PolledAgainIff | pkg/connector/handleteams.go:260-313 | over all rounds: a polled thread is polled again in the first round that lists it once the returned delay has passed, and not before |
| Scheduler.NewThreadPolledAtOnce | pkg/connector/handleteams.go:277-300 | a thread that is new to the loop is polled in the first round that lists it |
| Scheduler.NoOversleep | pkg/connector/handleteams.go:271-312 | sleeping until the wake-up time oversleeps no thread by more than the minimum sleep and the timer's slack |
| Scheduler.FastDelayIffMessageQueued | pkg/connector/handleteams.go:391-413 | a successful poll is followed by exactly the success delay iff it queued a message event |
| Executor.Do | internal/teams/client/executor.go:67-146 | the call stops at the first attempt that is not retried, returns that attempt's outcome, and has sent and slept what the attempts up to it call for |
| Executor.LastExists | internal/teams/client/executor.go:94-145 | every script has a last attempt within the retry limit |
| Executor.LastUnique | internal/teams/client/executor.go:94-145 | and only one |
| Executor.TraceAlternates | internal/teams/client/executor.go:94-145 | exactly one sleep between two sends; a positive Retry-After replaces the computed delay (section 10.2.3 of RFC 9110) |
| Executor.SendsBounded | internal/teams/client/executor.go:94-145 | at most max(0, MaxRetries) + 1 requests are sent |
| Executor.ResultIsFirstFinal | internal/teams/client/executor.go:94-145 | what each kind of result means: the first final outcome, the last allowed one, a cancellation, or iff the body cannot be sent again the error that says so |
| Executor.EverySendCarriesTheBody | internal/teams/client/executor.go:148-164 | every send carries the same body; a body without GetBody is sent once, and before the last attempt every copy worked |
| Executor.BackoffAsIntendedIff | internal/teams/client/executor.go:166-175 | the backoff is min(base * 2^(retry-1), cap) iff the product fits in 63 bits or its low 64 bits lie between the cap and 2^63 |
| Executor.ConfiguredBackoffDoubles | internal/teams/client/messages.go:246-252 | as configured, and with nothing configured, the backoff before jitter is 0.5s * 2^(retry-1) up to the fifth retry and 10s from then to the 35th |
| Executor.FirstOverflowAt36 | internal/teams/client/executor.go:166-175 | with that base retries 1 to 35 are as intended and the 36th has a negative delay |
| Upload.UploadFileInChunks | internal/teams/graph/chunked_upload.go:33-142 | argument errors and the default and alignment of the chunk size, the range of every request, where each next one starts and how the loop ends, against any server; which replies resend, resume, return or fail is ChunkReplies |
| ChunkReplies.ResentExactly | internal/teams/graph/chunked_upload.go:144-168 | an attempt at a chunk is followed by another iff it was sent, the reply was 429, 500 or above, a timeout or a deadline not the caller's, retries are left and nobody cancelled; the trace then sends the same chunk and sleeps a positive Retry-After of a 429, else the jittered backoff |
| ChunkReplies.EndsAfterLast | internal/teams/client/executor.go:94-145 | what the last attempt adds to the trace: nothing, one send, or a send and the sleep that was cancelled |
| ChunkReplies.LastReplyDecides | internal/teams/graph/chunked_upload.go:78-142 | the upload fails at once unless the last attempt brings a 2xx; a 202 resumes at the offset its first range names, any other 2xx returns the item or the one fetched for its id |
| ChunkReplies.OffsetIsParsed | internal/teams/graph/chunked_upload.go:170-183 | a range names an offset iff it is digits, perhaps after a plus sign, up to its first dash, below 2^63 |
| Upload.ParsesRange | internal/teams/graph/chunked_upload.go:170-183 | a trimmed range is read as the digits before its dash iff they fit in 63 bits |
| Upload.RangeRoundTrip | internal/teams/graph/chunked_upload.go:170-183 | the printed form of an offset reads back |
| Upload.StoredIsPrefix | internal/teams/graph/chunked_upload.go:54-142 | whatever is accepted and however often chunks are resent, the session holds a prefix of the content |
| Upload.StartsAtStored | internal/teams/graph/chunked_upload.go:54-142 | against an honest session every request starts at the first byte the session does not hold, however much of each chunk was kept and however often it was resent |
| Upload.UploadedIsContent | internal/teams/graph/chunked_upload.go:54-142 | against an honest session the loop never runs off the end without an item, and when it returns one the session holds the content |
| Upload.UploadSucceeds | internal/teams/graph/chunked_upload.go:54-142 | against an honest session, when every request gets through and leaves at least one byte, the item is returned and the session holds the content |
| Upload.PartialSessionIsHonest | internal/teams/graph/chunked_upload.go:54-142 | an honest session with a resent and partly kept chunk, whose upload finishes |
| Upload.UploadTerminates | internal/teams/graph/chunked_upload.go:54-142 | against a server that makes progress there are at most as many requests as bytes |
| Upload.WholeChunksCount | internal/teams/graph/chunked_upload.go:54-142 | when an honest session keeps chunks whole the ranges are consecutive, all but the last of chunkSize bytes, ceil(total / chunkSize) of them |
| Html.RenderPlainNode | internal/teams/model/message_html.go:115-142 | what the plain renderer adds to the builder |
| Html.RenderFormattedNode | internal/teams/model/message_html.go:144-196 | what the formatted renderer adds to the builder, and its flag; what that shows of any document is Allowlist.FormattedShowsExactly |
| Allowlist.FormattedShowsExactly | internal/teams/model/message_html.go:144-246 | for every document the output reads back as a tree with exactly the text outside script, style, iframe, object, embed, meta, link and head, the elements of the fifteen allowed names, and for each anchor the trimmed value of its first href iff its scheme is http, https, mailto or matrix, all in document order |
| Allowlist.PlainShowsExactly | internal/teams/model/message_html.go:115-142 | for every document the plain output is that text with newlines put in |
| Allowlist.PlainBreaks | internal/teams/model/message_html.go:115-142 | where: before and after the elements of the fourteen breaking names and at line breaks, each time unless the text is empty or ends in one |
| Html.Builder.AppendPlainNewline | internal/teams/model/message_html.go:248-256 | a newline, unless the text is empty or ends in one |
| HtmlTree.ParsePrint | internal/teams/model/message_html.go:144-196 | printing an allowed tree and parsing it back gives the tree |
| HtmlTree.ParseIsWellFormed | internal/teams/model/message_html.go:144-196 | whatever parses is balanced and holds allowed tags only |
| HtmlTree.UnescapeEscape | internal/teams/model/message_html.go:144-148 | escaped text reads back |
| Sanitizer.FormattedIsPrinted | internal/teams/model/message_html.go:144-196 | the renderer prints the cleaned tree |
| Sanitizer.FormattedReadsBack | internal/teams/model/message_html.go:144-196 | for every DOM, parsing the rendered markup gives the cleaned tree |
| Sanitizer.FlagIffTagWritten | internal/teams/model/message_html.go:144-196 | the renderer reports true iff a tag was written |
| Sanitizer.CleanSafeLinks | internal/teams/model/message_html.go:213-237 | every link in the output passes the href check unchanged, so checking it again changes nothing; which links pass is Allowlist.FormattedShowsExactly |
| Sanitizer.CleanOfSpelled | internal/teams/model/message_html.go:144-196 | an allowed tree with checked links is left as it is |
| Sanitizer.SanitizeIsIdempotent | internal/teams/model/message_html.go:144-196 | sanitizing sanitized markup changes nothing |
| Sanitizer.SanitizedIsFixed | internal/teams/model/message_html.go:144-196 | every output is spelled out by some DOM, which is sanitized to the same output |
| Sanitizer.PlainShowsCleanText | internal/teams/model/message_html.go:115-142 | the plain renderer emits the text of the cleaned tree, in order and without loss, with nothing but newlines put in |
| Echo.NormalizeFragment | internal/teams/model/message_html.go:79-113 | body and formatted body of a parsed fragment |
| Echo.LooksLikeHTMLIff | internal/teams/model/message_html.go:75-77 | a text looks like HTML iff it holds a '<', blanks with at most one slash among them, a letter, and a '>' after that |
| Echo.PlainTextStaysPlain | internal/teams/model/message_html.go:50-73 | a text without such a tag, or that does not parse, comes out unescaped and normalized, with no formatted body |
| Echo.MarkupIsRendered | internal/teams/model/message_html.go:50-113 | any other text comes out as the plain rendering of its fragment, normalized, and, if a tag was written and plain text is left, the trimmed print of its cleaned tree |
| Echo.LineEndsUnified | internal/teams/model/message_html.go:258-264 | a carriage return, with or without a newline after it, becomes one newline, and nothing else changes |
| Echo.RunsShortened | internal/teams/model/message_html.go:258-264 | a run of three newlines or more becomes two |
| Echo.ShortRunsStay | internal/teams/model/message_html.go:258-264 | a text without such a run stays as it is |
| Echo.ContentIsParagraph | internal/teams/client/messages.go:280-286 | outbound markup is the print of one allowed paragraph |
| Echo.ParagraphPlainText | internal/teams/model/message_html.go:115-142 | rendering that paragraph plainly gives the text with runs of newlines collapsed and margins trimmed |
| Echo.EchoRoundTrip | internal/teams/model/message_html.go:50-113 | every sent text comes back with line ends unified, newline runs collapsed and margins trimmed, and with the markup that was sent |
| Echo.PlainTextEchoesUnchanged | internal/teams/model/message_html.go:50-113 | a text without carriage returns, blank lines and blank margins comes back unchanged |
| TokenRotation.Login.EnsureValidSkypeToken | pkg/connector/handleteams.go:96-164 | metadata, saved copy, presented refresh token and success of a Skype refresh; when it is made and what it stores is TokenExpiry.SkypeRefreshesIff and TokenExpiry.SkypeRefreshStores |
| TokenRotation.Login.EnsureValidGraphToken | pkg/connector/graph_token.go:10-41 | the same for a Graph refresh, with TokenExpiry.GraphRefreshesIff and TokenExpiry.GraphRefreshStores |
| TokenExpiry.SkypeRefreshesIff | pkg/connector/handleteams.go:111-121 | the refresh token is presented iff it is there and the stored token is blank, has no expiry, or expires at most 60 seconds from now; success without a request iff it is there and expires later |
| TokenExpiry.GraphRefreshesIff | pkg/teamsid/dbmeta.go:55-61 | the same for the Graph token, which counts as blank when it is all whitespace |
| TokenExpiry.SkypeRefreshStores | pkg/connector/handleteams.go:128-164 | a Skype refresh succeeds iff an access token is granted and a Skype token comes back, and then what is stored in memory and saved |
| TokenExpiry.GraphRefreshStores | pkg/connector/graph_token.go:26-40 | a Graph refresh asks again iff the first answer has no access token, succeeds iff the deciding one has a token that is not blank and a lifetime, and then what is stored |
| TokenRotation.FirstScopeDecides | internal/teams/auth/token.go:109-125 | the first scope decides when it is of a known kind |
| Scopes.ScopesReadExactly | internal/teams/auth/token.go:109-125 | the first scope decides against Graph when it holds the MBI scope, for it when it holds the Graph host or ends in the files permission; else the scopes after it decide |
| Scopes.TargetsToldApart | internal/teams/auth/msal.go:119-165 | entries of the MBI scope and of the Graph scope match their own marker only, in any case, and only with a token |
| TokenRotation.MBIScopeNotForGraph | internal/teams/auth/token.go:109-125 | a refresh that starts with the MBI scope never yields a Graph token |
| TokenRotation.GraphRequestResults | pkg/connector/oauth_refresh.go:15-31 | the fallback request is made iff the first grants nothing, and what either grants is a Graph token |
| TokenRotation.StepKeepsNewest | pkg/connector/handleteams.go:96-164 | a refresh presents the newest refresh token iff it is not the second Graph request after an answer that rotated without an access token, never blanks the token, and leaves the newest held and saved iff it does not drop a rotation |
| TokenRotation.RotationKeptIff | pkg/connector/graph_token.go:10-41 | on every interleaving of the two refreshers the newest refresh token is presented, held and saved throughout iff no step drops a rotation or presents a stale token |
| TokenRotation.RotationNeverLost | pkg/connector/graph_token.go:10-41 | which holds on every interleaving with healthy replies, so a token once held is never lost |
| TokenRotation.SkypeRefreshKeepsGraphPair | pkg/connector/handleteams.go:151-156 | a Skype refresh leaves the stored Graph token and expiry alone |
| TokenRotation.RotationLostWithoutLifetime | pkg/connector/graph_token.go:26-37 | a rotation the Graph refresher loses |
| TokenRotation.RotationLostWithoutAccessToken | internal/teams/auth/token.go:86-88 | a rotation both refreshers lose, and a stale token presented |
| Auth.SelectAccessToken | internal/teams/auth/msal.go:119-165 | the matching entry that expires last, token and expiry of the same entry; blank iff none matches |
| Auth.BestIsFirstLatest | internal/teams/auth/teams_cache.go:154-156 | keeping the better of two leaves the first of those that expire last |
| Auth.StateRef.MergeFrom | internal/teams/auth/msal.go:365-390 | the merged state, also when source and destination are one |
| Auth.MergeAllAppend | internal/teams/auth/msal.go:365-390 | merging is associative, over any grouping of sources |
| Auth.FirstTokenWins | internal/teams/auth/msal.go:365-390 | each token comes with its expiry from the first source that has one |
| TokenCache.ExtractTeamsAuthTokens | internal/teams/auth/teams_cache.go:33-104 | the result is that of some order of iteration, with a key and a user the storage offers |
| TokenCache.ExtractEncryptionKey | internal/teams/auth/teams_cache.go:106-125 | the key of some usable entry; empty when there is none |
| TokenCache.ExtractPrimaryUser | internal/teams/auth/teams_cache.go:127-140 | the trimmed user of some readable entry; blank when there is none |
| CacheEntries.OffersExactly | internal/teams/auth/teams_cache.go:38-92 | an entry offers a token iff its key is that of a token of the kind and not of another user, and it holds that token in plain or, failing that, decrypts to it; with its own expiry and user |
| CacheEntries.FailsExactly | internal/teams/auth/teams_cache.go:43-71 | which entries count as found, and which as failed to decrypt |
| CacheEntries.OwnerFound | internal/teams/auth/teams_cache.go:142-152 | the owner of an entry stands between the prefix, in any case, and the next dot |
| CacheOrder.KeptExpiresLast | internal/teams/auth/teams_cache.go:43-92 | in every order the token kept for a kind is a usable one with its own expiry that none outlives |
| CacheOrder.ExtractionsAgreeIff | internal/teams/auth/teams_cache.go:33-140 | all extractions from one storage agree, over the orders of all three walks, iff any two possible choices of key and user have the same latest token of every kind and, where there is none, fail alike |
| CacheOrder.OutcomesAgreeIff | internal/teams/auth/teams_cache.go:43-104 | the same for two given choices |
| CacheOrder.OrderIrrelevantIff | internal/teams/auth/teams_cache.go:43-104 | with the key and the user given, every order gives the same result iff no kind has two different tokens that tie for the latest expiry |
| CacheOrder.TieDependsOnOrder | internal/teams/auth/teams_cache.go:43-104 | two tokens that tie are extracted differently in two orders |
| CacheOrder.TwoUsersDependOnOrder | internal/teams/auth/teams_cache.go:127-140 | a storage with two primary users and no tie from which two extractions differ |
| CacheOrder.ExtractionIsDeterministic | internal/teams/auth/teams_cache.go:33-104 | with one key entry, one user entry and no ties two extractions agree |
| Pkcs7.UnpadPKCS7 | internal/teams/auth/teams_cache.go:189-203 | accepts exactly whole blocks that end in as many bytes of the count as the count says |
| Pkcs7.UnpadOfPad | internal/teams/auth/msal_test.go:219-227 | for block sizes 1 to 255 unpadding undoes padding (section 6.3 of RFC 5652) |
| Pkcs7.PadOfUnpad | internal/teams/auth/teams_cache.go:189-203 | what unpads is the padding of what it unpads to |
| Pkcs7.RoundTripIffCountFitsByte | internal/teams/auth/msal_test.go:219-227 | 255 is the largest block size for which the round trip holds |
| Pkcs7.DecryptOfEncrypted | internal/teams/auth/teams_cache.go:158-187 | a token encrypted from its padded bytes decrypts to itself |
| Pkcs7.DecryptsExactly | internal/teams/auth/teams_cache.go:158-187 | a token comes out iff key and vector are good and the ciphertext, in whole blocks, hides the padded bytes of that token |
| SelfEcho.SelfMessages.RecordSelfMessage | pkg/connector/client.go:247-260 | the entries after recording |
| SelfEcho.SelfMessages.ConsumeSelfMessage | pkg/connector/client.go:262-279 | the answer and the entries after consuming |
| SelfEcho.SelfMessages.CleanupSelfMessagesLocked | pkg/connector/client.go:281-290 | exactly the entries older than five minutes go |
| SelfEcho.RecognisedIffRecordedRecently | pkg/connector/client.go:247-290 | on every run with a clock that never goes back, an id is recognised iff it was recorded at most five minutes ago and not consumed since |
| SelfEcho.EntriesAreFresh | pkg/connector/client.go:281-290 | after an operation that is not blank every entry is at most five minutes old |
| SelfEcho.RecognisedOnce | pkg/connector/client.go:262-279 | a consumed id is not recognised again until recorded again |
| ClientIds.StepKeepsSoundIff | internal/teams/client/messages.go:130-141 | every load and swap of every caller keeps ids distinct, at least the caller's clock and at most the counter, except a load of the largest counter value, which never does |
| ClientIds.SoundThroughoutIff | internal/teams/client/messages.go:130-141 | a run of any length stays sound iff no load meets the largest counter value |
| ClientIds.RoomBelowTop | internal/teams/client/messages.go:130-141 | none does while the clock readings leave room for the steps below 2^64 |
| ClientIds.SwapRaisesOrLost | internal/teams/client/messages.go:137-139 | a successful swap raises the counter to the returned id; a failed one means another call raised it |
| ClientIds.IdsAreDistinct | internal/teams/client/messages.go:130-141 | on every interleaving of any length in which no load meets the largest counter value, all returned ids print differently and are at least their caller's clock |
| ClientIds.LoadGoesAboveIff | internal/teams/client/messages.go:133-136 | the exact condition under which a load leaves the caller above the counter |
| ClientIds.WrapsAtTheEnd | internal/teams/client/messages.go:130-141 | at the largest counter value the next id is zero |
| OneToOne.IsLikelyOneToOne | internal/teams/model/conversation.go:149-185 | true iff there is no thread name and the others have exactly one key between them, early exits included |
| Membership.OneToOneExactly | internal/teams/model/conversation.go:149-262 | yes iff no title is there and all who count have one key: not flagged as the user nor with the user's id up to case and digit prefixes, no bot id, not named like the user |
| OneToOne.CollectSelfDisplayNames | internal/teams/model/conversation.go:187-201 | the lowered names of the members that are the user |
| OneToOne.ResolveThreadName | internal/teams/model/conversation.go:125-147 | the first title that is not blank |
| OneToOne.NormalizeParticipantID | internal/teams/model/conversation.go:230-254 | terminates and strips all leading digit prefixes |
| OneToOne.NormalizeIdempotentIff | internal/teams/model/conversation.go:230-254 | normalizing twice is normalizing once iff no blank follows the leading digit groups of the trimmed id |
| OneToOne.NoBlankAfterColonIsIdempotent | internal/teams/model/conversation.go:230-254 | which holds for every id without a blank after a colon, so for every id without blanks |
| OneToOne.BlankTakesTwoRounds | internal/teams/model/conversation.go:230-254 | "8: x" takes two rounds |
| OneToOne.OnlyMemberSetMatters | internal/teams/model/conversation.go:149-185 | reordering, repeating or moving members between the lists does not change the answer |
| OneToOne.PairIsOneToOne | internal/teams/model/conversation.go:149-185 | the user and one other person are a one-to-one chat, bots aside |
| Emoji.InvertTable | pkg/connector/reactions.go:116-124 | in any order of iteration the inverse has exactly the names of the table, each with an emoji of that name |
| Emoji.KeySurvives | pkg/connector/reactions.go:126-142 | a name maps iff it is in the table, and gets back from its emoji |
| Emoji.EmojiMapsIff | pkg/connector/reactions.go:126-134 | an emoji maps iff its qualified form is in the table, and then to the name there |
| Emoji.EmojiSurvivesIff | pkg/connector/reactions.go:116-142 | an emoji survives the round trip in every order iff no other emoji has its name |

## Left out

- Text is sequences of characters: case mapping covers ASCII letters only, and invalid UTF-8 and NUL characters are not modelled.
- JSON, HTTP, SQL, AES and base64 are inputs, abstract functions or maps; url.Parse, html.UnescapeString and the HTML parser are function parameters, and the echo theorem states what it needs of the parser.
- TeamsClient.Client.PollThread: the profile upsert, the unread flag and the self-echo check that gates it are not part of the poll, because neither the queue nor the cursor depends on them.
- SyncRuns.ExactlyOnceDelivery: one login, one poll loop and store writes that succeed, since the code ignores their errors; sequence ids are numerals below 2^64.
- ReactionRuns.PollConverges: the bridge applies a full reaction sync as soon as it is queued, and each message that has the last word on its target is judged within one poll.
- ListMessages.SortBySequence: an insertion sort stands for sort.Slice; no caller relies on the order of ties.
- Scheduler.PollLoop.Round: the poll states are values in a map, not shared pointers, and the results of the polls are inputs.
- Executor.Do: the outcomes of attempts are an arbitrary function of the attempt number and the jitter an arbitrary function of its use and the delay; logging is not modelled.
- Upload.UploadedIsContent: that the session is honest is a hypothesis: a 202 names the first byte it does not hold, and an item comes only when it holds all bytes.
- TokenRotation.RotationNeverLost: expiry arithmetic is unbounded and saves succeed.
- TokenRotation.GraphRequestResults: the endpoint is an input, so the scopes a request asks for show only in how its answer is read.
- TokenCache.ExtractTeamsAuthTokens: an error says which of the three it is, without its text; item expiries are decoded beforehand.
- Auth.SelectAccessToken: one method stands for two functions that differ in the marker they look for; the rest of the MSAL extraction is not modelled.
- Pkcs7.DecryptOfEncrypted: CBC decryption is an abstract function.
- Emoji.InvertTable: the contents of the emoji table are not modelled, and full qualification is a function parameter.
- startSyncLoop and stopSyncLoop: starting and stopping the loop may race, so there is no clean property to state; the model assumes one loop.
- Attachments, GIFs, typing, login screens, cookies, capabilities and configuration: plumbing, or easy members only.
