# Verified model of CopaLibre's protocols and state machines

CopaLibre runs tournaments: a server publishes match events over Server-Sent Events, consoles and
televisions follow them with a reconnecting client, a scheduler shared by several replicas enqueues
recurring work, a rate limiter is shared through one database table, and a handful of self-contained
algorithms draw brackets, build canonical URLs, fold statistics, install modules and import data. This
project models those parts in Dafny and proves what they promise. Every statement is for all inputs,
all runs, all ways the network cuts a stream, or all points of failure.

`dafny verify dfyconfig.toml` checks the whole project.

## How the project is laid out

- **The event stream.** `Text`, `JsNumber` and `JsonText` hold the string, number and JSON functions of
  the host language that are needed, `NumberText` the grammar of the numbers. `Wire` is the encoder and
  the incremental parser with its buffer; `WireText` says what the text of a frame is and what any line
  of a block sets; `ChunkInvariance` and `RoundTrip` prove when cutting a stream does not matter and
  when what is written is what is read. `EventStream` is the server half of one connection, `Backoff`
  and `RealtimeClient` the client with its cursor; `Reconnect` and `GapFreedom` speak about whole runs
  of the two against each other.
- **The rate limiter.** `Throttler` is the atomic row transition; `ThrottlerHistory` relates the stored
  row to the whole history of hits and derives the rate bound; `ThrottlerCleanup` says exactly for which
  policies the background deletion cannot be noticed.
- **The scheduler.** `SchedulerLease` is the lease, the ticks of several replicas with their own clocks
  and pauses, and the fencing tokens; `ScheduledJobs` is the second line of defence on the job rows.
- **Brackets.** `BracketPlacements` reconstructs where every side of a game came from; `BracketMeaning`
  says what an edge is in terms of the games on record; `BracketLinks` proves the reconstructed edges
  consistent and acyclic, and the drawn node ids distinct.
- **Design tokens.** `DesignTokens` is the reader of the front matter and the printer;
  `DesignTokensReading` says which documents, lines and scalars are taken and how;
  `DesignTokensRoundTrip` says exactly which trees survive; `TokenDifferences` is the comparison.
- **Installing modules.** `ModuleCatalogue` holds tables and objects, `ModuleInstall` the two sagas that
  store objects first and compensate when anything behind them fails.
- **Smaller kernels.** `Scrambler` (unique replacement names by linear probing), `ZonedTime` (wall clock
  to instant), `Paths` (canonical URLs), `MergeFigures` (live statistics), `Aliasing` (renamed aliases).

Code that updates state is a class or a method with the source's loops, proved against a function or a
predicate; what the source promises is then proved about that function.

## Assumptions about the environment

- One run of `connect` is given a script: for each round what the network, the handlers, the token
  renewal and the abort signal do. The server streams over any script of polls, none before the
  connection opened, each seeing a prefix of a log that only grows at its end and is ordered by
  `(created_at, event_id)`.
- The hits on a bucket of the rate limiter reach the table in the order of their times. Each process
  stamps them with its own clock, so across replicas this is an assumption about those clocks.
- The JSON codec of envelopes is an inverse pair that writes no raw line ending; on plain strings, where
  the design tokens need it, escaping is modelled in full.
- `acquire` on the lease is one atomic statement on the database's clock. Object storage puts are atomic.
  A transaction happens whole or not at all.
- Time zones, Unicode folding, digests, document schemas and the calendar are functions given from
  outside.

## Where the code and its comments differ

The model follows the code. The differences below are theorems in the table.

- Line-ending normalisation runs over the whole buffer on every push and is not idempotent on a carriage
  return in front of a CRLF. What the parser has returned and holds back is a function of the text so
  far exactly for the streams without one (`ChunkInvariance.ChunkInvarianceExactly`), and even the frames
  of a whole stream can depend on the cut (`RoundTrip.FramesDependOnTheCut`).
- After `replay.expired` the client keeps its cursor while the server closes the connection, so every
  later connection is answered the same way and no event is ever delivered again
  (`GapFreedom.NoticeArrives`, `GapFreedom.ExpiredForever`), although the comment speaks of the
  connection as fine. A stream that misses nothing gets there too, by an hour without events: the notice
  comes exactly when a poll finds the last row read older than the window (`EventStream.NoticeExactly`).
- A subscriber without a cursor is replayed from the first row of the outbox, whatever its age, and the
  poll behind that batch finds the new cursor stale: on an outbox older than the window it never gets
  past the first batch (`GapFreedom.NeverPastFirstBatch`, `GapFreedom.ProgressExactly`).
- The tick's guard is described as checking the clock at the moment of acting. It uses the time the tick
  began, before `acquire`, so it cannot see a pause (`SchedulerLease.GuardSeesNoPause`,
  `SchedulerLease.PausedTickEnqueues`).
- `wasFenced` is described as evidence of a takeover. Every renewal raises the token too, so until a
  renewal is settled a replica looks fenced by itself (`SchedulerLease.RenewalLooksFenced`).
- `connect` is described as resolving and never throwing. It rejects exactly when `onFailure`, or
  `renewToken` behind a failure that asks for it, throws in its last round (`Reconnect.RunEnds`,
  `Reconnect.ConnectRejects`), and never for callbacks that return (`Reconnect.QuietNeverRejects`).
- The cleanup of the rate limiter looks at the window of a row and never at its block, so it forgets
  blocks that outlast the window (`ThrottlerCleanup.InvisibleExactly`).
- `JSON.stringify` leaves the line and paragraph separators alone, and the reader's line pattern does not
  match them, so a token text that holds one is printed on a line the reader refuses
  (`DesignTokensRoundTrip.ReadsBackExactly`).
- A refused import is described as leaving nothing behind. Importing an installed version again is
  refused, and its compensation deletes the stored assets of the version that stays installed
  (`ModuleInstall.ImportTwice`).
- A community module may hold an alias that a later first-party catalogue reserves: the import compares
  with installed modules and the current catalogue only, and the later seed refuses
  (`ModuleInstall.ImportThenSeed`).
- Replacement names are described as never shared. Candidate positions are never shared; a surname that
  is twice in the pool is given to two keys (`Scrambler.NamesDifferExactly`).
- The console and television paths are described as a prefix in front of the public path. An organization
  whose alias is two letters is taken for a locale and dropped (`Paths.PrefixesExactly`,
  `Paths.TwoLettersCollide`).

## Model

| member | source | states |
|---|---|---|
| Wire.EncodeFrame | packages/realtime/src/wire.ts:35-44 | the loop over data lines writes the frame's header lines, one data line per line of the payload, and the blank line that ends the frame |
| Wire.ParseFrame | packages/realtime/src/wire.ts:121-172 | the loop over lines reads a block as the fold of its fields does: comments and unknown fields skipped, one leading space taken off, data lines joined, unusable retry ignored, nothing for a block without fields |
| Wire.Boundary | packages/realtime/src/wire.ts:99-106 | the cut is at the first blank line, and at none earlier |
| Wire.SseParser.Push | packages/realtime/src/wire.ts:91-109 | one push returns the frames of the blocks its normalised buffer completes, keeps the rest, and leaves no complete boundary behind |
| Wire.SseParser.Pending | packages/realtime/src/wire.ts:111-114 | the held-back text is the buffer |
| Wire.SseParser.Reset | packages/realtime/src/wire.ts:116-118 | nothing of a torn frame survives |
| WireText.EncodedText | packages/realtime/src/wire.ts:35-44 | the text of a frame with one line of data, part by part: `id`, `event` and `retry` as far as it has them, then the data and a blank line |
| WireText.ServerText | packages/realtime/src/wire.ts:22-44 | what goes over the wire for an event, for an expired cursor and for a heartbeat |
| WireText.ReadsAnyLine | packages/realtime/src/wire.ts:121-172 | what any line sets, with or without a space behind the colon: the last `id`, `event` and usable `retry` count, data lines collect, a comment, an unknown field and an unusable `retry` set nothing |
| WireText.EveryLine | packages/realtime/src/wire.ts:121-172 | every line that is not blank or a comment is of one of those forms |
| ChunkInvariance.NormalisedAgain | packages/realtime/src/wire.ts:95-97 | normalising the buffer again after more has arrived equals normalising the whole, when the first part has no CR CRLF |
| ChunkInvariance.PushExtends | packages/realtime/src/wire.ts:91-109 | one more push adds exactly the blocks and leaves exactly the buffer that one push of the whole text gives |
| ChunkInvariance.ChunkInvariant | packages/realtime/src/wire.ts:87-119 | any cut of a stream without CR CRLF into chunks gives the blocks and pending text of one push |
| ChunkInvariance.BadCutDiffers | packages/realtime/src/wire.ts:91-109 | every stream with a CR CRLF has a cut that changes the raw blocks or the pending text |
| ChunkInvariance.BlocksInvariantExactly | packages/realtime/src/wire.ts:87-119 | the raw blocks and the pending text of a whole stream are independent of the cut if and only if it has no CR in front of a CRLF |
| ChunkInvariance.PendingDiffers | packages/realtime/src/wire.ts:91-114 | right behind a CR CRLF an empty chunk changes the pending text |
| ChunkInvariance.ChunkInvarianceExactly | packages/realtime/src/wire.ts:87-119 | at every point of a stream the frames returned and the pending text are independent of the chunks if and only if the stream has no CR in front of a CRLF |
| RoundTrip.NormalisedEncoded | packages/realtime/src/wire.ts:35-44 | normalising an encoded frame is encoding the frame without the CRs its lines end in |
| RoundTrip.ParsedLines | packages/realtime/src/wire.ts:121-172 | the block of an encoded frame parses back to id, event, retry and multi-line data |
| RoundTrip.ReadsBackTrimmed | packages/realtime/src/wire.ts:22-44 | a stream of frames and heartbeats reads back in one push as all frames in order, trimmed of trailing CRs, nothing pending |
| RoundTrip.FaithfulReadsBack | packages/realtime/src/wire.ts:22-172 | frames without newline in id or event, CRLF in data or a CR at an end come back equal for every cut |
| RoundTrip.RoundTripExactly | packages/realtime/src/wire.ts:22-172 | equal frames, in order, for every cut and nothing pending, if and only if every frame is of that kind |
| RoundTrip.FramesDependOnTheCut | packages/realtime/src/wire.ts:91-109 | a stream whose frames, not only its pending text, depend on the cut |
| JsNumber.NumberOfShow | packages/realtime/src/wire.ts:151-156 | a printed integer retry is read back as the same number |
| NumberText.LiteralExactly | packages/realtime/src/wire.ts:151-156 | which values between blanks a `retry` is read as a number from, and which number: nothing, digits of base 2, 8 or 16, or a decimal with sign, point and exponent |
| NumberText.ScientificExactly | packages/realtime/src/wire.ts:151-156 | a number without a sign is read exactly if it is an amount, alone or shifted by an exponent |
| NumberText.BlanksDoNotMatter | packages/realtime/src/wire.ts:151-156 | blanks in front and behind change nothing |
| EventStream.Next | apps/events/src/stream/subscription.ts:65-90 | a batch is refused or is the next stretch of the outbox, with its events, its cursor and the reason |
| EventStream.RefusedExactly | packages/persistence/src/relay/event-stream.ts:66-87 | a cursor is refused if and only if every row of its name is more than 3600 seconds old, in particular if there is none |
| EventStream.ReasonTells | packages/persistence/src/relay/event-stream.ts:74-86 | the reason tells an unknown cursor from an old one, and an old one's age to the nearest second |
| EventStream.BatchExactly | packages/persistence/src/relay/event-stream.ts:93-137 | a batch starts right behind the row of its cursor, holds at most 500 selected rows, ends early only when none is left, and moves the cursor to the last row read |
| EventStream.PublishedExactly | apps/events/src/stream/subscription.ts:65-90 | of the rows read, each selected one the subscriber may see is published, once and in order, and nothing else is |
| EventStream.NextIsStretch | packages/persistence/src/relay/event-stream.ts:93-137 | a batch is the published part of the log from the cursor to the new cursor, unpublished rows read past |
| EventStream.StreamEvents | apps/events/src/stream/stream-writer.ts:45-95 | the polling loop, over all polls of a growing outbox, sends what the recursive stream of those polls says: batches, heartbeats and the notice |
| EventStream.SentIsStretch | apps/events/src/stream/stream-writer.ts:45-95 | the events sent are exactly the published events between the cursor of the request and the last row read |
| EventStream.NothingUnsent | packages/persistence/src/relay/event-stream.ts:14-22 | once a poll finds no more selected rows than a batch holds, every published event it sees behind the requested cursor has been sent |
| EventStream.NoticeExactly | apps/events/src/stream/stream-writer.ts:70-73 | the expiry notice is the last word, and comes exactly if some poll that is made finds the cursor stale |
| EventStream.NeverSilent | apps/events/src/stream/stream-writer.ts:75-86 | an open connection has written within the heartbeat interval before each of its polls, or writes then |
| EventStream.SilentExactly | apps/events/src/stream/stream-writer.ts:61-86 | an open connection writes nothing exactly if there is no event, no stale cursor, and every poll comes less than the heartbeat interval behind the last write |
| EventStream.LastWriteMoves | apps/events/src/stream/stream-writer.ts:75-86 | the last write is the time of the last poll that wrote |
| EventStream.StopsAtBatch | packages/persistence/src/relay/event-stream.ts:66-91 | a connection whose first batch leads to a row older than the window reads no further |
| EventStream.UnblockedSends | apps/events/src/stream/stream-writer.ts:45-95 | polled often enough, any other connection with a published event behind its cursor sends one |
| RealtimeClient.Client.HandleFrames | packages/realtime/src/client.ts:169-187 | the frame loop moves cursor, hint and calls as the fold over frames does: the cursor only behind a handler that returned |
| RealtimeClient.Client.Attempt | packages/realtime/src/client.ts:140-193 | one connection, over all chunks and endings, equals the fold over the frames of all its chunks with a fresh parser |
| RealtimeClient.Client.Connect | packages/realtime/src/client.ts:104-137 | the reconnect loop is the run of its rounds, with every attempt and sleep logged |
| Reconnect.RefusalExactly | packages/realtime/src/client.ts:119-152 | which statuses end a run as fatal and which are followed by a sleep, and that 401 alone asks for a new token |
| Reconnect.UnansweredExactly | packages/realtime/src/client.ts:119-193 | a request without a reply is followed by a sleep, unless it was aborted |
| Reconnect.FailureExactly | packages/realtime/src/client.ts:140-193 | how a connection ends, whatever the reply: only a 401 asks for a new token, only a refusal is fatal, and it is no failure exactly if the server closed it or an abort ended it |
| Reconnect.SleepFollowsRetry | packages/realtime/src/client.ts:104-193 | the sleep behind a connection the server closed is near a centre whose hint is the last `retry` sent on it, or the hint before if it sent none |
| Reconnect.CentreExactly | packages/realtime/src/backoff.ts:35-50 | the first centre is the initial delay, each next one the factor times the last, until the maximum is reached; the hint lifts it |
| Reconnect.DefaultDelays | packages/realtime/src/backoff.ts:23-30 | the centres of the default policy |
| Reconnect.DelayExactly | packages/realtime/src/backoff.ts:44-50 | the delay is the nearest millisecond, halves up, of the centre varied by the jitter share |
| Reconnect.CentreGrows | packages/realtime/src/backoff.ts:35-50 | the centre of the delay never falls from one attempt to a later one, stays under the maximum and over the server's hint |
| Reconnect.DelayNearCentre | packages/realtime/src/backoff.ts:35-50 | a delay is within half the jitter share of its centre, plus rounding |
| Reconnect.RunIsDisciplined | packages/realtime/src/client.ts:104-137 | over every run attempts and sleeps alternate, every sleep is near its centre, a fatal failure is last, and no attempt starts behind an abort |
| Reconnect.RunEnds | packages/realtime/src/client.ts:104-137 | how every run ends, each way if and only if: aborted, `fatal` behind a fatal failure, rejected when a callback of the last round throws, and otherwise it goes on |
| Reconnect.QuietNeverRejects | packages/realtime/src/client.ts:100-104 | `connect` resolves whenever no callback throws |
| Reconnect.ConnectRejects | packages/realtime/src/client.ts:126-133 | runs that reject: a failed attempt with a throwing `onFailure`, and a 401 with a throwing `renewToken` |
| Reconnect.SleepsWiden | packages/realtime/src/client.ts:135 | two sleeps of one run under the same hint have centres in order |
| GapFreedom.TornBlocks | packages/realtime/src/wire.ts:91-109 | any beginning of a stream parses to the frames of its first so many items |
| GapFreedom.TornStream | packages/realtime/src/client.ts:157-165 | a connection cut at any character, in any chunks, never yields a frame made of a torn one |
| GapFreedom.HandlesInOrder | packages/realtime/src/client.ts:169-187 | what arrived is delivered in log order, an event whose handler threw is not passed over |
| GapFreedom.AttemptFollows | packages/realtime/src/client.ts:140-193 | one attempt works through the log from where the cursor stands |
| GapFreedom.RunFollows | packages/realtime/src/client.ts:104-193 | every delivery of a run is the next event of the log, repeated until its handler returns |
| GapFreedom.GapFree | packages/realtime/src/client.ts:104-193 | the events completed over a run are a contiguous stretch of the published log from the starting cursor, and the cursor is the id of the last of them |
| GapFreedom.ExpiredForever | packages/realtime/src/client.ts:172-178 | from a cursor that is stale, or can only be read past into staleness, no run ever delivers an event or moves the cursor |
| GapFreedom.NoticeArrives | packages/realtime/src/client.ts:172-178 | on a stale cursor there is a run that receives the notice, asks for the projection with the server's reason and keeps the cursor |
| GapFreedom.ProgressExactly | packages/realtime/src/client.ts:104-193 | some run from now on completes an event, by gap freedom the next one, if and only if one is published behind the cursor and the cursor is not blocked |
| GapFreedom.HeldCursorBlocked | packages/persistence/src/relay/event-stream.ts:66-91 | for a cursor the client holds, blocked means stale |
| GapFreedom.NeverPastFirstBatch | packages/persistence/src/relay/event-stream.ts:90-137 | over every run a subscriber whose first batch leads into the past completes no more events than that batch has |
| GapFreedom.BlockedAttempt | packages/realtime/src/client.ts:172-178 | one connection on such a cursor delivers nothing |
| Throttler.SharedThrottlerStorage.Increment | apps/api/src/auth/shared-throttler-storage.ts:27-95 | the upsert's new row for the bucket, the other rows unchanged, and the reported record |
| ThrottlerHistory.TimesAreExact | apps/api/src/auth/shared-throttler-storage.ts:78-91 | the two times reported are the least whole seconds behind which window and block have passed, and 0 if they have |
| ThrottlerHistory.RetryAfterIsExact | apps/api/src/auth/shared-throttler-storage.ts:27-95 | a refused client that waits the seconds it was told is let through and counted 1; one that comes a second or more before is refused again |
| ThrottlerHistory.FreeNeedsNoWait | apps/api/src/auth/shared-throttler-storage.ts:78-91 | a time to wait is named exactly by an answer that refuses |
| Throttler.SharedThrottlerStorage.CleanupExpired | apps/api/src/auth/shared-throttler-storage.ts:112-123 | when the cleanup is due, the batch deleted and the bookkeeping, also on a database failure |
| ThrottlerHistory.EpisodesOfHistory | apps/api/src/auth/shared-throttler-storage.ts:39-74 | the scan cuts a history into valid episodes and loses no hit |
| ThrottlerHistory.EpisodesUnique | apps/api/src/auth/shared-throttler-storage.ts:39-74 | a history has exactly one cut into valid episodes |
| ThrottlerHistory.CounterRefinesHistory | apps/api/src/auth/shared-throttler-storage.ts:39-74 | the stored count, window and block are the summary of the scan's last episode |
| ThrottlerHistory.CounterMeansHistory | apps/api/src/auth/shared-throttler-storage.ts:39-74 | the same for any cut into runs of unblocked hits each within the window of the last, restarting after a gap or an expired block |
| ThrottlerHistory.RowShape | apps/api/src/auth/shared-throttler-storage.ts:42-74 | a count is at most one over the limit, and a block is stored exactly then |
| ThrottlerHistory.BlockingIsExact | apps/api/src/auth/shared-throttler-storage.ts:42-91 | a hit is refused exactly when its count is one over the limit, hits during a block change nothing, and the first hit at or after its end counts 1 and passes |
| ThrottlerHistory.AdmittedInRun | apps/api/src/auth/shared-throttler-storage.ts:42-74 | hits let through within one window and block are all in the current run |
| ThrottlerHistory.RateBound | apps/api/src/auth/shared-throttler-storage.ts:27-95 | in any stretch shorter than window and block at most `limit` hits pass |
| ThrottlerCleanup.SameRecords | apps/api/src/auth/shared-throttler-storage.ts:112-123 | the bisimulation: tables that differ by forgotten rows answer every later hit alike under safe policies |
| ThrottlerCleanup.ForgetsBlock | apps/api/src/auth/shared-throttler-storage.ts:112-123 | a block longer than the window is forgotten by a deletion, and the next hit is answered differently |
| ThrottlerCleanup.ForgetsRow | apps/api/src/auth/shared-throttler-storage.ts:112-123 | with a limit of zero a deletion is noticed too |
| ThrottlerCleanup.InvisibleExactly | apps/api/src/auth/shared-throttler-storage.ts:39-123 | deletions are invisible in every run if and only if every bucket's policy is safe: with a positive limit and window, no block longer than the window |
| ThrottlerCleanup.BucketAnswersItsHistory | apps/api/src/auth/shared-throttler-storage.ts:27-123 | whatever happens to other buckets and whatever is deleted, a bucket is answered as its own history says |
| ThrottlerCleanup.LimiterBoundsRate | apps/api/src/auth/shared-throttler-storage.ts:27-123 | the rate bound for the shared table with deletions interleaved |
| SchedulerLease.SchedulerLeaseStore.Acquire | packages/persistence/src/relay/scheduler-lease.ts:35-63 | a free, expired or own lease is granted with the next token; any other is left alone |
| SchedulerLease.SchedulerService.Settle | apps/scheduler/src/scheduler.service.ts:90-108 | the state a tick sets and whether its guard lets it enqueue |
| SchedulerLease.StepKeepsInv | apps/scheduler/src/scheduler.service.ts:83-109 | every step of every replica keeps: the row is the last grant, grants to different replicas do not overlap, every lease in hand was granted |
| SchedulerLease.EnqueuesExclude | apps/scheduler/src/scheduler.service.ts:83-109 | two replicas that enqueue under leases in force never hold them at the same time, and their tokens are in the order of the enqueues |
| SchedulerLease.InForceExactly | apps/scheduler/src/scheduler.service.ts:104-109 | over every run an enqueue is under a lease in force exactly if it happens no later than the expiry its tick was answered |
| SchedulerLease.OneMayEnqueue | apps/scheduler/src/lease-state.ts:41-43 | on the true clock `mayEnqueue` holds for at most one replica |
| SchedulerLease.GuardSeesNoPause | apps/scheduler/src/scheduler.service.ts:104-106 | what the guard can see: it lets a granted tick pass exactly when the tick began before the new expiry, however long it was held up |
| SchedulerLease.PausedTickEnqueues | apps/scheduler/src/scheduler.service.ts:104-108 | a run in which a replica paused past its lease enqueues after another took over, with the smaller token |
| SchedulerLease.TokensRise | apps/scheduler/src/scheduler.service.ts:83-109 | without overlapping ticks of one replica, and with every enqueue under a lease in force, tokens rise strictly along all enqueues |
| SchedulerLease.OverlappingTicksReorder | apps/scheduler/src/scheduler.service.ts:60 | ticks of one replica that overlap can enqueue with falling tokens |
| SchedulerLease.FencedMeansTakenOver | apps/scheduler/src/lease-state.ts:65-67 | a replica that has settled its last grant is fenced exactly if another replica was granted the lease since |
| SchedulerLease.RenewalLooksFenced | apps/scheduler/src/lease-state.ts:58-67 | between a renewal and its settling the replica is fenced though it holds the lease |
| SchedulerLease.RenewalDueExactly | apps/scheduler/src/lease-state.ts:48-56 | a renewal is due exactly from the renewal share of the lease on |
| SchedulerLease.RenewIntervalExactly | apps/scheduler/src/lease-state.ts:30-32 | the interval is the renewal share of the lease in whole milliseconds, at least one, and ten seconds by default |
| SchedulerLease.ThirdsAreLong | apps/scheduler/src/lease-state.ts:25-32 | renewing at a third, three intervals leave less than three milliseconds of the lease |
| SchedulerLease.TwoRenewalsMayFail | apps/scheduler/src/lease-state.ts:8-32 | over every run no other replica is granted the lease before the third renewal time behind a grant |
| ScheduledJobs.StampsSpaced | packages/persistence/src/relay/scheduled-jobs.ts:63-106 | each enqueue of a job is stamped at least its interval behind the one before |
| ScheduledJobs.OncePerInterval | packages/persistence/src/relay/scheduled-jobs.ts:33-106 | whatever replicas and clocks enqueue, the k-th enqueue is at least k intervals behind the first |
| ScheduledJobs.EnqueuedExactly | packages/persistence/src/relay/scheduled-jobs.ts:33-106 | over every history a job is enqueued exactly if its last registration is enabled, it is not locked, and its last enqueue, if any, lies at least its interval back |
| ScheduledJobs.RowExactly | packages/persistence/src/relay/scheduled-jobs.ts:33-106 | the row of a job holds its last registration and the time of its last enqueue |
| BracketPlacements.GraphRecordsOf | apps/api/src/controllers/bracket-placements.ts:17-26 | the loop over a map of positions numbers the fixtures of the graph by position within their round |
| BracketPlacements.PlacementIds | apps/api/src/controllers/bracket-placements.ts:51-66 | the loop gives every placement game the id of its round and position among the placement games |
| BracketPlacements.PlacementNodesOf | apps/api/src/controllers/bracket-placements.ts:47-72 | the placement games in order, each with two sources, home first: a side has a source exactly if an edge of its entrant leads to it from a game that is drawn, and then its id and outcome |
| BracketPlacements.LatestBefore | apps/api/src/controllers/bracket-placements.ts:128-135 | the game an entrant came from is a game of theirs in the latest earlier round, if there is any |
| BracketPlacements.NextGameOf | apps/api/src/controllers/bracket-placements.ts:100-112 | the next game of an entrant is in the earliest later round, if there is any |
| BracketMeaning.EdgeExactly | apps/api/src/controllers/bracket-placements.ts:122-154 | an edge leads to an entrant's game from its latest earlier one, as winner if it scored more there, and without a decided score if it plays for a better place than its opponent does next |
| BracketMeaning.StakesArePlayed | apps/api/src/controllers/bracket-placements.ts:147-151 | what an entrant plays for next is what its next game is for, and nothing without one |
| BracketMeaning.NamedPlace | apps/api/src/controllers/bracket-placements.ts:93-97 | a role names the best place of its game by the digits behind `place-` or `places-` |
| BracketMeaning.NoPlace | apps/api/src/controllers/bracket-placements.ts:93-97 | a game without a role is for the title, and one with any other role for no place |
| BracketMeaning.SourcesOf | apps/api/src/controllers/bracket-placements.ts:161-185 | a match of the graph has the two sources of the first record persisted as it, home first, read from all records of the zone; without one it has none |
| BracketMeaning.DrawnExactly | apps/api/src/controllers/bracket-placements.ts:66-73 | a game is drawn as the last placement game of its fixture, by round and rank, and else where the graph has it |
| BracketMeaning.GraphExactly | apps/api/src/controllers/bracket-placements.ts:172-173 | the graph has a game at the first of its matches persisted as it |
| BracketMeaning.KeptExactly | apps/api/src/controllers/bracket-placements.ts:17-51 | the games with a role, and those without, are each listed once, in order, and no others |
| BracketLinks.NextIsInverse | apps/api/src/controllers/bracket-placements.ts:100-154 | going to an entrant's next game and coming back from it are inverse |
| BracketLinks.OneEdgePerEntrant | apps/api/src/controllers/bracket-placements.ts:122-154 | an entrant leaves a game by at most one edge |
| BracketLinks.OppositeOutcomes | apps/api/src/controllers/bracket-placements.ts:140-153 | the two sides of a game leave it with opposite outcomes, by score or by the tie rule |
| BracketLinks.EdgesAreConsistent | apps/api/src/controllers/bracket-placements.ts:79-154 | a game has at most one winner edge and one loser edge, for different entrants |
| BracketLinks.DecidedGameIsLinked | apps/api/src/controllers/bracket-placements.ts:140-145 | a decided game is left by exactly the edges its score says |
| BracketLinks.UndecidedGameIsLinked | apps/api/src/controllers/bracket-placements.ts:114-154 | without a decided score, a missing one included, a side that plays on leaves as winner or loser exactly as it is closer to or further from the title than its opponent, who counts as eliminated when playing no more |
| BracketLinks.TiedGameIsLinked | apps/api/src/controllers/bracket-placements.ts:93-154 | when both sides play on, such a game is linked on both, the one closer to the title as the winner, or on neither |
| BracketLinks.Acyclic | apps/api/src/controllers/bracket-placements.ts:79-185 | no path of edges leads from a game back to it |
| BracketLinks.PlacementIdInjective | apps/api/src/controllers/bracket-placements.ts:54-61 | a placement id determines its round and position |
| BracketLinks.NodeIdsInjective | apps/api/src/controllers/bracket-placements.ts:47-72 | different games are drawn as different nodes |
| BracketLinks.DrawnLinksAreConsistent | apps/api/src/controllers/bracket-placements.ts:79-185 | in the drawn response no two sides have the same source |
| BracketLinks.RenumberingKeepsSources | apps/api/src/controllers/bracket-placements.ts:17-26 | renumbering the records of the graph changes no source |
| JsonText.ParseStringify | packages/design-tokens/src/design-document.ts:47-52 | a string survives `JSON.stringify` and `JSON.parse` |
| JsonText.ParsesExactly | packages/design-tokens/src/design-document.ts:48 | which double-quoted texts are read and as what: characters themselves, letter escapes, codes and surrogate pairs |
| JsonText.EscapeIsShortest | packages/design-tokens/src/design-document.ts:127 | each character is written in the shortest spelling there is |
| DesignTokens.Read | packages/design-tokens/src/design-document.ts:55-95 | reading a document is taking out its front matter and reading the lines |
| DesignTokens.ReadLines | packages/design-tokens/src/design-document.ts:56-94 | the line loop over the stack of open mappings is the fold of its lines, with an error exactly where a line, a key or a group is refused |
| DesignTokens.FirstFence | packages/design-tokens/src/design-document.ts:40-45 | the front matter ends at the first closing fence |
| DesignTokensReading.FrontMatterExactly | packages/design-tokens/src/design-document.ts:40-45 | the front matter is the shortest text between an opening and a closing fence, of either kind of line end |
| DesignTokensReading.SkippedExactly | packages/design-tokens/src/design-document.ts:59 | a line is passed over exactly if it is blank or its first ink is a hash |
| DesignTokensReading.SkippedChangesNothing | packages/design-tokens/src/design-document.ts:58-59 | such a line changes nothing, wherever it stands |
| DesignTokensReading.LineExactly | packages/design-tokens/src/design-document.ts:60-66 | a line is read as indentation, key and value exactly if it is those written one behind the other, the key bare or in quotes of one kind |
| DesignTokensReading.RefusedExactly | packages/design-tokens/src/design-document.ts:60-80 | any other line is refused exactly if it is none such, is indented oddly, too deep or under nothing open, repeats a key, or gives no scalar |
| DesignTokensReading.ScalarExactly | packages/design-tokens/src/design-document.ts:47-52 | a scalar is read exactly if it is a double-quoted string, a text in single quotes with its own doubled, or a numeral, which stands for itself |
| DesignTokensReading.KeyIsPrinted | packages/design-tokens/src/design-document.ts:127 | a key of digits alone is printed in quotes, any other as it is |
| DesignTokensReading.ProseIsKept | packages/design-tokens/src/design-document.ts:75-77 | name and description at the top are read as they stand |
| DesignTokensReading.OtherGroupsAreRefused | packages/design-tokens/src/design-document.ts:82-95 | a printed document is refused exactly if it has a key that belongs to nothing; components are read and left out |
| DesignTokensReading.GroupsExactly | packages/design-tokens/src/design-document.ts:91-95 | the four groups are kept in their order, and only they |
| DesignTokensRoundTrip.IsPrinted | packages/design-tokens/src/design-document.ts:123-129 | the recursive printer joins one line per entry, groups before their own lines |
| DesignTokensRoundTrip.KeyIsParsed | packages/design-tokens/src/design-document.ts:60-66 | a printed line, its key quoted or not, is read with its depth, key and rest |
| DesignTokensRoundTrip.ReadsEntries | packages/design-tokens/src/design-document.ts:58-81 | reading the lines of a mapping adds exactly its entries, in order, to the mapping open at their depth, whatever was open below |
| DesignTokensRoundTrip.BrokenIsTorn | packages/design-tokens/src/design-document.ts:60-63 | a text with a line or paragraph separator is printed on a line no stack lets pass |
| DesignTokensRoundTrip.ReadIsShaped | packages/design-tokens/src/design-document.ts:55-95 | whatever the document, what is read has distinct word keys, at most three levels and only the four groups |
| DesignTokensRoundTrip.FrontMatterIs | packages/design-tokens/src/design-document.ts:40-45 | a block without a line of three dashes is taken out whole |
| DesignTokensRoundTrip.ReadsBackExactly | packages/design-tokens/src/design-document.ts:55-129 | reading a document gives back the printed tree if and only if the tree is shaped so and no text holds a line or paragraph separator |
| TokenDifferences.Compare | packages/design-tokens/src/design-document.ts:97-117 | the recursive loop pushes the differences of each key, expected keys first |
| TokenDifferences.ListedExactly | packages/design-tokens/src/design-document.ts:97-117 | a difference is listed exactly if the trees disagree so under some path of keys: missing, absent or changed |
| TokenDifferences.SourceComesFirst | packages/design-tokens/src/design-document.ts:103 | the keys of the source are gone through first, in their order |
| TokenDifferences.OthersFollow | packages/design-tokens/src/design-document.ts:103 | the other keys follow in the order of the document, each that the source does not have |
| TokenDifferences.TopNamesAreJoined | packages/design-tokens/src/design-document.ts:104 | a difference is named by the keys that lead to it, joined by points |
| TokenDifferences.SilentExactlyOnEqual | packages/design-tokens/src/design-document.ts:97-117 | nothing is listed exactly if the trees are equal as mappings, whatever their order |
| ModuleCatalogue.PublishKeepsCoherent | apps/seed/src/catalogue-seeder.ts:81-110 | publishing keeps one document id per alias and one alias per id, keeps all rows, and leaves every document published |
| ModuleCatalogue.PublishOneExactly | apps/seed/src/catalogue-seeder.ts:83-94 | a version that is there changes nothing, and a further version of an alias is written under that alias's id |
| ModuleCatalogue.PublishNewExactly | apps/seed/src/catalogue-seeder.ts:83-94 | the first version of an alias is written under a new id |
| ModuleCatalogue.SecondSeedSkips | apps/seed/src/catalogue-seeder.ts:82-110 | a second seed writes nothing and reports only skips |
| ModuleCatalogue.AvailableAgainExactly | apps/seed/src/catalogue-seeder.ts:185-200 | a second seed passes the reserved-alias check exactly if the catalogue gives each alias one attribution |
| ModuleCatalogue.AvailableBehindExactly | apps/seed/src/catalogue-seeder.ts:185-200 | behind a document published from elsewhere the check passes exactly if it did before and no document has its alias under another attribution |
| ModuleCatalogue.EnsuredKeys | apps/seed/src/catalogue-seeder.ts:119-136 | behind the upload every asset is there, and what was there is unchanged |
| ModuleCatalogue.EnsuredTwice | apps/seed/src/catalogue-seeder.ts:119-136 | a second upload puts nothing |
| ModuleCatalogue.RestoredExactly | packages/module-distribution/src/import.ts:173-178 | undoing an upload restores the store exactly if none of its keys was there |
| ModuleCatalogue.UndoneDeletes | packages/module-distribution/src/import.ts:173-178 | undoing an upload deletes keys that were there before |
| ModuleInstall.Installation.EnsureAssets | apps/seed/src/catalogue-seeder.ts:119-136 | up to any point of failure only missing keys were put and all of them are noted |
| ModuleInstall.Installation.SeedDocument | apps/seed/src/catalogue-seeder.ts:83-94 | one document is skipped if its version is there, else published under its alias's id, whichever version comes first |
| ModuleInstall.Installation.SeedDocuments | apps/seed/src/catalogue-seeder.ts:82-110 | the loop publishes the documents of a kind in order and reports each as installed or skipped |
| ModuleInstall.Installation.CheckAvailable | apps/seed/src/catalogue-seeder.ts:185-200 | the check passes exactly if no row of a reserved alias has another attribution |
| ModuleInstall.Installation.SeedRows | apps/seed/src/catalogue-seeder.ts:75-112 | the transaction writes every row or none, and without a fault fails only on a conflict |
| ModuleInstall.Installation.Seed | apps/seed/src/catalogue-seeder.ts:65-117 | for every point of failure a throwing seed restores tables and store exactly; without a fault it succeeds exactly if the catalogue is accepted |
| ModuleInstall.Installation.Upload | packages/module-distribution/src/import.ts:87-111 | up to any point of failure the objects put are a beginning of the declared ones, all are noted, and every object of another alias or version is unchanged |
| ModuleInstall.KeysAgreeExactly | packages/module-distribution/src/import.ts:98 | for names without a slash two files have one key exactly if alias, version and path agree |
| ModuleInstall.UploadsKeepOthers | packages/module-distribution/src/import.ts:87-178 | uploading a version, and undoing the upload, leaves every object of another alias or version as it was |
| ModuleInstall.AssetRowsExactly | packages/module-distribution/src/import.ts:95-108 | every declared file has one asset row, of its document, with the key it is uploaded under |
| ModuleInstall.Installation.SaveArtifact | packages/module-distribution/src/import.ts:190-229 | the id returned is that of the row of the alias and version, written unless it was there |
| ModuleInstall.Installation.ImportRows | packages/module-distribution/src/import.ts:151-172 | the document, the module and its asset rows are written together or not at all; a version installed before is refused |
| ModuleInstall.Installation.Import | packages/module-distribution/src/import.ts:122-187 | for every point of failure the tables are unchanged, exactly the uploaded keys are gone and the objects of other aliases and versions are as before; without a fault it succeeds exactly if the alias is free or held alike, the check passes and the version is new |
| ModuleInstall.ImportTwice | packages/module-distribution/src/import.ts:146-178 | importing an installed version again deletes its stored assets while it stays installed |
| ModuleInstall.ImportThenSeed | apps/seed/src/catalogue-seeder.ts:185-200 | behind an import, the seed of a catalogue that was acceptable refuses exactly if it has the imported alias under another attribution |
| Scrambler.Pigeonhole | packages/demo-datasets/src/scramble.ts:57-62 | while fewer positions are taken than there are candidates, one is free, so the probe ends |
| Scrambler.NameScrambler.constructor | packages/demo-datasets/src/scramble.ts:44-51 | the candidates are the pool without every surname that shares a folded word with a real one |
| Scrambler.Candidates | packages/demo-datasets/src/scramble.ts:45-49 | no candidate shares a folded word with any real surname, and no other surname of the pool is left out |
| Scrambler.WordsExactly | packages/demo-datasets/src/scramble.ts:28-32 | the words of a name are exactly the longest runs of letters and digits of its folded form |
| Scrambler.NameScrambler.Probe | packages/demo-datasets/src/scramble.ts:60-62 | the probe ends at the first free position at or behind the key's own, around the list |
| Scrambler.NameScrambler.ReplacementFor | packages/demo-datasets/src/scramble.ts:54-67 | a known key keeps its name, a new one gets its own position, and the error comes exactly for a new key when all are taken |
| Scrambler.RunAnswers | packages/demo-datasets/src/scramble.ts:53-68 | over any run exactly the first so many different keys are answered, each always with the position it has at the end |
| Scrambler.SameSlotSameKey | packages/demo-datasets/src/scramble.ts:53-68 | over any run two answers agree exactly if the keys do |
| Scrambler.NamesDifferExactly | packages/demo-datasets/src/scramble.ts:13-20 | once the pool is used up no two keys share a name exactly if the candidates are distinct |
| ZonedTime.ShownExactly | apps/seed/src/zoned-time.ts:2-23 | the instants that show a wall clock around one change of offset |
| ZonedTime.InvertsExactly | apps/seed/src/zoned-time.ts:29-43 | a wall clock that exists maps to an instant that shows it; one in a gap is off by exactly the gap, in a known direction |
| ZonedTime.ExistsExactly | apps/seed/src/zoned-time.ts:29-43 | which wall clocks fall in the gap |
| ZonedTime.AmbiguousChoice | apps/seed/src/zoned-time.ts:41-42 | which of its two instants an ambiguous wall clock maps to |
| ZonedTime.TwoChangesMiss | apps/seed/src/zoned-time.ts:41-42 | with two changes of offset close together an existing time is missed |
| ZonedTime.WrittenIsRead | apps/seed/src/zoned-time.ts:29-40 | a written wall clock is read as the calendar's reading of its six numbers, the seconds 0 if they are left out |
| ZonedTime.OnlyWrittenIsRead | apps/seed/src/zoned-time.ts:30-31 | only texts so written are read |
| ZonedTime.WrittenIsInverted | apps/seed/src/zoned-time.ts:29-43 | a written wall clock that exists is mapped to an instant at which the zone shows it |
| Paths.Validate | packages/routing/src/paths.ts:37-73 | an input is refused exactly if an alias is malformed or an identifier, a number is below one, or a stage or match lacks its parent, with the first such error in the order of the checks |
| Paths.AliasExactly | packages/routing/src/paths.ts:31 | an alias is one or more non-empty runs of lower-case letters and digits joined by single hyphens |
| Paths.UuidExactly | packages/routing/src/paths.ts:32 | an identifier is five runs of hexadecimal digits, of eight, four, four, four and twelve, joined by hyphens |
| Paths.PublicPath | packages/routing/src/paths.ts:76-89 | the path is built exactly for valid inputs and locales, with the segments in order; otherwise the first error is given |
| Paths.PathReads | packages/routing/src/paths.ts:79-87 | a path spells out the fields that are given, in this order, behind the organization |
| Paths.LocaleReads | packages/routing/src/paths.ts:150-157 | a locale other than English stands in front of it |
| Paths.LocaleExactly | packages/routing/src/paths.ts:152 | a locale is two lower-case letters, alone or with a hyphen and two upper-case ones |
| Paths.PathsAreInjective | packages/routing/src/paths.ts:76-89 | two inputs have the same path exactly if every scoped field and the locale agree, the primary locale standing for none |
| Paths.PrefixesExactly | packages/routing/src/paths.ts:95-103 | console and television paths are prefix and locale-free path exactly unless a two-letter alias is mistaken for a locale |
| Paths.ControlPathsAreInjective | packages/routing/src/paths.ts:95-98 | apart from those, equal console paths name the same fields |
| Paths.TwoLettersCollide | packages/routing/src/paths.ts:159-161 | two organizations with two-letter aliases share their tournaments' console paths |
| MergeFigures.Merge | packages/statistics-refold/src/merge-figures.ts:13-35 | the two loops over an insertion-ordered map compute the merge |
| MergeFigures.MergedKeys | packages/statistics-refold/src/merge-figures.ts:13-35 | each key comes out once, in the order the keys first occur |
| MergeFigures.MergedInTurn | packages/statistics-refold/src/merge-figures.ts:4-12 | merging two batches in turn is merging their concatenation, order included |
| MergeFigures.MergedAdds | packages/statistics-refold/src/merge-figures.ts:21-33 | whatever was stored, under every key and in all a batch adds exactly its own value and samples |
| MergeFigures.MergedSums | packages/statistics-refold/src/merge-figures.ts:4-35 | under every key and in all, value and samples are the stored ones plus the marginal ones |
| MergeFigures.KeyNamesExactly | packages/statistics-refold/src/merge-figures.ts:37-50 | a key names one identity alone if and only if no part of it has a space |
| MergeFigures.KeyNamesIdentity | packages/statistics-refold/src/merge-figures.ts:37-50 | among identities whose granularities and ids have no space, as the stored ones are, a key names one, whatever the collector code |
| MergeFigures.SharedKeyMerges | packages/statistics-refold/src/merge-figures.ts:21-34 | two figures are merged into one, with the later identity and both amounts, exactly if they share a key |
| Aliasing.Resolve | packages/domain/src/aliasing.ts:32-55 | the bounded loop redirects to an alias if and only if a chain of at most that many hops leads to it, each hop by the first row of the organization with that old alias and only the last alias current; stopped by a dead end or a repeat, there is none at any distance |
| Aliasing.FollowChain | packages/domain/src/aliasing.ts:43-54 | the loop over the rows of the organization answers with the first current alias of the chain |
| Aliasing.FollowsFirstRow | packages/domain/src/aliasing.ts:41-48 | a hop goes to the new alias of the first row of the organization that has the old one |
| Aliasing.AnswersExactly | packages/domain/src/aliasing.ts:32-55 | the redirect is given if and only if there is one to give, and it is the only answer |
| Aliasing.RowsAreEnough | packages/domain/src/aliasing.ts:45-54 | as many hops as the organization has rows decide every alias |
| Aliasing.OthersDoNotCount | packages/domain/src/aliasing.ts:41 | a row of another organization, wherever it stands, changes nothing |

## Left out

- HTTP, NestJS controllers and guards, query building, PostgreSQL and the CLI: only the effects of statements and transactions are modelled.
- Byte decoding of the stream (`TextDecoder`), timers, `lastFrameAt` and `isStale`, request headers and the token itself.
- JsNumber.NumberOfShow: numbers are exact decimals; rounding to a double, overflow to infinity and the printing of non-integer retries are not modelled.
- JsonText.ParseStringify: strings hold Unicode scalar values; lone surrogates are not modelled.
- ChunkInvariance.ChunkInvarianceExactly: this is about every point of a stream; for the end of a stream alone its condition is sufficient and is not claimed necessary, because a carriage return can end up in a line the format ignores.
- GapFreedom.GapFree: rows that commit late with an earlier `created_at` are not modelled; the log is taken to grow only at its end.
- EventStream.Next: which rows a subscription's organization and tournament select, and which of them it may see, are flags of the row.
- EventStream.StreamEvents: the caller's own limit and poll interval are not modelled; the batch size is the window's maximum, and which rows a subscription selects is a flag of the row.
- RealtimeClient.Client.Connect: the sleep between attempts always returns.
- RealtimeClient.Client.Attempt: handlers return or throw; a handler that aborts the signal itself is an abort in the script.
- Throttler.SharedThrottlerStorage.Increment: the created and updated time columns are not modelled, and times are whole milliseconds.
- ThrottlerHistory.RateBound: for hits in time order; clocks of replicas that disagree are not modelled.
- The scheduler's `release` on shutdown and the store's `renew`, which the tick does not call.
- SchedulerLease.TwoRenewalsMayFail: the share of a third is exact and not a rounded double.
- BracketPlacements.PlacementNodesOf: games carry only the fields that decide their links; labels, scores and statuses in the response are not modelled.
- DesignTokens.Read: the stack holds values instead of shared objects, so a mapping is added to its parent when it is complete; mappings are listed in the host language's own key order, and keys named like properties of every object are not modelled.
- The section rewriting of `refreshDesignTokens` and the token constants themselves.
- TokenDifferences.Compare: a difference is its kind, path and values instead of the sentence made of them.
- ModuleInstall.Installation.Import: the capability check is its outcome, content types are part of a file, and module and asset ids and audit rows are not modelled.
- ModuleInstall.Installation.Seed: two installs at the same time are not modelled; a put that fails has no effect.
- Scrambler.NameScrambler.ReplacementFor: the digest and the folding are functions given from outside.
- ZonedTime.InvertsExactly: reading the offset from `Intl` and the calendar arithmetic of `Date.UTC` are functions given from outside.
- Paths.Validate: scoped numbers are integers, printed in full; fractions, which the source refuses, and the exponent form of numbers from 1e21 on are not modelled.
- View queries, home and stream paths: they would only add members without a property of their own.
- MergeFigures.MergedSums: amounts are exact; rounding of doubles is not modelled. Of stored figures that repeat a key the last counts, so the sums of the stored list itself are kept for distinct keys; `MergeFigures.MergedAdds` has no such condition.
- Draws, fixtures, standings, ruleset compilation, the module registry, backups and self-update.
