# AISS: verified models of the security agent and its audit server

The repository is a web-security agent (Go and Python, with nginx and Apache modules in C) and
the server it reports to. This project models its stateful and algorithmic core in Dafny and
proves what that core is relied on for:

- **Audit log** (`AuditPayload`, `AuditChain`, `AuditRun`, `AuditVerdicts`, `AuditRecords`): each row is sealed with a keyed hash
  that covers the previous row's hash. The modules prove what a sealed payload identifies, what two logs
  with the same last hash must share, which deletions verification notices, and what every
  interleaving of appends, failed writes, resets, purges and restarts keeps.
- **Rate limiter** (`RateLimit`): an evicting deque per key against a statement about the whole
  call history, for each of the three tiers.
- **Agent plumbing** (`TelemetryBuffer`, `WriteStore`, `WorkerServer`): three step systems with
  conservation, order and shutdown guarantees over every run.
- **Decision pipeline** (`MagicBytes`, `Pipeline`, `PipelineRuns`, `PipelineAnswers`): the verdict flow with its IP
  and file-hash caches and its shadow mode, over every sequence of requests.
- **YARA subset compiler** (`YaraCompiler`, `YaraSource`, `YaraSoundness`, `YaraCount`, `YaraReport`, `YaraOrder`): a
  line-driven parser that turns boolean conditions into flat pattern sets, against the meaning
  of the source rules.
- **Codecs, table and entropy** (`Base64Stream`, `JsonEscape`, `VerdictTable`, `Entropy`).

`Bytes`, `Text` and `Verdicts` hold the byte, string and cache-row definitions the other modules
share.

## How the code is represented

Objects whose methods update their fields are classes; each method's contract ties the new state
to a function of the old one, and the lemmas speak about those functions. Concurrent components
are step systems (`State`, `Step`, `Enabled`, `Do`, `After`) whose runs are all interleavings;
`TelemetryBuffer.Buffer`, `WriteStore.Store` and `WorkerServer.Server` carry the run they have
made in a ghost `trace`, and loops take what other threads submit meanwhile as a parameter.
Code outside the model is a parameter: the keyed hash and the timestamp's text form (`Crypto`),
the logarithm (`IsLog2`), the regular-expression library (`Engine`), the tier detectors and the
content hash (`Detectors`). Go's map iteration order is an arbitrary enumeration attached to each
source line (`Line.order`), so results hold for every order the runtime may pick.

The keyed hash is **not** assumed injective: with 64-character outputs it cannot be. `Integrity`
concludes "same history, or here are two different sealed texts with one seal".

## Where the code and its own documentation differ

- `server/app/middleware/audit.py:219-226` says a timestamp `>=` the previous one makes
  `ORDER BY timestamp` agree with chain order. The model follows the code; `AppendOrderIff`
  shows that an appended row keeps every allowed query result verifiable exactly when its
  timestamp is *strictly* later.
- `server/app/middleware/audit.py:213-216` says the verifier flags an entry dropped by a failed
  write. Nothing in `verify_chain` can: `WholeRunValid` covers failed writes and the answer
  stays ok.
- `server/app/routers/audit.py:139-147` purges old rows without moving the starting point of
  verification; `PurgeVerdict` gives the exact condition under which a purged log still verifies,
  and `PurgedAppendIff` the exact condition under which it does after the next append.
- `internal/security/pipeline.go:235` is commented "known clean" but ends the inspection of all
  remaining targets; `WithCacheIff` gives the exact condition and `RepeatSlipsThrough` the
  concrete case.
- The file-hash cache is keyed by content alone, while the magic-byte verdict depends on the
  declared type. `shouldInspectContent` looks for a substring, so a body declared as
  `application/pdf; x=application/json` is inspected too; `SecondTypeIff` gives the exact condition under which a cached verdict is wrong,
  and `ZipAsPdfOverblocks` stands at that input with the shipped tables.
- `rules/yara/dlp.yar:45` ships an expression with lookaheads, which Go's `regexp` refuses; by
  `CompilesTo` the rule around it, having no other string, never matches.
- `internal/security/content/yara.go:265-279` never reads the operator of a count condition;
  `OperatorIff` says for each operator where rule and source agree.
- `internal/security/pipeline.go:257` tests a YARA hit that the lines above have excluded, so the
  entropy branch never runs; the model has no such branch.
- `agent/security/content/base64_inspect.py:76-77`: a chunk size of 0, 1 or 2 raises
  `ValueError` instead of decoding; the contract of `StreamDecodeChunks` states it.

## Model

| member | source | states |
|---|---|---|
| AuditPayload.DecimalInjective | server/app/middleware/audit.py:84 | the decimal text of a status determines the number and holds no pipe |
| AuditPayload.PayloadDetermines | server/app/middleware/audit.py:84 | equal payloads mean equal sealed fields as soon as one of the two requests is pipe-free; the other may hold any text |
| AuditPayload.TwinCollides | server/app/middleware/audit.py:84 | a request with a pipe in actor, method or path shares its payload with a different request, constructed explicitly |
| AuditPayload.PayloadUniqueIff | server/app/middleware/audit.py:84 | the payload identifies the request if and only if no client field holds a pipe |
| AuditPayload.PayloadLooksLike | server/app/middleware/audit.py:84 | the payload of one request in full, field by field |
| AuditChain.VerifyChain | server/app/routers/audit.py:99-128 | ok exactly when every row is sealed and linked from GENESIS; otherwise the row named is the first broken one and all before it are intact |
| AuditChain.LinkedExtend | server/app/routers/audit.py:100-122 | a longer log verifies exactly when the shorter one does and the new row is accepted at its tip |
| AuditChain.LinkedSplit | server/app/routers/audit.py:100-122 | a log verifies exactly when its first part does and the rest verifies from that part's last hash |
| AuditChain.Integrity | server/app/routers/audit.py:99-122 | two verified logs with the same last hash have equal length and agree on every sealed field at every position, or exhibit a seal collision |
| AuditChain.UnsealedColumnsInvisible | server/app/middleware/audit.py:84-89 | rewriting id, client address, query, latency or user agent never changes the verdict |
| AuditChain.GapDetection | server/app/routers/audit.py:99-122 | of all ways to delete rows from a verified log, exactly the deletions of a tail go unnoticed |
| AuditChain.PurgedSuffix | server/app/routers/audit.py:144-145 | what follows a cut verifies from the last hash before it, and from GENESIS only when nothing or everything was cut |
| AuditChain.OrderingUnique | server/app/routers/audit.py:96-97 | with strictly increasing timestamps, the only result ORDER BY allows is chain order |
| AuditChain.AppendOrderIff | server/app/middleware/audit.py:219-226 | after an append every result ORDER BY may give verifies if and only if the new timestamp is strictly later than the last |
| AuditRun.MakeEntry | server/app/middleware/audit.py:226-239 | the stamped entry carries every field of the request and its time, and the verifier accepts it after the pointer it was built from |
| AuditRun.PurgeIsByAge | server/app/routers/audit.py:144-145 | a purge keeps exactly the rows not older than the cutoff and deletes exactly the others |
| AuditRun.PurgeSplits | server/app/routers/audit.py:144-145 | the rows a purge removes are a prefix of the log |
| AuditRun.LatestIsLast | server/app/middleware/audit.py:109-118 | the row a restart finds by newest timestamp is the last row of the chain |
| AuditVerdicts.StepKeepsInv | server/app/middleware/audit.py:218-249 | every step of append, failed write, reset, restart and purge keeps the chain linked and the pointer at its tip or the phase's value |
| AuditVerdicts.RunKeepsInv | server/app/middleware/audit.py:218-249 | the invariant holds after every run, at the granularity of the two locks |
| AuditVerdicts.VerifyOkIff | server/app/routers/audit.py:92-128 | a log of the invariant verifies exactly when its oldest row, if any, has GENESIS stored as prev_hash |
| AuditVerdicts.ReachableVerdict | server/app/routers/audit.py:92-188 | the same in every reachable state, purges included; at rest the pointer is the last row's seal |
| AuditVerdicts.WholeRunValid | server/app/middleware/audit.py:202-249 | without purges that delete something no run, crashes and failed writes and resets included, makes verification fail, and at rest the pointer is the last hash or GENESIS |
| AuditVerdicts.PurgeVerdict | server/app/routers/audit.py:139-147 | a purge keeps a log verifiable if and only if it deletes nothing or everything |
| AuditVerdicts.AppendVerdictIff | server/app/middleware/audit.py:228-243 | from any ordered table and any pointer, the log after a stored append verifies if and only if it verified before and the pointer was its last hash, or GENESIS for an empty table |
| AuditVerdicts.NextAppendIff | server/app/middleware/audit.py:228-243 | in a state of the invariant: if and only if the oldest row links to GENESIS and there is a row or the pointer is GENESIS |
| AuditVerdicts.PurgedAppendIff | server/app/routers/audit.py:139-147 | after a purge of such a log the next append leaves a verifiable log if and only if the purge deleted nothing |
| AuditVerdicts.EmptiedLogBreaks | server/app/routers/audit.py:139-147 | its corollary for a purge of everything: the next stored append leaves a log that fails verification |
| AuditVerdicts.StrayPointerBreaks | server/app/middleware/audit.py:228-243 | the corollary for an empty table under a pointer left at some seal |
| AuditVerdicts.BlindRestart | server/app/middleware/audit.py:122-124 | if the reload at start fails, the next append leaves a verifiable log if and only if the table was empty |
| AuditVerdicts.AppendRun | server/app/middleware/audit.py:241-243 | a stored append adds exactly its entry and moves the pointer to that entry's seal |
| AuditVerdicts.DropRun | server/app/middleware/audit.py:244-249 | a refused append changes nothing but the time |
| AuditVerdicts.StuckIff | server/app/routers/audit.py:174-181 | the states only a restart can leave are exactly those where a reset caught an append between stamping and writing |
| AuditVerdicts.StuckIsReachable | server/app/routers/audit.py:174-181 | a stamped append followed by a reset's deletion is a run from a fresh log and ends in such a state |
| AuditVerdicts.GenuineExists | server/app/middleware/audit.py:84-89 | keyed hashes and timestamp texts as assumed exist, with a log of the invariant |
| AuditVerdicts.PurgeIsExact | server/app/routers/audit.py:144-145 | on an ordered log the deleted rows come first, and the log is they followed by what is kept |
| AuditVerdicts.AuditMiddleware.constructor | server/app/middleware/audit.py:130-147 | a new process on the stored table continues as the Restart step does |
| AuditVerdicts.AuditMiddleware.AppendToChain | server/app/middleware/audit.py:202-249 | a stored append adds one row with the request's fields, its time and the old pointer, and moves the pointer to its seal; a refused one changes neither; both are runs of the protocol and keep the invariant |
| AuditVerdicts.AuditMiddleware.WriteSync | server/app/middleware/audit.py:252-290 | the table grows by the entry exactly when the database takes it and no row has its id or its seal |
| AuditVerdicts.AuditMiddleware.Verify | server/app/routers/audit.py:92-128 | on any result the database may return: ok exactly when the oldest row's stored prev_hash is GENESIS; a failure is always reported at the first row |
| AuditVerdicts.AuditMiddleware.PurgeOldEntries | server/app/routers/audit.py:139-147 | the log loses exactly the rows older than the cutoff, which come first; the count is right, the pointer and the invariant stay |
| AuditVerdicts.AuditMiddleware.ResetChain | server/app/routers/audit.py:164-205 | the reset's two steps: empty table, pointer at GENESIS, number of dropped rows |
| AuditRecords.RunRecords | server/app/middleware/audit.py:218-249 | along every run each row of the table is matched with the stamp of the request it records, in increasing order |
| AuditRecords.LogRecordsRequests | server/app/middleware/audit.py:218-249 | after any run from a fresh log the table is a list of records of stamped requests, with their fields and times, in stamp order and none twice |
| AuditRecords.StoredIsRecorded | server/app/middleware/audit.py:239-243 | a stored append puts the request on record behind all rows there are |
| AuditRecords.RowsStay | server/app/routers/audit.py:144-175 | a row leaves the log exactly by a reset or by a purge past its age |
| Entropy.ShannonEntropy | internal/security/content/entropy.go:22-40 | the histogram loop computes the entropy the lemmas below bound |
| Entropy.Histogram | internal/security/content/entropy.go:26-29 | the table filled in place counts every byte value of the payload |
| Entropy.AnalyseEntropy | internal/security/content/entropy.go:43-56 | each level by its range of entropy, suspicion by the threshold, the rounding error of the score, and no alarm up to 147 bytes |
| Entropy.MeansInequality | internal/security/content/entropy.go:36-37 | arithmetic against geometric mean for any positive reals, in logarithms: the step behind the Gibbs bound |
| Entropy.DoubleCounting | internal/security/content/entropy.go:26-29 | a sum over positions equals the histogram-weighted sum over byte values |
| Entropy.DistinctRange | internal/security/content/entropy.go:26-29 | a non-empty payload has between 1 and min(256, n) distinct bytes |
| Entropy.EntropyUpper | internal/security/content/entropy.go:32-38 | entropy is at most the logarithm of the number of distinct bytes |
| Entropy.EntropyLower | internal/security/content/entropy.go:32-38 | entropy is never negative and is zero exactly when all bytes are equal |
| Entropy.EntropyRange | internal/security/content/entropy.go:20-40 | entropy lies in 0..8 and is at most log2 of the length |
| Entropy.ThresholdLogs | internal/security/content/entropy.go:8-11 | 7.2 separates log2 147 from log2 148, and 7.8 separates log2 222 from log2 223 |
| Entropy.ShortPayloadsPass | internal/security/content/entropy.go:45-52 | no payload of at most 147 bytes reaches 7.2 and none of at most 222 reaches 7.8 |
| Entropy.DifferentBytesEntropy | internal/security/content/entropy.go:32-38 | n different bytes have entropy exactly log2 n |
| Entropy.LongPayloadsCanAlarm | internal/security/content/entropy.go:45-52 | both lengths are sharp: for every length from 148, and from 223, to 256 some payload reaches the alarm |
| RateLimit.EvictShape | server/app/middleware/rate_limit.py:52-53 | eviction keeps exactly the times at or after the cutoff, in order |
| RateLimit.DequesOk | server/app/middleware/rate_limit.py:50-60 | after any history each deque is sorted, not in the future and no longer than the limit |
| RateLimit.DequeIsHistory | server/app/middleware/rate_limit.py:50-58 | the deque holds exactly the recent admissions of the whole history |
| RateLimit.AnswerIsHistory | server/app/middleware/rate_limit.py:44-60 | the answer is true exactly when fewer than limit earlier admissions of the key lie within the window, and remaining is exact |
| RateLimit.WindowBound | server/app/middleware/rate_limit.py:44-60 | in every closed interval as long as the window, at most limit calls of a key are admitted |
| RateLimit.OtherKeysDoNotMatter | server/app/middleware/rate_limit.py:50 | erasing all other keys' calls changes no answer |
| RateLimit.RefusedCallsDoNotMatter | server/app/middleware/rate_limit.py:55-56 | erasing any refused calls changes no later answer |
| RateLimit.SlidingWindowRateLimiter.constructor | server/app/middleware/rate_limit.py:38-42 | a new limiter has an empty history and the given rule |
| RateLimit.SlidingWindowRateLimiter.EvictStale | server/app/middleware/rate_limit.py:52-53 | the popping loop leaves what eviction leaves, which EvictShape characterises |
| RateLimit.SlidingWindowRateLimiter.IsAllowed | server/app/middleware/rate_limit.py:44-60 | the imperative deque answers by the history statement and its deque never outgrows the limit |
| RateLimit.TierIff | server/app/middleware/rate_limit.py:82-90 | the tier of a path by its beginning: the two authentication prefixes, the telemetry prefix, or neither |
| RateLimit.RateLimitMiddleware.constructor | server/app/middleware/rate_limit.py:66-70 | three separate limiters with 10, 1200 and the configured number of requests a minute |
| RateLimit.RateLimitMiddleware.Dispatch | server/app/middleware/rate_limit.py:72-119 | answer and remaining count are those of the tier's rule on the hits routed to that tier alone |
| TelemetryBuffer.RunKeeps | internal/telemetry/buffer.go:83-121 | the buffer's invariant survives every interleaving of senders, ticks, stop and flusher |
| TelemetryBuffer.Conservation | internal/telemetry/buffer.go:55-121 | delivered, batched and queued events concatenate to the accepted ones in order; both counters are exact; no batch is empty, and none but the one after the drain exceeds the limit |
| TelemetryBuffer.ShutdownComplete | internal/telemetry/buffer.go:112-118 | when done closes, the sink has exactly what was accepted before the drain ended; what was accepted later is stranded in the channel |
| TelemetryBuffer.SendIff | internal/telemetry/buffer.go:55-66 | a send is accepted, at the end of the channel, exactly when there is room, and counted as dropped otherwise |
| TelemetryBuffer.ReceiveIff | internal/telemetry/buffer.go:105-109 | a received event is handed over with its batch exactly when the batch is full |
| TelemetryBuffer.TickEmpties | internal/telemetry/buffer.go:90-118 | a tick and the end of the drain hand over whatever has been gathered |
| TelemetryBuffer.Buffer.constructor | internal/telemetry/buffer.go:36-52 | a new buffer is the start state with an empty run behind it |
| TelemetryBuffer.Buffer.TrySend | internal/telemetry/buffer.go:55-66 | a send extends the run by the Send step and succeeds exactly when the channel has room |
| TelemetryBuffer.Buffer.FlushBatch | internal/telemetry/buffer.go:90-101 | the flush closure is the Flush transition |
| TelemetryBuffer.Buffer.OnEvent | internal/telemetry/buffer.go:105-109 | the receive branch is the Receive step |
| TelemetryBuffer.Buffer.OnTick | internal/telemetry/buffer.go:110-111 | the ticker branch is the Tick step |
| TelemetryBuffer.Buffer.CloseQuit | internal/telemetry/buffer.go:69-70 | Stop's signal is the Stop step |
| TelemetryBuffer.Buffer.DrainHead | internal/telemetry/buffer.go:114-116 | one turn of the drain is the DrainOne step |
| TelemetryBuffer.Buffer.Drain | internal/telemetry/buffer.go:114-116 | whatever is sent meanwhile, the drain loop is a run of the protocol that ends with an empty channel |
| TelemetryBuffer.Buffer.OnQuit | internal/telemetry/buffer.go:112-118 | whatever is sent during the drain and after it, the sink ends with exactly what was accepted before the channel was seen empty, everything accepted before quitting included; the rest is stranded |
| WriteStore.BatchFits | internal/db/store.go:340-347 | applying a batch at one moment extends the sequential reference by its operations |
| WriteStore.BatchUpdates | internal/db/store.go:340-347 | after a batch every question is answered by the batch's last operation on its key, and as before where there is none |
| WriteStore.SequentialAnswers | internal/db/store.go:127-206 | the reference answers every question by the last operation on its key, and expired rows not at all |
| WriteStore.RunKeeps | internal/db/store.go:319-361 | the writer's invariant survives every batching and every point of quitting |
| WriteStore.BatchingRefinesSequential | internal/db/store.go:319-361 | in every reachable state verdicts, file hashes, signatures and settings are those of the last accepted operation on their key, of those applied so far, and the rest are queued in order |
| WriteStore.CloseAppliesAll | internal/db/store.go:104-110 | after Close the tables answer so for everything accepted before the flush saw an empty queue; the rest is still queued |
| WriteStore.CleanUpsInvisible | internal/db/store.go:136-138 | inserting or removing clean-ups anywhere changes no later verdict lookup, for ordered clocks |
| WriteStore.CleanUpIs | internal/db/store.go:136-138 | a clean-up removes exactly the expired rows |
| WriteStore.Store.constructor | internal/db/store.go:92-96 | a new store is the opened state with an empty run behind it |
| WriteStore.Store.AsyncWriteOp | internal/db/store.go:311-317 | a submission extends the run by the AsyncWrite step: queued in order or, when 10000 wait, dropped without any other effect |
| WriteStore.Store.Close | internal/db/store.go:104-106 | the quit signal is the Close step, once |
| WriteStore.Store.Gather | internal/db/store.go:323-334 | whatever is submitted meanwhile, the batch is a prefix of what is and gets queued: 1 to 200 operations, fewer only when the queue was found empty |
| WriteStore.Store.CommitBatch | internal/db/store.go:335-351 | the transaction is the Commit step; from then on every question is answered by the batch's last operation on its key, and as before where there is none |
| WriteStore.Store.ProcessBatch | internal/db/store.go:323-351 | one round of the loop is a run under any interleaved submissions; what it took, 1 to 200 operations, followed by what remains is the old queue followed by what was accepted meanwhile, and the tables answer for what it took |
| WriteStore.Store.Drain | internal/db/store.go:354-357 | the flush loop is a run of the protocol under any interleaved submissions and ends with an empty queue |
| WriteStore.Store.FlushRemaining | internal/db/store.go:352-358 | under any interleaved submissions and clock readings the quit branch ends with an empty queue and tables that answer for everything accepted by then |
| WorkerServer.RunKeeps | internal/socket/server.go:98-120 | the accounting and the slot invariant survive every interleaving |
| WorkerServer.Accounting | internal/socket/server.go:152-216 | total is the sum of the outcome counters plus the connections in flight, and at most maxWorkers are active |
| WorkerServer.GracefulReturn | internal/socket/server.go:98-105 | when Start returns nil every accepted connection has exactly one outcome, the one its exchange determines, and each counter is the number of connections with it |
| WorkerServer.OutcomeIff | internal/socket/server.go:164-215 | blocked, permitted and failed open by what was read, how long the pipeline took and what reached the client |
| WorkerServer.Server.constructor | internal/socket/server.go:66-74 | a new server is the started state with an empty run behind it |
| WorkerServer.Server.AcceptConn | internal/socket/server.go:98-109 | an accepted connection is the Accept step |
| WorkerServer.Server.TakeSlot | internal/socket/server.go:111-112 | a free slot lets its handler start: the Acquire step |
| WorkerServer.Server.HandleConn | internal/socket/server.go:152-216 | handling one connection is the run Begin, Record of its exchange; it raises the total and exactly the outcome counter its exchange determines |
| WorkerServer.Server.CountConn | internal/socket/server.go:155 | the total is raised by the Begin step |
| WorkerServer.Server.Settle | internal/socket/server.go:161-215 | the remaining paths are the Record step of the exchange |
| WorkerServer.Server.Conclude | internal/socket/server.go:161-215 | each of the seven ways out raises the counter of its outcome and no other |
| WorkerServer.Server.SignalStop | internal/socket/server.go:124-125 | the quit signal is the Stop step |
| WorkerServer.TrimNewline | internal/socket/server.go:227-232 | the result is the longest prefix not ending in a newline character |
| MagicBytes.Detect | internal/security/content/magic.go:76-92 | the signature found is the first in table order that the data starts with, and none is found only when none fits |
| MagicBytes.Matches | internal/security/content/magic.go:79-86 | the byte loop decides whether the header starts with the signature |
| MagicBytes.ValidateMagicBytes | internal/security/content/magic.go:65-127 | the two table scans compute the verdict the lemmas below speak about |
| MagicBytes.BlocksIff | internal/security/content/magic.go:65-127 | content is blocked exactly when the first signature the whole data starts with is dangerous or contradicts the declared type; the header cut and the length guard lose nothing |
| MagicBytes.ShippedFits | internal/security/content/magic.go:14-43 | the shipped signatures meet the condition of the previous row |
| MagicBytes.DangerousIff | internal/security/content/magic.go:14-26 | with the shipped table data is dangerous exactly when it begins like a Windows, ELF or Mach-O program, a PHP or shell script or a Java class |
| MagicBytes.HarmlessMagic | internal/security/content/magic.go:28-42 | what data detected under each harmless key begins with |
| MagicBytes.ShippedSpoofIff | internal/security/content/magic.go:46-52 | which declared types contradict which detected keys |
| MagicBytes.ResultNames | internal/security/content/magic.go:98-124 | the result names the first signature the data starts with and the reason for refusing it |
| MagicBytes.SameVerdictIff | internal/security/content/magic.go:108-125 | two declared types give one verdict exactly for data they do not dispute: a harmless first signature that the spoof table contradicts under one of them only |
| MagicBytes.PlainTypesAgree | internal/security/content/magic.go:108-125 | all declared types outside the spoof table give the same result |
| MagicBytes.BaseTypeIgnores | internal/security/content/magic.go:109-110 | case, blanks around and parameters never change the base type of a declared type |
| MagicBytes.BaseTypeOf | internal/security/content/magic.go:109-110 | parameters after a semicolon never change the base type of a tidy declared type |
| MagicBytes.ZipAsPdf | internal/security/content/magic.go:14-52 | with the shipped tables a ZIP file is blocked when declared as a PDF and not when declared as JSON, whatever follows in the file and in the first declaration |
| Pipeline.PipelineServer.constructor | internal/security/pipeline.go:66-111 | a pipeline starts with empty caches and no events |
| Pipeline.PipelineServer.BlockWith | internal/security/pipeline.go:308-331 | the response of a finding in either mode, and exactly one report of it |
| Pipeline.PipelineServer.InspectContent | internal/security/pipeline.go:206-268 | the loop with its early exits is the recursive inspection the run lemmas use, verdict and cache |
| Pipeline.PipelineServer.Check | internal/security/pipeline.go:115-191 | response, both caches and reports of one request as functions of the state before |
| Pipeline.PipelineServer.RunTiers | internal/security/pipeline.go:133-190 | the same below the caches; every such request is reported exactly once |
| Pipeline.PipelineServer.RunLateTiers | internal/security/pipeline.go:161-190 | the same from content inspection on |
| Pipeline.InspectedTypesAre | internal/security/pipeline.go:379-395 | a type is inspected exactly when one of seven names stands in it, in any case |
| PipelineRuns.DecideIgnoresMode | internal/security/pipeline.go:115-191 | which stage decides, and the caches left, do not depend on the mode |
| PipelineRuns.CachesIgnoreMode | internal/security/pipeline.go:308-331 | both modes keep identical caches over every request sequence |
| PipelineRuns.Lockstep | internal/security/pipeline.go:308-331 | after any sequence, both modes answer the next request with equal tier, CVE id, rule and score; shadow never blocks; the reason differs only by its prefix and only where enforce blocks |
| PipelineRuns.SameThreatIff | internal/security/pipeline.go:240-253 | inspection under two declared types agrees exactly when they do not dispute the data or YARA matches it anyway |
| PipelineRuns.FilesAfter | internal/security/pipeline.go:115-191 | the file cache changes only for requests that no static path, cached verdict or earlier finding decides and whose type is inspected |
| PipelineRuns.ReachableFilesSound | internal/security/pipeline.go:221-266 | for every history, each reachable file row is the true magic-and-YARA verdict of content that the inspection loop itself examined before, under the type it was declared as then |
| PipelineRuns.RowAgreesIff | internal/security/pipeline.go:229-236 | a row answers for its content under another declared type exactly when that type does not matter to it |
| PipelineRuns.SoundAgrees | internal/security/pipeline.go:226-237 | without hash collisions and disputed types, a row found for a target is that target's own verdict |
| PipelineRuns.WithoutCacheIff | internal/security/pipeline.go:221-266 | without a database inspection blocks if and only if some target is malicious |
| PipelineRuns.WithCacheIff | internal/security/pipeline.go:229-236 | with the cache it blocks if and only if some malicious target precedes every remembered or repeated one |
| PipelineRuns.CacheNeverOverblocks | internal/security/pipeline.go:221-267 | in every reachable state, for requests that neither collide with nor dispute what was examined before, blocked with the cache implies blocked without; equal when there is one target |
| PipelineRuns.RequestNeverOverblocked | internal/security/pipeline.go:133-190 | the same for the whole tier sequence; requests that are not inspected need no condition |
| PipelineRuns.PlainIsUndisputed | internal/security/content/magic.go:108-111 | when only declared types outside the spoof table got as far as inspection, nothing is disputed |
| PipelineRuns.PlainRequestNeverOverblocked | internal/security/pipeline.go:133-190 | for such histories the cache never blocks a request that passes without it, given no hash collision; other types may occur wherever they are not inspected |
| PipelineRuns.RepeatSlipsThrough | internal/security/pipeline.go:229-236 | a request whose harmless body holds one malicious candidate is blocked; the same request again is permitted, and its address gets a PERMIT row |
| PipelineRuns.SecondTypeIff | internal/security/pipeline.go:229-236 | one body under two declared types: the second request gets the first one's verdict, which is its own exactly when the type does not matter; so content blocked under one type is over-blocked under another |
| PipelineRuns.MentionIsInspected | internal/security/pipeline.go:379-395 | any text around an inspected type is inspected |
| PipelineRuns.ZipAsPdfOverblocks | internal/security/pipeline.go:229-236 | with the shipped tables: a ZIP file sent as a PDF type mentioning JSON is blocked, and the same file sent as JSON from another address is blocked with the cache and permitted without |
| PipelineRuns.SamplesAreSpans | internal/security/pipeline.go:281-288 | the three samples are in-range slices of the body at stated positions |
| PipelineRuns.SampleCoverageIff | internal/security/pipeline.go:281-288 | the samples cover every byte if and only if the body has at most 12288 bytes |
| PipelineRuns.RowsAreJustified | internal/security/pipeline.go:137-186 | every reachable IP row goes back to a request of that address: BLOCK to a CVE match, PERMIT to a request that passed every stage |
| PipelineRuns.ExpiryBounds | internal/db/store.go:127-134 | a row expires within one second before its nominal time to live |
| PipelineRuns.CachedVerdictsAreJustified | internal/security/pipeline.go:124-130 | every verdict served from the cache stems from such a request less than the time to live ago |
| PipelineRuns.RowsStick | internal/security/pipeline.go:124-130 | while a row is live, whatever is checked in between, non-static requests of the address get its verdict and change neither cache |
| PipelineAnswers.SmallBodyTargets | internal/security/pipeline.go:211-212 | a body within the first limit is inspected itself first, as its decoding and as each candidate in it |
| PipelineAnswers.LargeBodyTargets | internal/security/pipeline.go:213-214 | one within the second limit by its first, middle and last 4096 bytes |
| PipelineAnswers.HugeBodyTargets | internal/security/pipeline.go:215-218 | a larger one not at all |
| PipelineAnswers.InspectedIff | internal/security/pipeline.go:162 | every non-empty body of an inspected type is inspected |
| PipelineAnswers.BadIff | internal/security/pipeline.go:239-253 | content is found bad exactly when YARA matches or its first signature is dangerous or contradicts the declared type |
| PipelineAnswers.ThreatNames | internal/security/pipeline.go:239-253 | which finding names it: the signature before the rule |
| PipelineAnswers.FoundComesFrom | internal/security/pipeline.go:221-253 | what inspection reports is the threat of one of its targets, or the remembered one |
| PipelineAnswers.StaticAnswer | internal/security/pipeline.go:118-121 | static files are permitted, unreported, and change nothing |
| PipelineAnswers.CachedAnswer | internal/security/pipeline.go:123-131 | a live row answers: a block as a reported finding with its reason, any other as an unreported permit; neither cache changes |
| PipelineAnswers.TiersAreReported | internal/security/pipeline.go:136-190 | everything below the caches is reported |
| PipelineAnswers.CveAnswer | internal/security/pipeline.go:136-146 | a CVE match is a tier-1 finding with its id |
| PipelineAnswers.InjectionAnswer | internal/security/pipeline.go:148-159 | injection findings are tier 2, SQL before script |
| PipelineAnswers.LateAnswer | internal/security/pipeline.go:161-190 | content findings are tier 4, the anomaly score tier 3, and the rest is permitted with its score |
| PipelineAnswers.CveIsRemembered | internal/security/pipeline.go:137-142 | a CVE match leaves a BLOCK row of the address with its id and a timely expiry, and changes no other row |
| PipelineAnswers.PassIsRemembered | internal/security/pipeline.go:184-187 | a request in which nothing was found leaves a PERMIT row so |
| PipelineAnswers.OthersAreNotRemembered | internal/security/pipeline.go:115-190 | no other request changes a row |
| PipelineAnswers.RowDecidesLater | internal/security/pipeline.go:123-131 | a row answers later requests of its address until it expires, whatever comes in between |
| PipelineAnswers.CveBlocksLater | internal/security/pipeline.go:124-146 | after a CVE match all later requests of the address that are not for static files are answered by a cached block until a second before the time to live is over |
| PipelineAnswers.PassPermitsLater | internal/security/pipeline.go:124-190 | after a request that passed everything they are permitted so |
| YaraCompiler.TestRule | internal/security/content/yara.go:113-123 | a rule matches by its count test when it has one, otherwise when any pattern matches; CountRuleCompiles and CompilesTo say what that means |
| YaraCompiler.FirstMatch | internal/security/content/yara.go:82-104 | a match is reported exactly when the data is non-empty and some rule matches, and it is the first such rule |
| YaraCompiler.Scan | internal/security/content/yara.go:82-104 | the scanning loop reports that first match |
| YaraCompiler.Collect | internal/security/content/yara.go:208-219 | the loop over the map collects the picked patterns in the order visited |
| YaraCompiler.ApplyCountCondition | internal/security/content/yara.go:260-279 | the loop with its early returns sets the count test as specified |
| YaraCompiler.HandleCondition | internal/security/content/yara.go:205-220 | a condition line is handled as specified: all strings, a count test, or the mentioned strings |
| YaraCompiler.CloseRule | internal/security/content/yara.go:170-176 | a rule that gathered nothing falls back to all strings |
| YaraCompiler.ParseYarFile | internal/security/content/yara.go:127-224 | the scanner loop ends as the step function says; none exactly when a definition makes it panic |
| YaraCompiler.CrashedStays | internal/security/content/yara.go:228 | once a definition without content has been met no rules come back |
| YaraCompiler.LoadFails | internal/security/content/yara.go:63-71 | a panic in one file is a panic of the whole load |
| YaraCompiler.YaraEngine.constructor | internal/security/content/yara.go:47-48 | a new engine has no rules |
| YaraCompiler.YaraEngine.Load | internal/security/content/yara.go:56-79 | the rules are replaced by those of all readable files or, on a panic, left as they were |
| YaraCompiler.YaraEngine.ScanData | internal/security/content/yara.go:82-104 | scanning reports the first match among the rules loaded last |
| YaraSource.NothingIsNotEnough | internal/security/content/yara.go:113-123 | a condition without negation holds on no text where none of its strings does |
| YaraSource.NeverMissesIff | internal/security/content/yara.go:113-123 | a disjunction of strings never misses a condition if and only if the condition's other strings do not satisfy it on their own |
| YaraSource.NeverOverreportsIff | internal/security/content/yara.go:113-123 | it never over-reports the condition if and only if each of its strings satisfies it alone |
| YaraSource.ExactIff | internal/security/content/yara.go:113-123 | the disjunction of a condition's own strings is the condition if and only if each of them satisfies it alone |
| YaraSource.OrOnlyNeedsJustOne | internal/security/content/yara.go:113-123 | conditions of or and any of alone have that property |
| YaraSource.LexMentions | internal/security/content/yara.go:214-216 | a name among the tokens of a line stands in the text of the line |
| YaraSource.CompileQuoted | internal/security/content/yara.go:226-250 | a quoted definition always compiles to something matching wherever the source string occurs, spaces and modifiers and comments included |
| YaraSource.CompileExpr | internal/security/content/yara.go:231-248 | an expression definition compiles to that expression with its case flag, or to nothing when the library refuses it |
| YaraSource.CompilePlainQuoted | internal/security/content/yara.go:238-244 | a plain quoted definition compiles to its content with its case flag |
| YaraSource.LiteralIsSame | internal/security/content/yara.go:239-245 | that literal matches exactly where the source string occurs |
| YaraSource.CompileFaithful | internal/security/content/yara.go:226-250 | every definition the library accepts compiles to a covering pattern, a plain one to an equivalent pattern; the others to nothing |
| YaraSource.DefinitionLine | internal/security/content/yara.go:195-203 | however it is spaced, a definition line adds its name with such a pattern, or changes nothing when its string does not compile |
| YaraSoundness.HeaderNames | internal/security/content/yara.go:146-153 | a trimmed header line always has a name, so the length test never fails |
| YaraSoundness.CompilesTo | internal/security/content/yara.go:146-220 | whatever its condition, a laid-out rule adds exactly one rule: the disjunction of the compiling strings its condition lines point at, or of all that compile when they point at none; it never matches when none compiles |
| YaraSoundness.WrittenRuleCompiles | internal/security/content/yara.go:205-220 | any positive condition, mixing names with any of and all of, that points at what it refers to is matched wherever it holds, unless strings that do not compile satisfy it on their own |
| YaraSoundness.AnyOfPicksAll | internal/security/content/yara.go:207-210 | any line with any of, or an empty condition, makes the rule the disjunction of all compiling strings |
| YaraSoundness.RuleCompiles | internal/security/content/yara.go:146-220 | for conditions of names, and, or and parentheses over any lines: one rule is added, sound whenever strings that do not compile cannot satisfy the condition alone, and in the plain case exactly the disjunction of the referenced strings that compile, or of all that compile |
| YaraSoundness.AllCompileIsEnough | internal/security/content/yara.go:201-203 | when every referenced string compiles, that proviso holds and the disjunction is that of the referenced strings |
| YaraSoundness.BrokenStringsMiss | internal/security/content/yara.go:245-248 | when the proviso fails, a text holding exactly the strings that do not compile satisfies the condition and is missed |
| YaraSoundness.AgreesOnIff | internal/security/content/yara.go:113-123 | rule and source agree on a text if and only if the strings holding there satisfy the condition or are none of its own |
| YaraSoundness.SinglesAreExact | internal/security/content/yara.go:113-123 | when each referenced string satisfies the condition alone the compiled rule is its source on every text |
| YaraSoundness.SingleOverreports | internal/security/content/yara.go:113-123 | otherwise every text holding only an insufficient one is over-reported |
| YaraSoundness.OrRulesAreExact | internal/security/content/yara.go:113-123 | for conditions of or and any of alone the compiled rule is the source meaning |
| YaraSoundness.FileScanSound | internal/security/content/yara.go:82-104 | a rule anywhere in a file, its condition holding on non-empty data: a scan with the file's rules reports a match, whatever surrounds the rule |
| YaraSoundness.EngineScanSound | internal/security/content/yara.go:56-104 | the same for what an engine reports that loaded a directory holding such a file |
| YaraSoundness.RulesAreIndependent | internal/security/content/yara.go:149-151 | from a header line on, the rules added do not depend on anything before it: no rule uses another rule's strings |
| YaraCount.CountFields | internal/security/content/yara.go:261-267 | a line `#name op n` is read as hint and number; the operator is skipped |
| YaraCount.AtoiReads | internal/security/content/yara.go:267-270 | signed thresholds are read as such |
| YaraCount.AtoiTooLarge | internal/security/content/yara.go:267-270 | a threshold beyond 64 bits is refused |
| YaraCount.AtoiRefuses | internal/security/content/yara.go:267-270 | what is no number is refused |
| YaraCount.CountRuleCompiles | internal/security/content/yara.go:260-279 | a rule whose condition is such a line matches exactly where its string occurs at least n times, whatever the operator, when no other compiling string has the name in its own |
| YaraCount.OperatorIff | internal/security/content/yara.go:266-267 | for each operator the exact texts on which rule and source agree: all for >=, none for < |
| YaraCount.CountFallsBack | internal/security/content/yara.go:171-175 | when no compiling string fits the hint the rule is the disjunction of all of them |
| YaraCount.CountRuleIsThere | internal/security/content/yara.go:113-116 | in any file such a rule is among the file's rules, with the count as its match |
| YaraCount.CountScanIff | internal/security/content/yara.go:82-116 | when it is the only one a scan reports exactly the non-empty data with at least n occurrences |
| YaraCount.BulkLine | rules/yara/dlp.yar:118 | the shipped bulk-address condition is such a line |
| YaraReport.RuleIsTitled | internal/security/content/yara.go:146-189 | a compiled rule has the header's name, its file's namespace, and the last severity and description of its metadata, HIGH and nothing by default |
| YaraReport.MetaText | internal/security/content/yara.go:252-258 | a metadata value is the text between its quotes |
| YaraReport.MetaWithoutSign | internal/security/content/yara.go:252-258 | a metadata line without a sign has an empty value |
| YaraReport.CommentsAreIgnored | internal/security/content/yara.go:143-145 | blank and comment lines never change anything |
| YaraReport.OutsideIsIgnored | internal/security/content/yara.go:155-157 | outside a rule no line but a header changes anything |
| YaraReport.StringsSection | internal/security/content/yara.go:191-203 | lines that define nothing are ignored, and a definition without content panics |
| YaraReport.NocaseIff | internal/security/content/yara.go:227 | a definition ignores case when the modifier stands behind a blank or a tab anywhere in it |
| YaraReport.MentionsIff | internal/security/content/yara.go:214-216 | a name is mentioned exactly when its text without the dollar sign stands in the line, in any case |
| YaraReport.LoadInOrder | internal/security/content/yara.go:62-71 | the rules of a load are those of its readable files, in order |
| YaraOrder.OrderDoesNotMatter | internal/security/content/yara.go:205-220 | with clear count conditions, the rules and every match are the same for all map iteration orders |
| YaraOrder.CountOrderIff | internal/security/content/yara.go:272-278 | a count condition's result is the same for all orders if and only if all names its hint fits share one pattern |
| Base64Stream.StreamDecodeChunks | agent/security/content/base64_inspect.py:67-87 | the generator on every input and every chunk size: its chunks and their size bound, the round trip for any encoding with any whitespace put anywhere into it, and the error for sizes 0 to 2 |
| Base64Stream.CleanUnwraps | agent/security/content/base64_inspect.py:73 | cleaning removes exactly the whitespace put into a text |
| Base64Stream.DecodeLoop | agent/security/content/base64_inspect.py:77-87 | the loop yields the decoded pieces in order, skipping those that do not decode |
| Base64Stream.RoundTrip | agent/security/content/base64_inspect.py:85 | decoding undoes padded encoding (RFC 4648 section 4) |
| Base64Stream.AlphabetIs | agent/security/content/base64_inspect.py:85 | the alphabet (RFC 4648 section 4) |
| Base64Stream.Vectors | agent/security/content/base64_inspect.py:85 | its test vectors (RFC 4648 section 10) for one group |
| Base64Stream.LoneCharacterFails | agent/security/content/base64_inspect.py:84-87 | a chunk of one character does not decode |
| Base64Stream.PaddingEnds | agent/security/content/base64_inspect.py:85 | nothing is read behind complete padding |
| Base64Stream.EncodePads | agent/security/content/base64_inspect.py:82-83 | the padding added to a stripped encoding restores the padded one |
| Base64Stream.EncodeSplit | agent/security/content/base64_inspect.py:76-78 | the encoding of whole groups followed by anything is the two encodings one after the other |
| Base64Stream.DecodeChunk | agent/security/content/base64_inspect.py:81-85 | padding and decoding one encoded chunk gives its bytes |
| Base64Stream.ChunkedRoundTrip | agent/security/content/base64_inspect.py:72-87 | chunked decoding of any encoding, padded or stripped, concatenates to the original |
| Base64Stream.OutputSize | agent/security/content/base64_inspect.py:85 | decoded output is at most three quarters of the alphabet characters read, for any input |
| Base64Stream.ChunkLengths | agent/security/content/base64_inspect.py:76-85 | no chunk is larger than the requested size, whatever the input |
| JsonEscape.EscapeReadsBack | module/nginx/ngx_http_aiss_module.c:494-501 | reading the escapes back (RFC 8259 section 7) gives every byte of the text but the control bytes other than tab, line feed and carriage return |
| JsonEscape.PlainIsUnchanged | module/nginx/ngx_http_aiss_module.c:500 | text without quotes, backslashes and control bytes is written as it is |
| JsonEscape.TakenUnique | module/nginx/ngx_http_aiss_module.c:492 | how much of the source is taken is determined by the source and the buffer size |
| JsonEscape.WrittenReadsBack | module/nginx/ngx_http_aiss_module.c:482-505 | what either routine leaves is well-formed, NUL-terminated, reads back to the taken prefix, and stops early only for lack of room |
| JsonEscape.Emit | module/nginx/ngx_http_aiss_module.c:494-501 | one byte's escape is written whole, in place, and nothing else changes |
| JsonEscape.Terminate | module/apache/mod_aiss.c:387 | the terminator is written behind the output and nothing else changes |
| JsonEscape.AissEscapeJsonStr | module/nginx/ngx_http_aiss_module.c:482-505 | the length-delimited routine leaves exactly the escape of a source prefix, in bounds, with its NUL |
| JsonEscape.EscapeAll | module/nginx/ngx_http_aiss_module.c:492-502 | its loop leaves the escape of the bytes read in front of the untouched rest of the buffer, and stops early only at the limit |
| JsonEscape.CString | module/apache/mod_aiss.c:376 | the text a C pointer denotes ends at the first NUL |
| JsonEscape.AissEscapeJson | module/apache/mod_aiss.c:372-388 | the NUL-terminated routine leaves the same for the text before the NUL |
| JsonEscape.EscapeUntilNul | module/apache/mod_aiss.c:376-386 | its loop does the same and reads no byte beyond the NUL |
| JsonEscape.EscapeText | module/apache/mod_aiss.c:376-387 | the loop and the terminator together leave the escape of a prefix of the text before the NUL |
| VerdictTable.Index | module/nginx/ngx_http_aiss_module.c:95 | every address maps into the table |
| VerdictTable.MaskIsRemainder | module/nginx/ngx_http_aiss_module.c:95 | masking with 65535 is the remainder modulo 65536 |
| VerdictTable.FnvVectors | module/nginx/ngx_http_aiss_module.c:62-69 | the published FNV-1a values of the empty text, of a and of foobar |
| VerdictTable.FoldLoop | module/nginx/ngx_http_aiss_module.c:62-69 | the byte loop is a left fold for any mixing step |
| VerdictTable.AissFnv1a | module/nginx/ngx_http_aiss_module.c:62-69 | the hash is the FNV-1a fold over the bytes |
| VerdictTable.NewSegment | module/nginx/ngx_http_aiss_module.c:72-84 | a newly created, zero-filled segment holds the empty history |
| VerdictTable.VerdictCache.constructor | module/nginx/ngx_http_aiss_module.c:71-90 | a process goes on with whatever history its segment holds, which opening does not clear; without a segment it runs without a table |
| VerdictTable.VerdictCache.Check | module/nginx/ngx_http_aiss_module.c:93-101 | a hit exactly when the last store into the bucket was a live PERMIT whose stored text agrees |
| VerdictTable.VerdictCache.StoreVerdict | module/nginx/ngx_http_aiss_module.c:104-112 | a store extends the history by itself and keeps the table in step with it |
| VerdictTable.LastInIsLastFor | module/nginx/ngx_http_aiss_module.c:93-112 | a bucket's last store is the address's own unless another address took the bucket afterwards |
| VerdictTable.HitIff | module/nginx/ngx_http_aiss_module.c:93-112 | for addresses that fit, a hit if and only if the latest store for that address was PERMIT, less than 60 seconds ago, and not evicted |

## Left out

- Audit dispatch: skipped paths, header lookup and truncation, the response header, the message text of the verify result, and a reset that finds no middleware instance.
- Audit time: timestamps are assumed to survive the database round trip, and the clock to increase strictly between appends; `AppendOrderIff` shows that the second assumption is needed.
- Audit secrets: HMAC-SHA256 (RFC 2104 section 2) is a parameter with 64-character, pipe-free results; forging without the key is not modelled.
- Liveness: only safety is proved over runs; the two locks taken in opposite orders appear as the stuck states of `StuckIff`.
- Entropy.AnalyseEntropy: reals instead of floating point, so rounding inside the logarithm and the sum is not modelled.
- RateLimit.RateLimitMiddleware.Dispatch: choosing the client address from the headers, the 429 body and the response headers; each `is_allowed` is one atomic step.
- TelemetryBuffer.Buffer.OnQuit: a nil sink, sink errors (which are only logged), a sink that keeps the reused batch slice, and the unbuffered channel of capacity 0, where a send succeeds only while the flusher receives.
- WriteStore.BatchingRefinesSequential: failing statements, a failing `Begin` or `Commit`, and the append-only event table.
- WorkerServer.Server.HandleConn: socket deadlines, panicking handlers and nil responses; the exchange with the peer is a parameter.
- Pipeline.PipelineServer.Check: writes to the two caches are immediately visible and never dropped, the latency field is omitted, the static-file test, Base64 detection and the three tiers are parameters, and some reason texts leave out formatted numbers or write a plain dash.
- Pipeline.PipelineServer.InspectContent: the asynchronous scan of very large bodies, which only logs.
- YaraSoundness.CompilesTo: hex strings, escaped quotes, the modifiers wide, xor and base64, count conditions beside other conditions, and several rules on one line are outside the layouts; ASCII stands for Unicode in trimming and case folding.
- YaraSoundness.RuleCompiles: reads conditions token by token only when they are made of names, and, or and parentheses; `any of` and `all of` are covered by `WrittenRuleCompiles`, which takes the condition's meaning as given.
- Entropy.LongPayloadsCanAlarm: payloads longer than 256 bytes, which need repeated bytes, are not constructed.
- YaraCount.CountRuleCompiles: what counts as an occurrence is the regex library's matter; the count lines are those of a rule with plain definitions and no other condition line.
- YARA files: globbing, the scanner's limit on line length and read errors are one flag, readable or not; reloading while scanning is one atomic swap.
- JsonEscape.WrittenReadsBack: buffers of fewer than two bytes, where the source's unsigned subtraction wraps; the numeric escape form is never produced and not read.
- Base64Stream.OutputSize: for input that is not an encoding only the size of the output is bounded.
- Base64Stream.DecodeLoop: carries the remaining input instead of an index into it.
- VerdictTable.VerdictCache.Check: calls are atomic; torn reads and writes by several processes in the shared segment are not modelled. The hash is a field equal to `Index`.
- Static data: pattern lists, tier-3 weights and severity sorting, role checks, statistics queries and configuration, which would add only single-branch members.
- The Python agent's own telemetry buffer and store, the CVE delta synchronisation and all transports.
