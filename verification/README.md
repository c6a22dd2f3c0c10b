# queuejitsu-scheduler: the due-job selector and the drain loop, in Dafny

This project models the core of the QueueJitsu scheduler: the Redis adapter that
keeps two queues of deferred work, and the `Scheduler` that sits on top of it.

- The **at-queue** holds one-shot jobs keyed by a timestamp. The sorted set
  `_schdlr_at_` indexes the timestamps, each scored by itself. A list
  `_schdlr_at_:{t}` holds the entries for timestamp `t`. Each entry is the job
  payload plus `s_time`, the time it was enqueued.
- The **cron queue** holds recurring jobs. The sorted set `_schdlr_cron_` maps
  each cron id (a UUID) to its next fire time. The key `_schdlr_cron_:{id}`
  holds the id's record: the cron expression and the job payload.
- `getNextJob` looks up the lowest due entry of each queue. When both queues
  have one, it compares them and picks one. It then pops an at-job (and cleans
  up the timestamp), or it fires a cron job (and re-arms its score).
- `Scheduler::schedule` calls `getNextJob` until it yields null. It passes each
  job to the job manager's `enqueue` and then `updateStatus(job, 63)`.

The store is an immutable value (`RedisAdapter.Store`). Every adapter method is
a pure function from the store and the current time to a new store and a
result. A result is a job, null, or an exception (`Jobs.Fetch`). The scheduler
is generic over any adapter with the three operations of the adapter interface
(`Scheduler.Adapter`). Its collaborators are observed through a log of the calls
made to them: the adapter, the event manager and the job manager.

Files, one module each:

- `jobs.dfy`: the job, at-list entry, cron record and result types.
- `ordering.dfy`: least elements of the two sorted sets. Ties between equal
  scores are broken by member.
- `php.dfy`: PHP's `<=` on `?int` operands, and what `empty()`, `[0]` and
  `(int)` make of a score's text.
- `redis_adapter.dfy`: the adapter as written, on unbounded integers (see "Left out" for integer widths).
- `corrected.dfy`: the adapter with the two defects under "Findings" fixed.
- `scheduler.dfy`: the scheduler, and the drain loop as a method with a trace.
- `drain.dfy`: the scheduler wired to both adapters at one instant, and why
  the drain loop ends.
- `findings.dfy`: concrete runs that show each defect next to the corrected run.

Modelling decisions:

- One value `now` stands for every `time()` read within one call. The cron
  evaluator `nextRun(expr, now)` is a parameter. It returns None where
  `CronExpression::factory` or `getNextRunDate` would throw.
- A cron id is the 128-bit number of its UUID. The canonical lower-case UUID
  text sorts byte by byte the same way the numbers sort. So Redis's tie-break
  on equal cron scores is numeric order on ids.
- `getCronTimestamp` is modelled exactly, not only for positive scores. Redis
  renders the score as decimal text. `empty()` is true only for `"0"`.
  The first character is then cast to int. A positive score gives its leading
  digit, a negative score gives 0, and score 0 gives null. PHP's `$a <= null`
  compares both sides as booleans, so only timestamp 0 is `<=` null
  (`Php.LessEq`).
- An `lpop` on an empty or missing list returns null. The code then decodes
  null and builds a `Job` from it. The model treats this as an exception
  (`EmptyAtList`) that leaves the store unchanged. Both possible outcomes of
  that path (a `TypeError` before the cleanup, or a cleanup that does nothing
  on an empty list) leave the store as it was.
- A fired cron job is rebuilt from its class, queue and args only. Its `id` is
  None, which stands for whatever the `Job` constructor defaults it to.

Where the code departs from what its own names and docblocks promise, the model follows the code. `cleanupTimestamp` is named for removing a spent timestamp, and `getCronTimestamp` is documented to return the timestamp (`@return int|null`). The model keeps:

- The cleanup after a pop deletes the timestamp while entries remain, and keeps
  it once the list is empty.
- The cross-queue comparison reads the first character of the cron score.
- An empty-but-indexed list raises. It is not treated as "nothing here".
- `enqueueCron` writes the record before it evaluates the expression. A
  rejected expression therefore leaves a record with no index entry.

## Model

| member | source | states |
|---|---|---|
| RedisAdapter.RPush | src/Adapter/RedisAdapter.php:72 | the list of `t` gains the entry at its tail; no other list, index or cron key changes |
| RedisAdapter.LPop | src/Adapter/RedisAdapter.php:257 | an empty or missing list pops nothing and changes nothing; otherwise the head is returned and the list keeps exactly its tail; nothing else changes |
| RedisAdapter.EnqueueAt | src/Adapter/RedisAdapter.php:65-74 | exactly one entry (the job with `s_time = now`) is appended to the list of `at`, and `at` becomes indexed; other lists and all cron state are unchanged, so re-enqueuing at an indexed time only lengthens its list |
| RedisAdapter.UpdateCron | src/Adapter/RedisAdapter.php:194-200 | succeeds exactly when the evaluator accepts the expression; the id is then scored with `nextRun(cron, now)`, and every other score, the at-queue and the records are unchanged |
| RedisAdapter.EnqueueCron | src/Adapter/RedisAdapter.php:86-97 | for a fresh id, the record `{cron, job}` is stored whatever happens; the id is indexed with score `nextRun(cron, now)` exactly when the expression is accepted, and otherwise the call raises and the index is unchanged; existing scores and the at-queue are untouched |
| RedisAdapter.GetNextAtTimestamp | src/Adapter/RedisAdapter.php:124-141 | null exactly when no indexed timestamp is at most `now`; otherwise the lowest such timestamp |
| RedisAdapter.GetNextCronId | src/Adapter/RedisAdapter.php:227-244 | none (false) exactly when no cron score is at most `now`; otherwise the due id that sorts first by (score, id) |
| RedisAdapter.GetCronTimestamp | src/Adapter/RedisAdapter.php:291-300 | null for a missing id or a zero score, 0 for a negative score, and the leading decimal digit (not the score) for a positive one |
| Php.LeadingDigit | src/Adapter/RedisAdapter.php:299 | the result is a digit 1..9 and, for some k, `d * 10^k <= n < (d + 1) * 10^k` |
| Php.FirstCharOfScoreValue | src/Adapter/RedisAdapter.php:293-299 | the score's decimal text is empty-like exactly for 0; its first character casts to 0 for a negative score and to the leading digit for a positive one |
| RedisAdapter.CleanupTimestamp | src/Adapter/RedisAdapter.php:274-282 | on an empty or missing list nothing changes; on a NON-empty list the list and the index entry are removed; other lists and cron state are untouched |
| RedisAdapter.CleanupIdempotent | src/Adapter/RedisAdapter.php:274-282 | cleaning up twice equals cleaning up once, and on an empty list it is a no-op |
| RedisAdapter.GetNextJobAtTimestamp | src/Adapter/RedisAdapter.php:253-267 | an empty list raises with the store unchanged; otherwise the head's job (class, queue, args, id) is returned; a one-entry list leaves the timestamp indexed with no list; a longer list is deleted with its remaining entries and unindexed |
| RedisAdapter.GetNextAtJob | src/Adapter/RedisAdapter.php:173-182 | null with the store unchanged when no timestamp is due; otherwise a pop from the lowest due timestamp |
| RedisAdapter.GetNextCronJob | src/Adapter/RedisAdapter.php:311-328 | null exactly when no cron id is due; for the first due id: no record raises `MissingCronRecord`, a rejected expression raises `InvalidCron`, both with the store unchanged, and an accepted one fires; a firing returns the record's class/queue/args with no id, keeps every record and index key, moves only the fired id's score to `nextRun(expr, now)`, and leaves the at-queue alone |
| Php.LessEq | src/Adapter/RedisAdapter.php:161 | PHP's `<=` on `?int`: two integers compare numerically; null is `<=` anything; an integer is `<=` null only when it is 0 |
| RedisAdapter.FindNextJob | src/Adapter/RedisAdapter.php:150-166 | with no cron id due, the at-queue call; with no timestamp due, null (a null timestamp is `<=` anything); with both due, the at-job goes first exactly when the lowest due timestamp is `<=` the cron score's leading digit (if positive), 0 (if negative) or null (if zero), and otherwise the cron job fires |
| RedisAdapter.GetNextJob | src/Adapter/RedisAdapter.php:106-117 | null exactly when neither queue has an entry scored at most `now`; null or an exception leaves the store unchanged; cron records and cron ids are never removed; at-lists and the at-index never grow |
| RedisAdapter.AtOnlyPopsLowestTimestamp | src/Adapter/RedisAdapter.php:112-113 | with no cron id due, the call pops from the lowest due timestamp |
| RedisAdapter.CronOnlyFiresFirstId | src/Adapter/RedisAdapter.php:116 | with no timestamp due, the call fires the first due cron id (or yields null) |
| RedisAdapter.ChoiceWhenBothDue | src/Adapter/RedisAdapter.php:150-166 | with both queues due, the at-job goes first exactly when the lowest due timestamp is `<=` what `getCronTimestamp` makes of the first due cron score (its leading digit if positive, 0 if negative, null if zero); otherwise the cron job fires |
| RedisAdapter.StaleTimestampFails | src/Adapter/RedisAdapter.php:253-266 | an indexed due timestamp with no list, and no cron id due, makes the call raise `EmptyAtList` without changing the store |
| Corrected.CleanupTimestamp | src/Adapter/RedisAdapter.php:274-282 | the intended cleanup: a timestamp whose list is empty or missing is unindexed; a non-empty list is kept |
| Corrected.GetNextJobAtTimestamp | src/Adapter/RedisAdapter.php:253-267 | the head is returned and the list keeps exactly its tail; the timestamp is unindexed exactly when its last entry is popped |
| Corrected.GetNextAtJob | src/Adapter/RedisAdapter.php:173-182 | null when nothing is due; otherwise the corrected pop from the lowest due timestamp |
| Corrected.FindNextJob | src/Adapter/RedisAdapter.php:150-166 | the intended comparison: with both queues due, the at-job goes first exactly when the lowest due timestamp is at most the first due cron id's whole score |
| Corrected.GetNextJob | src/Adapter/RedisAdapter.php:106-117 | null exactly when nothing is due; it keeps the store consistent (a timestamp is indexed iff its list is non-empty, every cron id has a record); on a consistent store it raises only for a rejected cron expression; cron records and ids are never removed |
| Corrected.EnqueueKeepsConsistent | src/Adapter/RedisAdapter.php:65-74 | enqueueing an at-job keeps the store consistent |
| Corrected.EnqueueCronKeepsConsistent | src/Adapter/RedisAdapter.php:86-97 | registering a cron job keeps the store consistent, even when its expression is rejected |
| Corrected.EarliestAtFirst | src/Adapter/RedisAdapter.php:150-166 | when the lowest due timestamp is no later than every due cron score, its list's head is returned, the list keeps its tail and the cron queue is untouched; at-jobs win ties |
| Corrected.EarliestCronFirst | src/Adapter/RedisAdapter.php:150-166 | when the first due cron score is earlier than every due timestamp, that cron job fires (or raises for a rejected expression) and the at-queue is untouched |
| Corrected.FifoWithinTimestamp | src/Adapter/RedisAdapter.php:253-282 | while a timestamp stays the earliest due entry, two calls return the first two entries of its list, in the order they were queued |
| Scheduler.EnqueueAt | src/Scheduler.php:89-94 | exactly one adapter `enqueueAt(at, job)` call, followed by exactly one `afterSchedule` event carrying the job and `at` |
| Scheduler.EnqueueIn | src/Scheduler.php:76-81 | the same effect as `enqueueAt(now + seconds, job)`: one adapter write at `now + seconds`, then its event |
| Scheduler.EnqueueCron | src/Scheduler.php:104-107 | forwards `cron` and `job` unchanged to the adapter, passes on its exception, and emits no event |
| Scheduler.GetNextJob | src/Scheduler.php:125-128 | one adapter call, whose store and result are passed on unchanged |
| Scheduler.EventsOfEnqueues | src/Scheduler.php:89-107 | scheduling at a time adds exactly one event, `afterSchedule` with the job and the time; registering a cron job adds none |
| Scheduler.Schedule | src/Scheduler.php:112-118 | the loop ends on the first call that yields null or raises; the jobs handed over are exactly those the adapter yielded, one per call; for each job the log holds the adapter call, then `enqueue(job)`, then `updateStatus(job, 63)`; no adapter call follows the last one |
| Scheduler.Overrun | src/Scheduler.php:114 | a run of adapter calls that ends on null or an exception cannot be extended by a further job |
| Scheduler.DrainDeterminate | src/Scheduler.php:112-118 | two drain passes from one store hand over the same jobs |
| Drain.NewCronId | src/Adapter/RedisAdapter.php:90 | the drawn id is neither indexed nor recorded |
| Drain.CronFireShrinksDue | src/Adapter/RedisAdapter.php:311-328 | when the evaluator returns times after `now`, a firing removes the fired id from the due cron ids and leaves the due timestamps alone |
| Drain.AtPopShrinks | src/Adapter/RedisAdapter.php:253-282 | an as-written pop unindexes the timestamp, or empties its list while it stays the earliest due |
| Drain.CorrectedAtPopShrinks | src/Adapter/RedisAdapter.php:253-282 | a corrected pop unindexes the timestamp, or shortens its list while it stays the earliest due |
| Drain.RedisProgress | src/Scheduler.php:112-118 | with a fixed `now` and fire times after `now`, every job the as-written adapter yields lowers (due entries, length of the earliest due list) lexicographically |
| Drain.CorrectedProgress | src/Scheduler.php:112-118 | the same measure falls with every job the corrected adapter yields |
| Drain.ScheduleAsWritten | src/Scheduler.php:112-118 | `schedule` over the as-written adapter ends, with the trace of `Scheduler.Schedule` |
| Drain.ScheduleCorrected | src/Scheduler.php:112-118 | `schedule` over the corrected adapter ends, with the same trace |
| Findings.SecondJobLost | src/Adapter/RedisAdapter.php:274-282 | two jobs queued at one due time: the first call returns the first job and empties the store, and the next call yields null, so the second job is never returned |
| Findings.SingleJobDrainFails | src/Adapter/RedisAdapter.php:253-282 | one job queued at a due time: the drain hands it over, leaves its timestamp indexed without a list, and then raises `EmptyAtList` |
| Findings.CorrectedReturnsBoth | src/Adapter/RedisAdapter.php:253-282 | the corrected selector returns both jobs in queue order, then yields null on an empty store |
| Findings.CorrectedSingleJobDrains | src/Adapter/RedisAdapter.php:253-282 | the corrected drain hands the job over and ends on null with an empty store |
| Findings.StaleBlocksLaterJobs | src/Adapter/RedisAdapter.php:253-282 | a stale lowest due timestamp with no cron id due makes every drain pass raise at once and hand over nothing |
| Findings.StaleSurvivesEnqueue | src/Adapter/RedisAdapter.php:253-282 | an at-job queued later than a stale timestamp is never reached: the next call still raises on the stale one |
| Findings.CronOvertakesEarlierAt | src/Adapter/RedisAdapter.php:159-165 | an at-job due at 10 and a cron job due at 20, both due at 20: the as-written selector fires the cron job first and re-arms it |
| Findings.CorrectedEarlierAtFirst | src/Adapter/RedisAdapter.php:159-165 | on the same store the corrected selector returns the at-job and unindexes its timestamp |
| Findings.TiesGoToCronFromTen | src/Adapter/RedisAdapter.php:159-165 | with equal due times, the as-written selector fires the cron job once the time has two digits, and pops the at-job for every time up to 9 (including 0 and negative times) |

## Left out

- Redis and Predis I/O, network failures and store atomicity. The store is an in-memory value. Each call is one atomic step, and no two scheduler processes run at once.
- JSON encoding and decoding. These are the identity on the `class`, `queue`, `args`, `id` and `s_time` fields. Arguments are kept as opaque strings.
- `CronExpression` parsing and next-date computation. These belong to an unseen library. The evaluator is the `nextRun` parameter, and None stands for its exceptions.
- `Uuid::uuid4()`. `RedisAdapter.EnqueueCron` accepts any id that is neither indexed nor recorded. `Drain.NewCronId` picks one above every id in use, in place of a random UUID.
- Clock drift between the several `time()` reads of one call. One `now` serves the whole call.
- The `Job` class and `getPayload()`. They are not part of this model. A job is a record of its four fields, and the cron job's default id is None.
- Redis's exponent notation for scores of 18 or more digits. The model renders every score as plain digits. The first character, which is all the code reads, is the same either way.
- The Zend event manager's listeners. An event is only an entry in the log.
- `JobManager`'s behaviour. `enqueue` and `updateStatus` are only entries in the log.
- `src/Worker/Worker.php`. It calls the private `Scheduler::getNextJob` and indexes the resulting `Job` as an array, so there is no coherent behaviour to model.
- `src/Worker/WorkerFactory.php` and `src/SchedulerFactory.php`. They only wire dependencies.
- `src/Adapter/AdapterInterface.php:17-43` has no behaviour of its own. `Scheduler.Adapter` mirrors its three methods.
- Scheduler.EnqueueIn: does not model PHP's integer overflow. `time() + $seconds` past PHP_INT_MAX becomes a float, and the strictly typed `enqueueAt(int $at, …)` then raises a TypeError before any adapter call. The model adds unbounded integers and always enqueues.
- RedisAdapter.Store: scores are unbounded integers, not Redis's doubles. Timestamps and fire times above 2^53 would be rounded before the due comparisons with `now` in `getNextAtTimestamp` and `getNextCronId`. The model compares them exactly.
- Drain.ScheduleAsWritten: termination is proved only for an evaluator whose fire times lie after `now`. The library's promise of this is not visible.
- Drain.ScheduleCorrected: termination is proved only for an evaluator whose fire times lie after `now`. The library's promise of this is not visible.

## Findings

| source | as written | input that shows it | evidently intended | confidence | as-written member | corrected member |
|---|---|---|---|---|---|---|
| src/Adapter/RedisAdapter.php:278 | `cleanupTimestamp` deletes the list and the index entry when `llen` is non-zero | two jobs queued at a due time `t`: the first call returns the first job and deletes the second unseen. With one job at `t`, the emptied `t` stays indexed and the next call raises. While no cron job is due, every later call raises too, so at-jobs queued at later times are never reached | remove the timestamp once its list is empty, so that jobs at one time come out in FIFO order and drained times leave the index | high (not executed) | Findings.SecondJobLost, Findings.SingleJobDrainFails, Findings.StaleBlocksLaterJobs, Findings.StaleSurvivesEnqueue | Corrected.CleanupTimestamp (proved: Corrected.FifoWithinTimestamp, Corrected.GetNextJob, Findings.CorrectedReturnsBoth, Findings.CorrectedSingleJobDrains) |
| src/Adapter/RedisAdapter.php:299 | `getCronTimestamp` returns `(int)$items[0]`, the first character of the score's text | an at-job due at 10 and a cron job due at 20, at time 20: the cron job fires first, because 10 is compared with 2 | compare the at-timestamp with the whole cron score, so the earlier entry fires first and at-jobs win ties | high (not executed) | Findings.CronOvertakesEarlierAt, Findings.TiesGoToCronFromTen | Corrected.GetNextJob (proved: Corrected.EarliestAtFirst, Corrected.EarliestCronFirst, Findings.CorrectedEarlierAtFirst) |
