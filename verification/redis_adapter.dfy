/** The Redis-backed due-job selector, as written: the at-queue (one-shot jobs
    keyed by timestamp), the cron queue (recurring jobs re-armed after every
    firing) and the merge rule between them. Every operation is a pure step
    from a store (and the current time) to a new store and a result. */
module RedisAdapter {
  import opened Jobs
  import opened Ordering
  import Php

  /** The keys the adapter owns:
      - `_schdlr_at_`, a sorted set of timestamps scored by themselves (`atIndex`);
      - `_schdlr_at_:{t}`, the list of entries for timestamp t (`atLists`); Redis
        drops a list with its last element, so no key maps to the empty list;
      - `_schdlr_cron_`, a sorted set of cron ids scored by next fire time (`cronIndex`);
      - `_schdlr_cron_:{id}`, the record of a cron id (`cronRecords`). */
  datatype Store = Store(
    atIndex: set<int>,
    atLists: map<int, seq<AtEntry>>,
    cronIndex: map<CronId, int>,
    cronRecords: map<CronId, CronRecord>)

  const EmptyStore := Store({}, map[], map[], map[])

  /** The list under `_schdlr_at_:{t}`; a missing key reads as empty. */
  function AtList(s: Store, t: int): seq<AtEntry>
  {
    if t in s.atLists then s.atLists[t] else []
  }

  /** Indexed timestamps whose score is at most `now`. */
  function DueAt(s: Store, now: int): set<int>
  {
    set t | t in s.atIndex && t <= now
  }

  /** Indexed cron ids whose score is at most `now`. */
  function DueCron(s: Store, now: int): set<CronId>
  {
    set id | id in s.cronIndex && s.cronIndex[id] <= now
  }

  /** The job a decoded at-list entry rebuilds: class, queue, args and id. */
  function AtJob(e: AtEntry): Job
  {
    Job(e.payload.handler, e.payload.queue, e.payload.args, e.payload.id)
  }

  /** The job a fired cron record rebuilds: class, queue and args only. */
  function CronJob(rec: CronRecord): Job
  {
    Job(rec.payload.handler, rec.payload.queue, rec.payload.args, None)
  }

  // ---------------------------------------------------------------------------
  // Redis list primitives

  /** RPUSH of one entry onto `_schdlr_at_:{t}`. */
  function RPush(s: Store, t: int, e: AtEntry): (r: Store)
    ensures AtList(r, t) == AtList(s, t) + [e]
    ensures forall u :: u != t ==> AtList(r, u) == AtList(s, u)
    ensures r.atIndex == s.atIndex && r.cronIndex == s.cronIndex && r.cronRecords == s.cronRecords
  {
    s.(atLists := s.atLists[t := AtList(s, t) + [e]])
  }

  /** LPOP of `_schdlr_at_:{t}`: the head, or None on an empty list. */
  function LPop(s: Store, t: int): (r: (Store, Option<AtEntry>))
    ensures AtList(s, t) == [] ==> r == (s, None)
    ensures AtList(s, t) != [] ==> r.1 == Some(AtList(s, t)[0]) && AtList(r.0, t) == AtList(s, t)[1..]
    ensures forall u :: u != t ==> AtList(r.0, u) == AtList(s, u)
    ensures r.0.atIndex == s.atIndex && r.0.cronIndex == s.cronIndex && r.0.cronRecords == s.cronRecords
  {
    var list := AtList(s, t);
    if list == [] then (s, None)
    else if |list| == 1 then (s.(atLists := s.atLists - {t}), Some(list[0]))
    else (s.(atLists := s.atLists[t := list[1..]]), Some(list[0]))
  }

  // ---------------------------------------------------------------------------
  // Enqueueing

  /** `enqueueAt`: appends the job, stamped with `s_time = now`, to the list of
      timestamp `at` and indexes `at`. */
  function EnqueueAt(s: Store, at: int, job: Job, now: int): (r: Store)
    ensures AtList(r, at) == AtList(s, at) + [AtEntry(job, now)]
    ensures forall t :: t != at ==> AtList(r, t) == AtList(s, t)
    ensures r.atIndex == s.atIndex + {at}
    ensures r.cronIndex == s.cronIndex && r.cronRecords == s.cronRecords
  {
    var pushed := RPush(s, at, AtEntry(job, now));
    pushed.(atIndex := pushed.atIndex + {at})
  }

  /** `updateCron`: sets the score of `id` to the next fire time of `cron`
      after `now`, or fails when the evaluator rejects the expression. */
  function UpdateCron(s: Store, id: CronId, cron: string, now: int, nextRun: NextRun): (r: Option<Store>)
    ensures r.Some? <==> nextRun(cron, now).Some?
    ensures r.Some? ==> r.value.cronIndex.Keys == s.cronIndex.Keys + {id}
    ensures r.Some? ==> r.value.cronIndex[id] == nextRun(cron, now).value
    ensures r.Some? ==> forall j :: j in s.cronIndex && j != id ==> r.value.cronIndex[j] == s.cronIndex[j]
    ensures r.Some? ==> r.value.atIndex == s.atIndex && r.value.atLists == s.atLists && r.value.cronRecords == s.cronRecords
  {
    match nextRun(cron, now)
    case None => None
    case Some(next) => Some(s.(cronIndex := s.cronIndex[id := next]))
  }

  /** `enqueueCron` with the UUID it draws: stores the record, then arms the id.
      A rejected expression raises after the record is written, leaving a
      record that no index entry points to. */
  function EnqueueCron(s: Store, cron: string, job: Job, id: CronId, now: int, nextRun: NextRun): (r: Ack<Store>)
    requires id !in s.cronIndex && id !in s.cronRecords
    ensures r.store.cronRecords == s.cronRecords[id := CronRecord(cron, job)]
    ensures r.store.atIndex == s.atIndex && r.store.atLists == s.atLists
    ensures r.raised.None? <==> nextRun(cron, now).Some?
    ensures r.raised.None? ==>
      && r.store.cronIndex.Keys == s.cronIndex.Keys + {id}
      && r.store.cronIndex[id] == nextRun(cron, now).value
      && forall j :: j in s.cronIndex ==> r.store.cronIndex[j] == s.cronIndex[j]
    ensures r.raised.Some? ==> r.raised.value == InvalidCron(cron) && r.store.cronIndex == s.cronIndex
  {
    var written := s.(cronRecords := s.cronRecords[id := CronRecord(cron, job)]);
    match UpdateCron(written, id, cron, now, nextRun)
    case None => Ack(written, Some(InvalidCron(cron)))
    case Some(armed) => Ack(armed, None)
  }

  // ---------------------------------------------------------------------------
  // Due lookups

  /** `getNextAtTimestamp`: the lowest indexed timestamp at most `now`, or null. */
  function GetNextAtTimestamp(s: Store, now: int): (r: Option<int>)
    ensures r.None? <==> forall t :: t in s.atIndex ==> t > now
    ensures r.Some? ==> r.value in s.atIndex && r.value <= now
    ensures r.Some? ==> forall t :: t in s.atIndex && t <= now ==> r.value <= t
  {
    var due := DueAt(s, now);
    assert forall t :: t in s.atIndex && t <= now ==> t in due;
    if due == {} then None else Some(Least(due))
  }

  /** `getNextCronId`: the first cron id by (score, id) among those scored at
      most `now`, or false (None). */
  function GetNextCronId(s: Store, now: int): (r: Option<CronId>)
    ensures r.None? <==> forall id :: id in s.cronIndex ==> s.cronIndex[id] > now
    ensures r.Some? ==> r.value in s.cronIndex && s.cronIndex[r.value] <= now
    ensures r.Some? ==> forall id :: id in s.cronIndex && s.cronIndex[id] <= now ==> RanksFirst(s.cronIndex, r.value, id)
  {
    var due := DueCron(s, now);
    assert forall id :: id in s.cronIndex && s.cronIndex[id] <= now ==> id in due;
    if due == {} then None else Some(First(s.cronIndex, due))
  }

  /** `getCronTimestamp`: the score's text, or null when it is absent or
      empty-like, cut down to its first character and cast to int. */
  function GetCronTimestamp(s: Store, id: CronId): (r: Option<int>)
    ensures id !in s.cronIndex ==> r.None?
    ensures id in s.cronIndex && s.cronIndex[id] == 0 ==> r.None?
    ensures id in s.cronIndex && s.cronIndex[id] < 0 ==> r == Some(0)
    ensures id in s.cronIndex && s.cronIndex[id] > 0 ==> r == Some(Php.LeadingDigit(s.cronIndex[id]))
  {
    if id !in s.cronIndex then None
    else
      Php.FirstCharOfScoreValue(s.cronIndex[id]);
      Php.FirstCharOfScore(s.cronIndex[id])
  }

  // ---------------------------------------------------------------------------
  // Popping and firing

  /** `cleanupTimestamp`: drops the list and the index entry of `t` when the
      list is NON-empty, and does nothing when it is empty or missing. */
  function CleanupTimestamp(s: Store, t: int): (r: Store)
    ensures |AtList(s, t)| == 0 ==> r == s
    ensures |AtList(s, t)| != 0 ==> AtList(r, t) == [] && r.atIndex == s.atIndex - {t}
    ensures forall u :: u != t ==> AtList(r, u) == AtList(s, u)
    ensures r.cronIndex == s.cronIndex && r.cronRecords == s.cronRecords
  {
    if |AtList(s, t)| != 0 then s.(atLists := s.atLists - {t}, atIndex := s.atIndex - {t})
    else s
  }

  /** `getNextJobAtTimestamp`: pops the head of the list of `t`, then cleans up.
      After the pop, entries left behind mean the cleanup deletes them with the
      index entry; an emptied list leaves the index entry in place. */
  function GetNextJobAtTimestamp(s: Store, t: int): (r: Reply<Store>)
    ensures AtList(s, t) == [] ==> r == Reply(s, Failed(EmptyAtList(t)))
    ensures AtList(s, t) != [] ==> r.fetch == Got(AtList(s, t)[0].payload)
    ensures |AtList(s, t)| == 1 ==> AtList(r.store, t) == [] && r.store.atIndex == s.atIndex
    ensures |AtList(s, t)| > 1 ==> AtList(r.store, t) == [] && r.store.atIndex == s.atIndex - {t}
    ensures forall u :: u != t ==> AtList(r.store, u) == AtList(s, u)
    ensures r.store.cronIndex == s.cronIndex && r.store.cronRecords == s.cronRecords
  {
    var (popped, item) := LPop(s, t);
    match item
    case None => Reply(s, Failed(EmptyAtList(t)))
    case Some(e) => Reply(CleanupTimestamp(popped, t), Got(AtJob(e)))
  }

  /** `getNextAtJob`: pops from the lowest due timestamp, or yields null. */
  function GetNextAtJob(s: Store, now: int): (r: Reply<Store>)
    ensures DueAt(s, now) == {} ==> r == Reply(s, Nothing)
    ensures DueAt(s, now) != {} ==> r == GetNextJobAtTimestamp(s, Least(DueAt(s, now)))
  {
    match GetNextAtTimestamp(s, now)
    case None => Reply(s, Nothing)
    case Some(t) => GetNextJobAtTimestamp(s, t)
  }

  /** `getNextCronJob`: fires the first due cron id. The record stays, only the
      id's score moves to the next fire time; the job comes back without an id. */
  function GetNextCronJob(s: Store, now: int, nextRun: NextRun): (r: Reply<Store>)
    ensures r.fetch.Nothing? <==> DueCron(s, now) == {}
    ensures !r.fetch.Got? ==> r.store == s
    ensures DueCron(s, now) != {} ==>
      var id := First(s.cronIndex, DueCron(s, now));
      && (id !in s.cronRecords ==> r == Reply(s, Failed(MissingCronRecord(id))))
      && (id in s.cronRecords && nextRun(s.cronRecords[id].cron, now).None? ==>
            r == Reply(s, Failed(InvalidCron(s.cronRecords[id].cron))))
      && (id in s.cronRecords && nextRun(s.cronRecords[id].cron, now).Some? ==> r.fetch.Got?)
    ensures r.fetch.Got? ==>
      var id := First(s.cronIndex, DueCron(s, now));
      && id in s.cronRecords
      && r.fetch.job == CronJob(s.cronRecords[id])
      && nextRun(s.cronRecords[id].cron, now).Some?
      && r.store.cronIndex.Keys == s.cronIndex.Keys
      && r.store.cronIndex[id] == nextRun(s.cronRecords[id].cron, now).value
      && (forall j :: j in s.cronIndex && j != id ==> r.store.cronIndex[j] == s.cronIndex[j])
      && r.store.cronRecords == s.cronRecords
      && r.store.atIndex == s.atIndex && r.store.atLists == s.atLists
  {
    match GetNextCronId(s, now)
    case None => Reply(s, Nothing)
    case Some(id) =>
      if id !in s.cronRecords then Reply(s, Failed(MissingCronRecord(id)))
      else
        var rec := s.cronRecords[id];
        match UpdateCron(s, id, rec.cron, now, nextRun)
        case None => Reply(s, Failed(InvalidCron(rec.cron)))
        case Some(armed) => Reply(armed, Got(CronJob(rec)))
  }

  /** `findNextJob`: both queues have due work; the at-job goes first when
      its timestamp is `<=` what `getCronTimestamp` makes of the cron score.
      With both due, the lowest due timestamp `t` meets the first due cron
      score `c` as: its leading digit when positive, 0 when negative, null
      (which only timestamp 0 is `<=` to) when zero. A null timestamp is `<=`
      anything, so with no at-job due the call pops nothing. */
  function FindNextJob(s: Store, now: int, nextRun: NextRun): (r: Reply<Store>)
    ensures DueCron(s, now) == {} ==> r == GetNextAtJob(s, now)
    ensures DueAt(s, now) == {} ==> r == Reply(s, Nothing)
    ensures DueAt(s, now) != {} && DueCron(s, now) != {} ==>
      var t := Least(DueAt(s, now));
      var c := s.cronIndex[First(s.cronIndex, DueCron(s, now))];
      var atFirst := if c > 0 then t <= Php.LeadingDigit(c) else if c < 0 then t <= 0 else t == 0;
      r == if atFirst then GetNextJobAtTimestamp(s, t) else GetNextCronJob(s, now, nextRun)
  {
    var nextAt := GetNextAtTimestamp(s, now);
    match GetNextCronId(s, now)
    case None => GetNextAtJob(s, now)
    case Some(id) =>
      if Php.LessEq(nextAt, GetCronTimestamp(s, id)) then GetNextAtJob(s, now)
      else GetNextCronJob(s, now, nextRun)
  }

  /** `getNextJob`: the merge of the two queues. */
  function GetNextJob(s: Store, now: int, nextRun: NextRun): (r: Reply<Store>)
    ensures r.fetch.Nothing? <==> DueAt(s, now) == {} && DueCron(s, now) == {}
    ensures !r.fetch.Got? ==> r.store == s
    ensures r.store.cronRecords == s.cronRecords
    ensures r.store.cronIndex.Keys == s.cronIndex.Keys
    ensures r.store.atIndex <= s.atIndex
    ensures forall t :: |AtList(r.store, t)| <= |AtList(s, t)|
  {
    var hasAt := GetNextAtTimestamp(s, now).Some?;
    var hasCron := GetNextCronId(s, now).Some?;
    if hasAt && hasCron then FindNextJob(s, now, nextRun)
    else if hasAt then GetNextAtJob(s, now)
    else GetNextCronJob(s, now, nextRun)
  }

  // ---------------------------------------------------------------------------
  // Consequences of the merge rule and the cleanup step

  /** With no due cron id, the head of the lowest due timestamp's list is popped. */
  lemma AtOnlyPopsLowestTimestamp(s: Store, now: int, nextRun: NextRun)
    requires DueAt(s, now) != {} && DueCron(s, now) == {}
    ensures GetNextJob(s, now, nextRun) == GetNextJobAtTimestamp(s, Least(DueAt(s, now)))
  {
    assert GetNextCronId(s, now).None?;
  }

  /** With no due timestamp, the first due cron id (if any) is fired. */
  lemma CronOnlyFiresFirstId(s: Store, now: int, nextRun: NextRun)
    requires DueAt(s, now) == {}
    ensures GetNextJob(s, now, nextRun) == GetNextCronJob(s, now, nextRun)
  {
    assert GetNextAtTimestamp(s, now).None?;
  }

  /** With both queues due, the lowest due timestamp `t` is compared with what
      `getCronTimestamp` makes of the first due cron score `c`: its leading
      digit when positive, 0 when negative, null (which only timestamp 0 is
      `<=` to) when zero. */
  lemma ChoiceWhenBothDue(s: Store, now: int, nextRun: NextRun)
    requires DueAt(s, now) != {} && DueCron(s, now) != {}
    ensures
      var t := Least(DueAt(s, now));
      var c := s.cronIndex[First(s.cronIndex, DueCron(s, now))];
      var atFirst := if c > 0 then t <= Php.LeadingDigit(c) else if c < 0 then t <= 0 else t == 0;
      GetNextJob(s, now, nextRun) ==
        if atFirst then GetNextJobAtTimestamp(s, t) else GetNextCronJob(s, now, nextRun)
  {
  }

  /** An indexed due timestamp whose list is gone, with no due cron id, makes
      every `getNextJob` call fail without changing the store. */
  lemma StaleTimestampFails(s: Store, now: int, nextRun: NextRun)
    requires DueAt(s, now) != {} && DueCron(s, now) == {}
    requires AtList(s, Least(DueAt(s, now))) == []
    ensures GetNextJob(s, now, nextRun) == Reply(s, Failed(EmptyAtList(Least(DueAt(s, now)))))
  {
    AtOnlyPopsLowestTimestamp(s, now, nextRun);
  }

  /** Cleaning up twice is cleaning up once; on an empty or missing list it is
      a no-op. */
  lemma CleanupIdempotent(s: Store, t: int)
    ensures CleanupTimestamp(CleanupTimestamp(s, t), t) == CleanupTimestamp(s, t)
    ensures AtList(s, t) == [] ==> CleanupTimestamp(s, t) == s
  {
  }
}
