/** Value types shared by the Redis adapter, its corrected variant and the scheduler. */
module Jobs {

  datatype Option<+T> = None | Some(value: T)

  /** A job as the downstream queue receives it: handler class, queue name,
      arguments (each one as its JSON text) and an optional id. Its storage
      payload carries exactly these fields, so encoding and decoding are the
      identity here. */
  datatype Job = Job(handler: string, queue: string, args: seq<string>, id: Option<string>)

  /** One element of an at-list: the job payload plus the `s_time` field
      recording when it was enqueued. */
  datatype AtEntry = AtEntry(payload: Job, sTime: int)

  /** A cron job id: the 128-bit value of a version 4 UUID. The canonical
      lower-case text of such ids sorts byte by byte exactly as these numbers
      sort, so Redis' tie-break between equal scores is numeric order here. */
  type CronId = nat

  /** The record stored for a cron job: its expression and the job payload. */
  datatype CronRecord = CronRecord(cron: string, payload: Job)

  /** The exceptions the selector can raise. */
  datatype Error =
    | EmptyAtList(timestamp: int)     // an indexed timestamp whose list pops nothing
    | MissingCronRecord(id: CronId)   // an indexed cron id whose record is absent
    | InvalidCron(cron: string)       // the cron evaluator rejects the expression

  /** What one `getNextJob` call yields: a job, null, or an exception. */
  datatype Fetch = Got(job: Job) | Nothing | Failed(error: Error)

  /** A store after a `getNextJob` call, with what the call yielded. */
  datatype Reply<S> = Reply(store: S, fetch: Fetch)

  /** A store after an `enqueueCron` call, with the exception it raised, if any. */
  datatype Ack<S> = Ack(store: S, raised: Option<Error>)

  /** The cron evaluator: the next fire time of an expression after a reference
      time, or None when the expression is rejected. */
  type NextRun = (string, int) -> Option<int>
}
