/**
  One pending synchronisation job and the per-attempt policy of the sync queue.

  A job names its target entity by class name and id, remembers when it was
  created, and counts the retryable failures seen so far. An attempt first
  picks a direction by comparing the entity's update time with its last sync
  time, then reacts to the transport's outcome: success stamps the entity and
  destroys the job, a failure is retried while the failure count is below the
  configured maximum, and a critical outcome destroys the job at once.
 */
module SyncJob {

  datatype Option<T> = None | Some(value: T)

  /** The results the push/pull transport may report. */
  datatype Outcome = Success | Failure | Critical

  /** Push local state (`:post_or_put`) or pull remote state (`:get`). */
  datatype Direction = PostOrPut | Get

  /** How a job finds its entity again: class name and id. */
  datatype EntityRef = EntityRef(className: string, id: string)

  /** The parts of a syncable document the queue reads or writes; an absent sync time is `None`. */
  datatype Entity = Entity(className: string, id: string, updatedAt: nat, syncedAt: Option<nat>)

  /** A persisted queue record. `id` is the record's own document id. */
  datatype Job = Job(id: string, syncClass: string, syncId: string, createdAt: nat, failureCount: nat)

  /** The write requested on success: the new sync time, saved with callbacks skipped. */
  datatype SyncedWrite = SyncedWrite(syncedAt: nat, skipCallbacks: bool)

  /** What becomes of the job record after an attempt. */
  datatype Fate = Destroyed | Retained(job: Job)

  /** Everything an attempt changes: the job record and, possibly, the entity. */
  datatype Effect = Effect(fate: Fate, write: Option<SyncedWrite>)

  function RefOf(e: Entity): EntityRef
  {
    EntityRef(e.className, e.id)
  }

  function Target(j: Job): EntityRef
  {
    EntityRef(j.syncClass, j.syncId)
  }

  /** The last sync time, or the epoch when the entity was never synced. */
  function SyncedOrEpoch(e: Entity): nat
  {
    match e.syncedAt
    case Some(t) => t
    case None => 0
  }

  /** Push when the entity changed after its last sync (or was never synced and has a positive update time), else pull. */
  function ChooseDirection(e: Entity): (d: Direction)
    ensures e.syncedAt.None? ==> (d == PostOrPut <==> e.updatedAt > 0)
    ensures e.syncedAt.Some? ==> (d == PostOrPut <==> e.updatedAt > e.syncedAt.value)
    ensures e.syncedAt == Some(e.updatedAt) ==> d == Get
  {
    if e.updatedAt > SyncedOrEpoch(e) then PostOrPut else Get
  }

  /** The entity after the success write: only its sync time changes. */
  function Stamp(e: Entity, w: SyncedWrite): (r: Entity)
    ensures r.syncedAt == Some(w.syncedAt)
    ensures r.className == e.className && r.id == e.id && r.updatedAt == e.updatedAt
  {
    e.(syncedAt := Some(w.syncedAt))
  }

  /** Retries a job may still take: what is left below the maximum failure count. */
  function Budget(j: Job, max: nat): nat
  {
    if j.failureCount < max then max - j.failureCount else 0
  }

  /** The most attempts a job can still receive: this one plus its remaining retries. */
  function JobWeight(j: Job, max: nat): nat
  {
    1 + Budget(j, max)
  }

  /**
    `attempt(instance, method)` with the transport's `outcome` and the clock
    reading `now`. Only a failure below the maximum keeps the job, with its
    failure count one higher and every other field untouched; only success
    writes the entity, and that write skips callbacks.
   */
  function Attempt(job: Job, outcome: Outcome, max: nat, now: nat): (r: Effect)
    ensures r.fate.Retained? <==> outcome == Failure && job.failureCount < max
    ensures r.fate.Retained? ==> r.fate.job == job.(failureCount := job.failureCount + 1)
    ensures r.fate.Retained? ==> r.fate.job.failureCount <= max
    ensures r.fate.Retained? ==> JobWeight(r.fate.job, max) == JobWeight(job, max) - 1
    ensures r.write.Some? <==> outcome == Success
    ensures r.write.Some? ==> r.write.value.syncedAt == now && r.write.value.skipCallbacks
  {
    match outcome
    case Success => Effect(Destroyed, Some(SyncedWrite(now, true)))
    case Failure =>
      if job.failureCount < max then
        Effect(Retained(job.(failureCount := job.failureCount + 1)), None)
      else
        Effect(Destroyed, None)
    case Critical => Effect(Destroyed, None)
  }

  /** After a success stamped no earlier than the last local change, the next attempt pulls. */
  lemma StampedEntityPulls(e: Entity, w: SyncedWrite)
    requires w.syncedAt >= e.updatedAt
    ensures ChooseDirection(Stamp(e, w)) == Get
  {
  }
}
