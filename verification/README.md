# Sync outbox and save callbacks of the yapper document store, in Dafny

This project models two pieces of the yapper (Nanoid) document layer for
RubyMotion.

**The sync queue** (`Nanoid::Sync::Queue`) is a persisted outbox of pending
synchronisation jobs.
- `Queue << instance` stores a job with the document's class name, its id, the
  creation time and a failure count of zero. It then raises a notify counter
  and submits a drain task.
- The drain task loops while the counter is positive. Each pass attempts the
  job with the earliest `created_at` until no job is left, then lowers the
  counter by one.
- An attempt pushes (`:post_or_put`) when the document changed after its last
  sync, and pulls (`:get`) otherwise.
- The outcome decides what happens next. `:success` stamps `_synced_at`
  (with callbacks skipped) and destroys the job. `:failure` retries while the
  failure count is below `max_failure_count`, then destroys the job.
  `:critical` destroys the job at once.

**The callback registry** (`Nanoid::Document::Callbacks`) gives every document
class two ordered lists of hook names, one run before and one run after a save.
- Registration only appends.
- `run_callbacks` calls the before hooks, then the body, then the after hooks.
- The guard in front of the body tests the value of `Array#each`. That value
  is the array itself, which is truthy even when empty, so the body always runs.

Files:
- `callbacks.dfy` (module `Callbacks`): the registry as a value, and a save as
  a trace of events.
- `sync_job.dfy` (module `SyncJob`): job and document records, the direction
  rule, and the attempt policy as a pure function of (failure count, outcome).
- `sync_queue.dfy` (module `SyncQueue`): the store, enqueue, oldest-first
  selection, one attempt, the inner drain loop, one outer pass and the drain
  task.
- `sync_properties.dfy` (module `SyncProperties`): properties of whole drain
  runs.

Modelling choices:
- A run is sequential. Timestamps are natural numbers.
- An absent `_synced_at` reads as 0, the epoch.
- The push/pull transport is a parameter: a total function from (direction,
  document, attempt number) to `Success | Failure | Critical`.
- The clock is a parameter too: a function from the attempt number to a time.
- Documents are found in a map keyed by (class name, id).
- A failure that arrives when the failure count already equals the maximum
  destroys the job (lib/nanoid/sync/queue.rb:67-71), so the queue never
  produces a count above the maximum.

The drain terminates. Its measure, `Weight`, is the number of jobs plus the
sum of their remaining retry budgets. Every attempt lowers it. When the
transport always fails, every attempt lowers it by exactly one.

## Model

| member | source | states |
|---|---|---|
| Callbacks.Included | lib/nanoid/document/callbacks.rb:6-13 | a class that includes the mixin starts with empty before and after lists, so a save is just the body |
| Callbacks.BeforeSave | lib/nanoid/document/callbacks.rb:16-18 | the new name goes at the end of the before list; earlier entries and the after list are unchanged |
| Callbacks.AfterSave | lib/nanoid/document/callbacks.rb:20-22 | the new name goes at the end of the after list; earlier entries and the before list are unchanged |
| Callbacks.Calls | lib/nanoid/document/callbacks.rb:26-28 | iterating a hook list sends every name once, in list order: call i is the i-th registered name |
| Callbacks.RunCallback | lib/nanoid/document/callbacks.rb:25-29 | one call per registered hook, in registration order, and the returned value is truthy whatever the list holds, even when it is empty |
| Callbacks.RunCallbacks | lib/nanoid/document/callbacks.rb:31-37 | the trace is all before hooks in order, then the body, then all after hooks in order; its length is before + after + 1; it returns the after array |
| Callbacks.CallsCountRegistrations | lib/nanoid/document/callbacks.rb:25-29 | duplicates are honoured: a name registered k times is called exactly k times |
| Callbacks.BodyRunsExactlyOnce | lib/nanoid/document/callbacks.rb:31-37 | the guard is no veto: for every registry, including an empty before list, the body occurs exactly once in the trace |
| Callbacks.HooksCalledOncePerRegistration | lib/nanoid/document/callbacks.rb:16-37 | in a save, every hook name is called as many times as it was registered before plus after |
| Callbacks.BeforeSaveInsertsAheadOfBody | lib/nanoid/document/callbacks.rb:16-37 | registering a before hook inserts exactly its call just ahead of the body; every other event keeps its order |
| Callbacks.AfterSaveAppendsToTrace | lib/nanoid/document/callbacks.rb:20-37 | registering an after hook appends exactly its call to the end of the trace |
| SyncJob.ChooseDirection | lib/nanoid/sync/queue.rb:44-48 | push iff updated_at is later than the last sync; a document never synced is pushed iff its updated_at is positive; equal times pull |
| SyncJob.Stamp | lib/nanoid/sync/queue.rb:64 | the success write sets only the sync time; class, id and updated_at stay |
| SyncJob.Attempt | lib/nanoid/sync/queue.rb:61-76 | the job is kept iff the outcome is a failure below the maximum; a kept job has one more failure, no more than the maximum, and every other field unchanged; only success writes the document, and that write skips callbacks |
| SyncJob.StampedEntityPulls | lib/nanoid/sync/queue.rb:44-64 | a document stamped on success no earlier than its last change is pulled, not pushed, by a later attempt |
| SyncQueue.Enqueue | lib/nanoid/sync/queue.rb:19-38 | exactly one new job with the instance's class name and id, the given time and zero failures is added after the existing jobs, which stay unchanged; the notify counter goes up by exactly one; documents are untouched |
| SyncQueue.EnqueueKeepsBudget | lib/nanoid/sync/queue.rb:22-25 | enqueueing keeps every failure count within the maximum and raises the drain measure by exactly max + 1 |
| SyncQueue.OldestIndex | lib/nanoid/sync/queue.rb:42 | selects a job with minimal created_at, the first stored among equals |
| SyncQueue.RemoveAt | lib/nanoid/sync/queue.rb:65 | a destroyed job leaves; the jobs before it keep their place and the jobs after it move up by one |
| SyncQueue.Step | lib/nanoid/sync/queue.rb:42-48 | one attempt works on the oldest job. The direction comes from its document and the outcome from the transport. The job is removed or replaced by its retried form, and the document is stamped only on success. The counter does not change |
| SyncQueue.StepKeepsInvariants | lib/nanoid/sync/queue.rb:61-76 | every attempt keeps jobs resolvable and failure counts within the maximum, and strictly lowers the measure: by the job's weight when destroyed, by one when retried |
| SyncQueue.DrainJobs | lib/nanoid/sync/queue.rb:42-49 | the inner loop terminates with no job left, after at most as many attempts as jobs plus remaining budgets; the counter is untouched |
| SyncQueue.DrainPass | lib/nanoid/sync/queue.rb:41-53 | one outer iteration empties the queue and lowers the counter by exactly one |
| SyncQueue.RunTask | lib/nanoid/sync/queue.rb:40-55 | from a counter of zero or below nothing happens; from a positive counter it ends with no job and a zero counter, and all attempts happen in the first pass |
| SyncQueue.EnqueueAndRun | lib/nanoid/sync/queue.rb:19-57 | enqueueing and then running the submitted task, from a non-negative counter, ends with no job and a zero counter after at least one attempt |
| SyncProperties.StepKeepsOtherJob | lib/nanoid/sync/queue.rb:42-72 | a job the attempt did not select stays in the store unchanged |
| SyncProperties.DrainKeepsLowerBound | lib/nanoid/sync/queue.rb:42-49 | a pass never attempts a job created before every job it started with |
| SyncProperties.DrainIsOldestFirst | lib/nanoid/sync/queue.rb:42-49 | within a pass, jobs are attempted in non-decreasing order of created_at |
| SyncProperties.DrainAttemptsEveryJob | lib/nanoid/sync/queue.rb:41-49 | no job is lost: every job record present when a pass starts is attempted at least once, exactly as it was stored |
| SyncProperties.DrainRespectsBudget | lib/nanoid/sync/queue.rb:66-72 | starting within the budget, no attempted job has more failures than the maximum |
| SyncProperties.AlwaysFailingUsesWholeBudget | lib/nanoid/sync/queue.rb:66-72 | against a transport that always fails, a pass makes exactly as many attempts as the measure says |
| SyncProperties.FailingJobRetryCounts | lib/nanoid/sync/queue.rb:66-72 | in any store, when every push or pull of the selected job's document fails (other documents may succeed) and that job has c <= max failures, the first max - c + 1 attempts are all of that job, attempt t seeing c + t failures; all but the last keep it and the last destroys it |
| SyncProperties.FreshFailingJobAttemptedMaxPlusOne | lib/nanoid/sync/queue.rb:22-72 | in any store, a job with zero failures selected first, whose document always fails (whatever other documents do), is attempted exactly max + 1 times in a row, with counts 0 to max, and the last of these attempts destroys it |
| SyncProperties.NoRetryMeansOneAttemptEach | lib/nanoid/sync/queue.rb:62-75 | when the transport never reports a retryable failure, the attempted job records are a permutation of the jobs the pass started with: every job is attempted exactly once |
| SyncProperties.CriticalRemovesAtOnce | lib/nanoid/sync/queue.rb:73-74 | a critical outcome destroys the job on that attempt, whatever its failure count: the store loses exactly that job, the others keep their order, and no document is written |
| SyncProperties.RetriedJobSelectedNext | lib/nanoid/sync/queue.rb:42-69 | a retried job keeps created_at and its place, so the next attempt selects it again with one more failure |
| SyncProperties.SuccessStampsAndRemoves | lib/nanoid/sync/queue.rb:63-65 | success removes exactly its job and adds none: the other jobs keep their order. It stamps the document with the clock reading and requests skip_callbacks. If the stamp is no earlier than the last change, the next direction for that document is a pull |
| SyncProperties.EnqueuedJobIsAttempted | lib/nanoid/sync/queue.rb:19-57 | after `<<` and the drain task it submits, from a non-negative counter, the new job record (the instance's class name and id, the enqueue time, zero failures) has been attempted, and no job and no outstanding notification remain |

## Left out

- Concurrency is not modelled: the concurrent GCD dispatch queue, the `Mutex` around the counter, and several drain tasks running at once (lib/nanoid/sync/queue.rb:32-38, 57). A run is sequential: `<<` stores the job, and the drain task it submits runs afterwards to completion. So the property that no wakeup is lost while drain tasks race is not stated. Nor is the possible double processing of one job by two tasks.
- `Time.now` and `Time.now.utc` are not modelled. The creation time is a parameter of `Enqueue`, and the sync time comes from the clock in `Env`.
- The network `push`/`pull` calls are not modelled. They are a transport function returning one of the three outcomes. The Ruby `case` has no `else`: another return value would leave the job untouched, and the inner loop would select it again forever. The model admits only the three outcomes.
- Dynamic class lookup (`Object.qualified_const_get(...).find`) is not modelled. Documents are found in a map. The code does not handle a missing document: `nil.updated_at` raises. So the drain functions require every job's target to be present (`Resolvable`).
- The `_include` load-order plumbing and its `@@inclued` typo (lib/nanoid/sync/queue.rb:5-17) are class setup, not queue behaviour, and are not modelled.
- How `skip_callbacks` suppresses the after-save hook is not modelled, because the document code that implements it is not part of this model. The model records that the success write asks for it.
- Other effects of `update_attributes`, such as a refreshed `updated_at`, are not modelled: that code is not part of this model either.
- The job's own document id (a generated nanoid) is not modelled; it is a parameter of `Enqueue`.
- `max_failure_count` is configured elsewhere; it is a parameter.
- Ties on `created_at` are broken by taking the first stored job. The store's actual order among equal keys is not part of this model.
- Hook return values are not modelled, because `Array#each` discards them. Exceptions raised by hooks are not modelled either; they propagate through Ruby, not through code in these files.
- `run_callbacks` is modelled only for the `save` operation. Only `before_save_callbacks` and `after_save_callbacks` exist; any other operation name raises `NoMethodError`.
- The persistence and query layer (YapDatabase, criteria, field types, change tracking) and the RubyMotion build setup are not modelled.
