/**
  Properties of whole drain runs of the sync queue: oldest-first order, no
  job left unattempted, the exact retry bound, immediate removal when no
  retry is asked for, and what a successful attempt leaves behind.
 */
module SyncProperties {
  import opened SyncJob
  import opened SyncQueue

  /** A transport that reports a retryable failure on every call. */
  ghost predicate AlwaysFails(env: Env)
  {
    forall d, e, k :: env.transport(d, e, k) == Failure
  }

  /** A transport that never asks for a retry: every call succeeds or is critical. */
  ghost predicate NeverRetries(env: Env)
  {
    forall d, e, k :: env.transport(d, e, k) != Failure
  }

  /** After an attempt every remaining job was already at or after any bound the old jobs met. */
  lemma StepKeepsLowerBound(s: Store, env: Env, max: nat, n: nat, lower: nat)
    requires |s.jobs| > 0 && Resolvable(s)
    requires forall k :: 0 <= k < |s.jobs| ==> s.jobs[k].createdAt >= lower
    ensures var r := Step(s, env, max, n).store;
            forall k :: 0 <= k < |r.jobs| ==> r.jobs[k].createdAt >= lower
  {
  }

  /** A job the attempt did not select is still in the store, unchanged. */
  lemma StepKeepsOtherJob(s: Store, env: Env, max: nat, n: nat, k: nat) returns (k': nat)
    requires |s.jobs| > 0 && Resolvable(s)
    requires k < |s.jobs| && k != OldestIndex(s.jobs)
    ensures var r := Step(s, env, max, n).store;
            k' < |r.jobs| && r.jobs[k'] == s.jobs[k]
  {
    var st := Step(s, env, max, n);
    var i := OldestIndex(s.jobs);
    k' := if st.record.effect.fate.Destroyed? && k > i then k - 1 else k;
  }

  /** A drain pass never attempts a job created before every job it started with. */
  lemma {:induction false} DrainKeepsLowerBound(s: Store, env: Env, max: nat, n: nat, lower: nat)
    requires Resolvable(s)
    requires forall k :: 0 <= k < |s.jobs| ==> s.jobs[k].createdAt >= lower
    ensures var log := DrainJobs(s, env, max, n).log;
            forall t :: 0 <= t < |log| ==> log[t].job.createdAt >= lower
    decreases Weight(s.jobs, max)
  {
    if s.jobs != [] {
      var st := Step(s, env, max, n);
      DrainUnfold(s, env, max, n);
      StepKeepsLowerBound(s, env, max, n, lower);
      DrainKeepsLowerBound(st.store, env, max, n + 1, lower);
      assert st.record.job == s.jobs[OldestIndex(s.jobs)];
    }
  }

  /** The records of `log` are in non-decreasing order of their jobs' creation times. */
  ghost predicate OldestFirst(log: seq<AttemptRecord>)
  {
    forall t, u :: 0 <= t < u < |log| ==> log[t].job.createdAt <= log[u].job.createdAt
  }

  /** Putting a record no later than every record of an ordered log in front keeps it ordered. */
  lemma OldestFirstCons(rec: AttemptRecord, rest: seq<AttemptRecord>)
    requires OldestFirst(rest)
    requires forall t :: 0 <= t < |rest| ==> rest[t].job.createdAt >= rec.job.createdAt
    ensures OldestFirst([rec] + rest)
  {
    var log := [rec] + rest;
    forall t, u | 0 <= t < u < |log|
      ensures log[t].job.createdAt <= log[u].job.createdAt
    {
      assert log[u] == rest[u - 1];
      if t > 0 {
        assert log[t] == rest[t - 1];
      }
    }
  }

  /** Oldest first: a drain pass attempts jobs in non-decreasing order of creation time. */
  lemma {:induction false} DrainIsOldestFirst(s: Store, env: Env, max: nat, n: nat)
    requires Resolvable(s)
    ensures OldestFirst(DrainJobs(s, env, max, n).log)
    decreases Weight(s.jobs, max)
  {
    if s.jobs != [] {
      var st := Step(s, env, max, n);
      DrainUnfold(s, env, max, n);
      var first := st.record.job.createdAt;
      StepKeepsLowerBound(s, env, max, n, first);
      DrainKeepsLowerBound(st.store, env, max, n + 1, first);
      DrainIsOldestFirst(st.store, env, max, n + 1);
      OldestFirstCons(st.record, DrainJobs(st.store, env, max, n + 1).log);
    }
  }

  /** Some record of `log` is an attempt of exactly the job record `job`. */
  ghost predicate Attempted(log: seq<AttemptRecord>, job: Job)
  {
    exists t :: 0 <= t < |log| && log[t].job == job
  }

  /** An attempt seen later in a run is still seen once an earlier record is put in front. */
  lemma AttemptedAfter(rec: AttemptRecord, rest: seq<AttemptRecord>, job: Job)
    requires Attempted(rest, job)
    ensures Attempted([rec] + rest, job)
  {
    var t :| 0 <= t < |rest| && rest[t].job == job;
    assert ([rec] + rest)[t + 1] == rest[t];
  }

  /** No job is lost: every job record present when a drain pass starts is attempted, as it was, at least once. */
  lemma {:induction false} DrainAttemptsEveryJob(s: Store, env: Env, max: nat, n: nat)
    requires Resolvable(s)
    ensures forall k :: 0 <= k < |s.jobs| ==> Attempted(DrainJobs(s, env, max, n).log, s.jobs[k])
    decreases Weight(s.jobs, max)
  {
    if s.jobs != [] {
      var st := Step(s, env, max, n);
      DrainUnfold(s, env, max, n);
      DrainAttemptsEveryJob(st.store, env, max, n + 1);
      var rest := DrainJobs(st.store, env, max, n + 1).log;
      var log := [st.record] + rest;
      var i := OldestIndex(s.jobs);
      forall k | 0 <= k < |s.jobs|
        ensures Attempted(log, s.jobs[k])
      {
        if k == i {
          assert log[0].job == s.jobs[k];
        } else {
          var k' := StepKeepsOtherJob(s, env, max, n, k);
          assert Attempted(rest, st.store.jobs[k']);
          AttemptedAfter(st.record, rest, s.jobs[k]);
        }
      }
    }
  }

  /** Every attempted job respects the failure budget when the pass starts within it. */
  lemma {:induction false} DrainRespectsBudget(s: Store, env: Env, max: nat, n: nat)
    requires Resolvable(s) && WithinBudget(s.jobs, max)
    ensures var log := DrainJobs(s, env, max, n).log;
            forall t :: 0 <= t < |log| ==> log[t].job.failureCount <= max
    decreases Weight(s.jobs, max)
  {
    if s.jobs != [] {
      var st := Step(s, env, max, n);
      DrainUnfold(s, env, max, n);
      StepKeepsInvariants(s, env, max, n);
      DrainRespectsBudget(st.store, env, max, n + 1);
      assert st.record.job == s.jobs[OldestIndex(s.jobs)];
      var log := DrainJobs(s, env, max, n).log;
      var rest := DrainJobs(st.store, env, max, n + 1).log;
      forall t | 0 <= t < |log|
        ensures log[t].job.failureCount <= max
      {
        if t > 0 {
          assert log[t] == rest[t - 1];
        }
      }
    }
  }

  /** Against a transport that always fails, a pass makes exactly `Weight` attempts: the measure is exact. */
  lemma {:induction false} AlwaysFailingUsesWholeBudget(s: Store, env: Env, max: nat, n: nat)
    requires Resolvable(s) && AlwaysFails(env)
    ensures |DrainJobs(s, env, max, n).log| == Weight(s.jobs, max)
    decreases Weight(s.jobs, max)
  {
    if s.jobs != [] {
      var st := Step(s, env, max, n);
      StepKeepsInvariants(s, env, max, n);
      AlwaysFailingUsesWholeBudget(st.store, env, max, n + 1);
      assert st.record.outcome == Failure;
      if st.record.effect.fate.Destroyed? {
        assert Budget(st.record.job, max) == 0;
      }
    }
  }

  /** Every push or pull of document `e`, whatever the direction and attempt number, reports a retryable failure. */
  ghost predicate DocumentAlwaysFails(env: Env, e: Entity)
  {
    forall d, k :: env.transport(d, e, k) == Failure
  }

  /** The document of the job an attempt on `s` selects always fails. */
  ghost predicate SelectedDocumentAlwaysFails(s: Store, env: Env)
    requires |s.jobs| > 0 && Resolvable(s)
  {
    DocumentAlwaysFails(env, s.entities[Target(s.jobs[OldestIndex(s.jobs)])])
  }

  /**
    One attempt on a job whose document always fails: it records a failure of
    that job; below the maximum the job is retried and selected again next,
    with one more failure and its document untouched; at the maximum it is
    destroyed.
   */
  lemma FailingStep(s: Store, env: Env, max: nat, n: nat)
    requires |s.jobs| > 0 && Resolvable(s) && SelectedDocumentAlwaysFails(s, env)
    ensures var j := s.jobs[OldestIndex(s.jobs)];
            var st := Step(s, env, max, n);
            && st.record.job == j
            && st.record.outcome == Failure
            && (st.record.effect.fate.Destroyed? <==> j.failureCount >= max)
            && (j.failureCount < max ==>
                  && |st.store.jobs| > 0
                  && Resolvable(st.store)
                  && st.store.jobs[OldestIndex(st.store.jobs)] == j.(failureCount := j.failureCount + 1)
                  && SelectedDocumentAlwaysFails(st.store, env))
  {
    var j := s.jobs[OldestIndex(s.jobs)];
    var st := Step(s, env, max, n);
    assert st.record.outcome == Failure;
    if j.failureCount < max {
      RetriedJobSelectedNext(s, env, max, n);
      assert Target(j.(failureCount := j.failureCount + 1)) == Target(j);
      assert st.store.entities == s.entities;
    }
  }

  /**
    The run `log` starts with the attempts of job `j` that retry it up to the
    maximum: attempt t is a failure of `j` with `t` more failures, every one
    of them but the last keeps the job, and the last destroys it.
   */
  ghost predicate RetriedUntilDestroyed(log: seq<AttemptRecord>, j: Job, max: nat)
  {
    && j.failureCount <= max
    && |log| > max - j.failureCount
    && (forall t :: 0 <= t <= max - j.failureCount ==> log[t].outcome == Failure)
    && (forall t :: 0 <= t <= max - j.failureCount ==> log[t].job == j.(failureCount := j.failureCount + t))
    && (forall t :: 0 <= t <= max - j.failureCount ==>
          (log[t].effect.fate.Destroyed? <==> t == max - j.failureCount))
  }

  /** A failed attempt of `j` put in front of the retry run of its successor gives the retry run of `j`. */
  lemma RetriedUntilDestroyedCons(rec: AttemptRecord, rest: seq<AttemptRecord>, j: Job, max: nat)
    requires j.failureCount <= max
    requires rec.job == j && rec.outcome == Failure
    requires rec.effect.fate.Destroyed? <==> j.failureCount >= max
    requires j.failureCount < max ==> RetriedUntilDestroyed(rest, j.(failureCount := j.failureCount + 1), max)
    ensures RetriedUntilDestroyed([rec] + rest, j, max)
  {
    var log := [rec] + rest;
    assert j.(failureCount := j.failureCount + 0) == j;
    if j.failureCount < max {
      var j' := j.(failureCount := j.failureCount + 1);
      forall t | 0 < t <= max - j.failureCount
        ensures log[t] == rest[t - 1]
        ensures j'.(failureCount := j'.failureCount + (t - 1)) == j.(failureCount := j.failureCount + t)
      {
      }
    }
  }

  /**
    Bounded retry, in any store: when the job selected first has `c <= max`
    failures and every push or pull of its document fails, the first
    `max - c + 1` attempts are all of that job, attempt t seeing `c + t`
    failures; every one of them but the last keeps the job, and the last
    destroys it. Other documents' outcomes play no part.
   */
  lemma {:induction false} FailingJobRetryCounts(s: Store, env: Env, max: nat, n: nat)
    requires |s.jobs| > 0 && Resolvable(s) && SelectedDocumentAlwaysFails(s, env)
    requires s.jobs[OldestIndex(s.jobs)].failureCount <= max
    ensures RetriedUntilDestroyed(DrainJobs(s, env, max, n).log, s.jobs[OldestIndex(s.jobs)], max)
    decreases max - s.jobs[OldestIndex(s.jobs)].failureCount
  {
    var j := s.jobs[OldestIndex(s.jobs)];
    var st := Step(s, env, max, n);
    DrainUnfold(s, env, max, n);
    FailingStep(s, env, max, n);
    if j.failureCount < max {
      FailingJobRetryCounts(st.store, env, max, n + 1);
    }
    RetriedUntilDestroyedCons(st.record, DrainJobs(st.store, env, max, n + 1).log, j, max);
  }

  /**
    A job created by enqueue (zero failures), selected first in any store,
    whose document always fails, is attempted exactly `max + 1` times in a row,
    with failure counts 0 to `max`, and the last of these attempts destroys it.
   */
  lemma FreshFailingJobAttemptedMaxPlusOne(s: Store, env: Env, max: nat, n: nat)
    requires |s.jobs| > 0 && Resolvable(s) && SelectedDocumentAlwaysFails(s, env)
    requires s.jobs[OldestIndex(s.jobs)].failureCount == 0
    ensures var j := s.jobs[OldestIndex(s.jobs)];
            var log := DrainJobs(s, env, max, n).log;
            && |log| >= max + 1
            && (forall t :: 0 <= t <= max ==> log[t].job == j.(failureCount := t))
            && (forall t :: 0 <= t < max ==> log[t].effect.fate.Retained?)
            && log[max].effect.fate.Destroyed?
  {
    var j := s.jobs[OldestIndex(s.jobs)];
    var log := DrainJobs(s, env, max, n).log;
    FailingJobRetryCounts(s, env, max, n);
    assert RetriedUntilDestroyed(log, j, max);
    forall t | 0 <= t <= max
      ensures log[t].job == j.(failureCount := t)
      ensures t < max ==> log[t].effect.fate.Retained?
    {
      assert log[t].job == j.(failureCount := j.failureCount + t);
    }
  }

  /** The job records of a log, in attempt order. */
  function AttemptedJobs(log: seq<AttemptRecord>): (r: seq<Job>)
    ensures |r| == |log|
    ensures forall t :: 0 <= t < |log| ==> r[t] == log[t].job
  {
    if log == [] then [] else [log[0].job] + AttemptedJobs(log[1..])
  }

  /** Removing the job at `i` takes exactly one copy of it out of the multiset of jobs. */
  lemma RemoveAtMultiset(jobs: seq<Job>, i: nat)
    requires i < |jobs|
    ensures multiset(RemoveAt(jobs, i)) + multiset{jobs[i]} == multiset(jobs)
  {
    assert jobs == jobs[..i] + [jobs[i]] + jobs[i + 1..];
  }

  /** The attempted records of a run are its first record's job followed by those of the rest. */
  lemma AttemptedJobsCons(rec: AttemptRecord, rest: seq<AttemptRecord>)
    ensures AttemptedJobs([rec] + rest) == [rec.job] + AttemptedJobs(rest)
  {
    assert ([rec] + rest)[1..] == rest;
  }

  /**
    When the transport never reports a retryable failure, every job is
    attempted exactly once: the attempted records are a permutation of the
    jobs the pass started with.
   */
  lemma {:induction false} NoRetryMeansOneAttemptEach(s: Store, env: Env, max: nat, n: nat)
    requires Resolvable(s) && NeverRetries(env)
    ensures |DrainJobs(s, env, max, n).log| == |s.jobs|
    ensures multiset(AttemptedJobs(DrainJobs(s, env, max, n).log)) == multiset(s.jobs)
    decreases Weight(s.jobs, max)
  {
    if s.jobs != [] {
      var st := Step(s, env, max, n);
      DrainUnfold(s, env, max, n);
      var i := OldestIndex(s.jobs);
      assert st.record.outcome != Failure;
      assert st.store.jobs == RemoveAt(s.jobs, i);
      NoRetryMeansOneAttemptEach(st.store, env, max, n + 1);
      var rest := DrainJobs(st.store, env, max, n + 1).log;
      AttemptedJobsCons(st.record, rest);
      RemoveAtMultiset(s.jobs, i);
    }
  }

  /** A critical outcome removes the job on that attempt, whatever its failure count. */
  lemma CriticalRemovesAtOnce(s: Store, env: Env, max: nat, n: nat)
    requires |s.jobs| > 0 && Resolvable(s)
    requires Step(s, env, max, n).record.outcome == Critical
    ensures var st := Step(s, env, max, n);
            && st.record.effect.fate.Destroyed?
            && st.record.effect.write.None?
            && |st.store.jobs| == |s.jobs| - 1
            && st.store.jobs == RemoveAt(s.jobs, OldestIndex(s.jobs))
            && st.store.entities == s.entities
  {
  }

  /**
    A retried job keeps its creation time and its place in the store, so the
    very next attempt selects it again, now with one more failure.
   */
  lemma RetriedJobSelectedNext(s: Store, env: Env, max: nat, n: nat)
    requires |s.jobs| > 0 && Resolvable(s)
    requires Step(s, env, max, n).record.effect.fate.Retained?
    ensures var st := Step(s, env, max, n);
            && |st.store.jobs| > 0
            && Resolvable(st.store)
            && Step(st.store, env, max, n + 1).record.job
               == st.record.job.(failureCount := st.record.job.failureCount + 1)
  {
    var st := Step(s, env, max, n);
    StepKeepsInvariants(s, env, max, n);
    var i := OldestIndex(s.jobs);
    var jobs' := st.store.jobs;
    assert jobs' == s.jobs[i := st.record.effect.fate.job];
    var i' := OldestIndex(jobs');
    assert jobs'[i].createdAt == s.jobs[i].createdAt;
  }

  /**
    A successful attempt removes exactly its job, adds none (its write skips
    the save callbacks that would enqueue again), and stamps the entity with
    the clock reading; stamped no earlier than its last change, the entity is
    pulled rather than pushed by any later attempt.
   */
  lemma SuccessStampsAndRemoves(s: Store, env: Env, max: nat, n: nat)
    requires |s.jobs| > 0 && Resolvable(s)
    requires Step(s, env, max, n).record.outcome == Success
    ensures var st := Step(s, env, max, n);
            var ref := Target(st.record.job);
            && |st.store.jobs| == |s.jobs| - 1
            && st.store.jobs == RemoveAt(s.jobs, OldestIndex(s.jobs))
            && st.record.effect.write == Some(SyncedWrite(env.clock(n), true))
            && ref in st.store.entities
            && st.store.entities[ref].syncedAt == Some(env.clock(n))
            && st.store.entities[ref].updatedAt == s.entities[ref].updatedAt
            && (env.clock(n) >= s.entities[ref].updatedAt ==> ChooseDirection(st.store.entities[ref]) == Get)
  {
  }

  /**
    `Queue << instance` followed by the drain task it submits: from a
    non-negative counter the new job record itself is attempted, and the run ends with no
    job and a zero counter.
   */
  lemma EnqueuedJobIsAttempted(s: Store, instance: Entity, jobId: string, now: nat, env: Env, max: nat)
    requires Resolvable(s) && RefOf(instance) in s.entities && s.notifyCount >= 0
    ensures var r := EnqueueAndRun(s, instance, jobId, now, env, max);
            && r.store.jobs == []
            && r.store.notifyCount == 0
            && Attempted(r.log, Job(jobId, instance.className, instance.id, now, 0))
  {
    var s' := Enqueue(s, instance, jobId, now);
    assert Resolvable(s');
    DrainAttemptsEveryJob(s', env, max, 0);
    assert s'.jobs[|s.jobs|] == Job(jobId, instance.className, instance.id, now, 0);
  }
}
