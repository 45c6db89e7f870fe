/**
  The sync queue as a sequential state machine.

  The store holds the persisted job records in storage order, the documents
  the jobs point at, and the notify counter. Enqueueing persists a fresh job
  and bumps the counter. A drain task loops while the counter is positive:
  each pass attempts the job with the earliest creation time until no job is
  left, then lowers the counter by one.

  The transport and the clock are parameters (`Env`): the outcome of the n-th
  attempt of a run may depend on the direction, the entity and n.
 */
module SyncQueue {
  import opened SyncJob

  /** Persisted jobs (storage order), documents by class name and id, and the notify counter. */
  datatype Store = Store(jobs: seq<Job>, entities: map<EntityRef, Entity>, notifyCount: int)

  /** The push/pull transport and the clock, both indexed by the attempt's number in the run. */
  datatype Env = Env(transport: (Direction, Entity, nat) -> Outcome, clock: nat -> nat)

  /** What one attempt did: the job as selected, the direction, the outcome and the effect. */
  datatype AttemptRecord = AttemptRecord(job: Job, direction: Direction, outcome: Outcome, effect: Effect)

  /** One attempt: the store it leaves and its record. */
  datatype StepResult = StepResult(store: Store, record: AttemptRecord)

  /** A run of several attempts: the final store and the records in order. */
  datatype Run = Run(store: Store, log: seq<AttemptRecord>)

  /** Every job's target document can be found, as the drain loop assumes. */
  ghost predicate Resolvable(s: Store)
  {
    forall k :: 0 <= k < |s.jobs| ==> Target(s.jobs[k]) in s.entities
  }

  /** No job has more failures than the configured maximum. */
  ghost predicate WithinBudget(jobs: seq<Job>, max: nat)
  {
    forall k :: 0 <= k < |jobs| ==> jobs[k].failureCount <= max
  }

  /** Termination measure of a drain pass: the number of jobs plus their remaining retry budgets. */
  function Weight(jobs: seq<Job>, max: nat): nat
  {
    if jobs == [] then 0 else JobWeight(jobs[0], max) + Weight(jobs[1..], max)
  }

  lemma {:induction false} WeightAppend(a: seq<Job>, b: seq<Job>, max: nat)
    ensures Weight(a + b, max) == Weight(a, max) + Weight(b, max)
  {
    if a == [] {
      assert a + b == b;
    } else {
      WeightAppend(a[1..], b, max);
      assert (a + b)[1..] == a[1..] + b;
    }
  }

  /** The weight of a sequence splits around any position. */
  lemma WeightSplit(jobs: seq<Job>, i: nat, max: nat)
    requires i < |jobs|
    ensures Weight(jobs, max)
            == Weight(jobs[..i], max) + JobWeight(jobs[i], max) + Weight(jobs[i + 1..], max)
  {
    assert jobs == jobs[..i] + ([jobs[i]] + jobs[i + 1..]);
    WeightAppend(jobs[..i], [jobs[i]] + jobs[i + 1..], max);
    WeightAppend([jobs[i]], jobs[i + 1..], max);
    assert [jobs[i]][1..] == [];
  }

  /** Removing a job lowers the weight by exactly that job's weight. */
  lemma WeightRemove(jobs: seq<Job>, i: nat, max: nat)
    requires i < |jobs|
    ensures Weight(jobs[..i] + jobs[i + 1..], max) == Weight(jobs, max) - JobWeight(jobs[i], max)
  {
    WeightSplit(jobs, i, max);
    WeightAppend(jobs[..i], jobs[i + 1..], max);
  }

  /** Replacing a job changes the weight by exactly the difference of the two jobs' weights. */
  lemma WeightReplace(jobs: seq<Job>, i: nat, j: Job, max: nat)
    requires i < |jobs|
    ensures Weight(jobs[i := j], max) == Weight(jobs, max) - JobWeight(jobs[i], max) + JobWeight(j, max)
  {
    var jobs' := jobs[i := j];
    WeightSplit(jobs, i, max);
    WeightSplit(jobs', i, max);
    assert jobs'[..i] == jobs[..i];
    assert jobs'[i + 1..] == jobs[i + 1..];
  }

  /**
    `Queue << instance`, persistence part plus the counter bump of `notify`:
    one new job with failure count zero at the end of the store, the counter
    one higher, nothing else touched.
   */
  function Enqueue(s: Store, instance: Entity, jobId: string, now: nat): (r: Store)
    ensures |r.jobs| == |s.jobs| + 1 && r.jobs[..|s.jobs|] == s.jobs
    ensures var j := r.jobs[|s.jobs|];
            j.id == jobId && j.createdAt == now && j.failureCount == 0 && Target(j) == RefOf(instance)
    ensures r.notifyCount == s.notifyCount + 1
    ensures r.entities == s.entities
  {
    var job := Job(jobId, instance.className, instance.id, now, 0);
    Store(s.jobs + [job], s.entities, s.notifyCount + 1)
  }

  /** Enqueueing keeps every failure count within the maximum and adds one full budget to the measure. */
  lemma EnqueueKeepsBudget(s: Store, instance: Entity, jobId: string, now: nat, max: nat)
    requires WithinBudget(s.jobs, max)
    ensures WithinBudget(Enqueue(s, instance, jobId, now).jobs, max)
    ensures Weight(Enqueue(s, instance, jobId, now).jobs, max) == Weight(s.jobs, max) + max + 1
  {
    var r := Enqueue(s, instance, jobId, now);
    assert r.jobs == s.jobs + [r.jobs[|s.jobs|]];
    WeightAppend(s.jobs, [r.jobs[|s.jobs|]], max);
    assert [r.jobs[|s.jobs|]][1..] == [];
  }

  /** `asc(:created_at).first`: the first stored job among those created earliest. */
  function OldestIndex(jobs: seq<Job>): (i: nat)
    requires |jobs| > 0
    ensures i < |jobs|
    ensures forall k :: 0 <= k < |jobs| ==> jobs[i].createdAt <= jobs[k].createdAt
    ensures forall k :: 0 <= k < i ==> jobs[k].createdAt > jobs[i].createdAt
  {
    if |jobs| == 1 then 0
    else
      var i := OldestIndex(jobs[..|jobs| - 1]);
      if jobs[|jobs| - 1].createdAt < jobs[i].createdAt then |jobs| - 1 else i
  }

  /** The store's jobs with the one at index `i` removed. */
  function RemoveAt(jobs: seq<Job>, i: nat): (r: seq<Job>)
    requires i < |jobs|
    ensures |r| == |jobs| - 1
    ensures forall k :: 0 <= k < i ==> r[k] == jobs[k]
    ensures forall k :: i <= k < |r| ==> r[k] == jobs[k + 1]
  {
    jobs[..i] + jobs[i + 1..]
  }

  /** The store after an attempt on the job at index `i` had effect `eff` on entity `e`. */
  function Apply(s: Store, i: nat, e: Entity, eff: Effect): Store
    requires i < |s.jobs|
  {
    var jobs' := match eff.fate
      case Destroyed => RemoveAt(s.jobs, i)
      case Retained(j) => s.jobs[i := j];
    var entities' := match eff.write
      case None => s.entities
      case Some(w) => s.entities[Target(s.jobs[i]) := Stamp(e, w)];
    Store(jobs', entities', s.notifyCount)
  }

  /**
    One turn of the inner drain loop, as attempt number `n` of the run: select
    the oldest job, resolve its entity, choose the direction, ask the
    transport, and apply the attempt's effect to the store.
   */
  function Step(s: Store, env: Env, max: nat, n: nat): (r: StepResult)
    requires |s.jobs| > 0 && Resolvable(s)
    ensures var i := OldestIndex(s.jobs);
            && r.record.job == s.jobs[i]
            && (r.record.effect.fate.Destroyed? ==> r.store.jobs == RemoveAt(s.jobs, i))
            && (r.record.effect.fate.Retained? ==> r.store.jobs == s.jobs[i := r.record.effect.fate.job])
    ensures forall k :: 0 <= k < |s.jobs| ==> r.record.job.createdAt <= s.jobs[k].createdAt
    ensures var e := s.entities[Target(r.record.job)];
            && r.record.direction == ChooseDirection(e)
            && r.record.outcome == env.transport(r.record.direction, e, n)
            && r.record.effect == Attempt(r.record.job, r.record.outcome, max, env.clock(n))
            && (r.record.effect.write.Some? ==>
                  r.store.entities == s.entities[Target(r.record.job) := Stamp(e, r.record.effect.write.value)])
            && (r.record.effect.write.None? ==> r.store.entities == s.entities)
    ensures r.store.notifyCount == s.notifyCount
  {
    var i := OldestIndex(s.jobs);
    var job := s.jobs[i];
    var e := s.entities[Target(job)];
    var d := ChooseDirection(e);
    var outcome := env.transport(d, e, n);
    var eff := Attempt(job, outcome, max, env.clock(n));
    StepResult(Apply(s, i, e, eff), AttemptRecord(job, d, outcome, eff))
  }

  /**
    An attempt keeps every job resolvable, keeps the failure counts within the
    maximum, leaves the set of documents alone and strictly lowers `Weight`.
   */
  lemma StepKeepsInvariants(s: Store, env: Env, max: nat, n: nat)
    requires |s.jobs| > 0 && Resolvable(s)
    ensures var r := Step(s, env, max, n).store;
            && Resolvable(r)
            && r.entities.Keys == s.entities.Keys
            && Weight(r.jobs, max) < Weight(s.jobs, max)
            && (WithinBudget(s.jobs, max) ==> WithinBudget(r.jobs, max))
    ensures var st := Step(s, env, max, n);
            && (st.record.effect.fate.Destroyed? ==>
                  Weight(st.store.jobs, max) == Weight(s.jobs, max) - JobWeight(st.record.job, max))
            && (st.record.effect.fate.Retained? ==>
                  Weight(st.store.jobs, max) == Weight(s.jobs, max) - 1)
  {
    var st := Step(s, env, max, n);
    var i := OldestIndex(s.jobs);
    var eff := st.record.effect;
    match eff.fate
    case Destroyed =>
      WeightRemove(s.jobs, i, max);
    case Retained(j) =>
      WeightReplace(s.jobs, i, j, max);
  }

  /**
    The inner loop `while job = asc(:created_at).first`: attempt the oldest job
    until none is left. Each attempt lowers `Weight`, which also bounds the
    number of attempts.
   */
  function DrainJobs(s: Store, env: Env, max: nat, n: nat): (r: Run)
    requires Resolvable(s)
    ensures r.store.jobs == []
    ensures r.store.notifyCount == s.notifyCount
    ensures r.store.entities.Keys == s.entities.Keys
    ensures |r.log| <= Weight(s.jobs, max)
    ensures s.jobs != [] ==> |r.log| >= 1
    decreases Weight(s.jobs, max)
  {
    if s.jobs == [] then Run(s, [])
    else
      var st := Step(s, env, max, n);
      StepKeepsInvariants(s, env, max, n);
      var rest := DrainJobs(st.store, env, max, n + 1);
      Run(rest.store, [st.record] + rest.log)
  }

  /** A non-empty pass is its first attempt followed by the pass over the store that attempt leaves. */
  lemma DrainUnfold(s: Store, env: Env, max: nat, n: nat)
    requires |s.jobs| > 0 && Resolvable(s)
    ensures var st := Step(s, env, max, n);
            && Resolvable(st.store)
            && Weight(st.store.jobs, max) < Weight(s.jobs, max)
            && DrainJobs(s, env, max, n).log == [st.record] + DrainJobs(st.store, env, max, n + 1).log
  {
    StepKeepsInvariants(s, env, max, n);
  }

  /** One turn of the outer loop: drain every job, then lower the notify counter by one. */
  function DrainPass(s: Store, env: Env, max: nat, n: nat): (r: Run)
    requires Resolvable(s)
    ensures r.store.jobs == []
    ensures r.store.notifyCount == s.notifyCount - 1
    ensures r.store.entities.Keys == s.entities.Keys
    ensures |r.log| <= Weight(s.jobs, max)
  {
    var inner := DrainJobs(s, env, max, n);
    Run(inner.store.(notifyCount := inner.store.notifyCount - 1), inner.log)
  }

  /**
    The drain task `while @@notify_count > 0`. Started with a positive
    counter it ends with no job and a zero counter, and all the work happens in
    its first pass: the later passes only absorb the outstanding notifications.
   */
  function RunTask(s: Store, env: Env, max: nat, n: nat): (r: Run)
    requires Resolvable(s)
    ensures s.notifyCount <= 0 ==> r.store == s && r.log == []
    ensures s.notifyCount > 0 ==> r.store.jobs == [] && r.store.notifyCount == 0
    ensures s.notifyCount > 0 ==> r.log == DrainJobs(s, env, max, n).log
    ensures r.store.entities.Keys == s.entities.Keys
    decreases if s.notifyCount > 0 then s.notifyCount else 0
  {
    if s.notifyCount <= 0 then Run(s, [])
    else
      var pass := DrainPass(s, env, max, n);
      var rest := RunTask(pass.store, env, max, n + |pass.log|);
      Run(rest.store, pass.log + rest.log)
  }

  /**
    `Queue << instance` in a sequential run: enqueue, then let the drain task
    that `notify` submits run to completion. From a non-negative counter the
    queue ends empty with a zero counter.
   */
  function EnqueueAndRun(s: Store, instance: Entity, jobId: string, now: nat, env: Env, max: nat): (r: Run)
    requires Resolvable(s) && RefOf(instance) in s.entities
    ensures s.notifyCount >= 0 ==> r.store.jobs == [] && r.store.notifyCount == 0
    ensures s.notifyCount >= 0 ==> |r.log| >= 1
  {
    var s' := Enqueue(s, instance, jobId, now);
    assert Resolvable(s');
    RunTask(s', env, max, 0)
  }
}
