/** The resumable batched backfill runner (database/backfill.py), for one worker at a time. */
module Backfill {
  import opened Wrappers

  datatype Batch = Batch(nextCursor: Option<int>, processed: int, done: bool)

  datatype BackfillRun = BackfillRun(batches: nat, processed: int, checkpoint: Option<int>, completed: bool)

  datatype BackfillError = BadBatchSize | BadMaxBatches | NegativeCount | NoProgress | BatchFailed

  function ValidateOptions(batchSize: int, maxBatches: Option<int>): Option<BackfillError> {
    if batchSize < 1 then Some(BadBatchSize)
    else if maxBatches.Some? && maxBatches.value < 1 then Some(BadMaxBatches)
    else None
  }

  function ValidateBatch(batch: Batch, checkpoint: Option<int>): Option<BackfillError> {
    if batch.processed < 0 then Some(NegativeCount)
    else if !batch.done && batch.processed == 0 && batch.nextCursor == checkpoint then Some(NoProgress)
    else None
  }

  predicate Increasing(rows: seq<int>) {
    forall i, j :: 0 <= i < j < |rows| ==> rows[i] < rows[j]
  }

  /** How many rows are not after the checkpoint. */
  function Passed(rows: seq<int>, checkpoint: Option<int>): (k: nat)
    ensures k <= |rows|
    ensures k == |rows| || checkpoint.None? || rows[k] > checkpoint.value
    ensures checkpoint.Some? ==> forall i :: 0 <= i < k ==> rows[i] <= checkpoint.value
    ensures checkpoint.None? ==> k == 0
  {
    if rows == [] || checkpoint.None? || rows[0] > checkpoint.value then 0
    else
      var k := Passed(rows[1..], checkpoint);
      assert forall i :: 0 < i < |rows| ==> rows[i] == rows[1..][i - 1];
      k + 1
  }

  /** The cursor of a job that has done the first `k` rows. */
  function CursorAt(rows: seq<int>, k: nat): Option<int>
    requires k <= |rows|
  {
    if k == 0 then None else Some(rows[k - 1])
  }

  lemma {:induction false} PassedAtCursor(rows: seq<int>, k: nat)
    requires Increasing(rows) && k <= |rows|
    ensures Passed(rows, CursorAt(rows, k)) == k
  {
    assert 0 < k < |rows| ==> rows[k - 1] < rows[k];
  }

  /** Rows done once `n` more batches are committed. */
  function Done(total: nat, k: nat, batchSize: nat, n: nat): (done: nat)
    requires k <= total
    ensures k <= done <= total
    decreases n
  {
    if n == 0 then k
    else
      var before := Done(total, k, batchSize, n - 1);
      if before + batchSize < total then before + batchSize else total
  }

  lemma {:induction false} OneBatch(total: nat, k: nat, batchSize: nat)
    requires k <= total
    ensures Done(total, k, batchSize, 1) == if k + batchSize < total then k + batchSize else total
  {
    assert Done(total, k, batchSize, 0) == k;
  }

  /** The committed work is exactly the rows up to the committed checkpoint, each once and in order. */
  predicate UpTo(rows: seq<int>, applied: seq<int>, checkpoint: Option<int>) {
    |applied| <= |rows| && applied == rows[..|applied|] && checkpoint == CursorAt(rows, |applied|)
  }

  lemma {:induction false} TakeMore(rows: seq<int>, applied: seq<int>, checkpoint: Option<int>, n: nat)
    requires UpTo(rows, applied, checkpoint) && |applied| + n <= |rows|
    ensures UpTo(rows, applied + rows[|applied|..|applied| + n], CursorAt(rows, |applied| + n))
  {
  }

  /** Runs compose: however the batches are split over runs, the rows done depend on their number alone. */
  lemma {:induction false} RunsCompose(total: nat, k: nat, batchSize: nat, m: nat, n: nat)
    requires k <= total
    ensures Done(total, Done(total, k, batchSize, m), batchSize, n) == Done(total, k, batchSize, m + n)
    decreases n
  {
    if n > 0 {
      RunsCompose(total, k, batchSize, m, n - 1);
      assert m + n - 1 == m + (n - 1);
    }
  }

  lemma {:induction false} DoneCounts(total: nat, k: nat, batchSize: nat, n: nat)
    requires k <= total && batchSize >= 1
    ensures Done(total, k, batchSize, n) == total || Done(total, k, batchSize, n) >= k + n
  {
    if n > 0 {
      DoneCounts(total, k, batchSize, n - 1);
    }
  }

  /** So as many batches as there are rows left finish the job, split over runs in any way. */
  lemma {:induction false} EnoughBatchesFinish(total: nat, k: nat, batchSize: nat, n: nat)
    requires k <= total && batchSize >= 1 && n >= total - k
    ensures Done(total, k, batchSize, n) == total
  {
    DoneCounts(total, k, batchSize, n);
  }

  /** How the processor decides that it is done, from the rows it took and the rows it left. */
  type DonePolicy = (nat, nat) -> bool

  /** It never says so while rows are left; a batch that is not full leaves none. */
  ghost predicate Honest(policy: DonePolicy, batchSize: nat) {
    forall taken: nat, left: nat :: (taken == batchSize || left == 0) && policy(taken, left) ==> left == 0
  }

  /** Done on a short batch, done when nothing is left, done on finding nothing: all are honest. */
  lemma {:induction false} CommonPoliciesHonest(batchSize: nat)
    ensures Honest((taken: nat, left: nat) => taken < batchSize, batchSize)
    ensures Honest((taken: nat, left: nat) => left == 0, batchSize)
    ensures batchSize >= 1 ==> Honest((taken: nat, left: nat) => taken == 0, batchSize)
  {
  }

  /** The database: the rows to work on, the rows worked on in commit order, and the saved checkpoint. */
  class BackfillJob {
    const rows: seq<int>
    const policy: DonePolicy
    var applied: seq<int>
    var checkpoint: Option<int>

    predicate Consistent()
      reads this
    {
      UpTo(rows, applied, checkpoint)
    }

    constructor (rows: seq<int>, policy: DonePolicy)
      ensures Consistent() && this.rows == rows && this.policy == policy && applied == []
    {
      this.rows, this.policy, applied, checkpoint := rows, policy, [], None;
    }

    /** Takes the next rows after the cursor, which is that of the first `k` rows, and reports them. */
    method ProcessBatch(cursor: Option<int>, batchSize: nat, ghost k: nat) returns (taken: seq<int>, batch: Batch)
      requires batchSize >= 1 && Increasing(rows) && k <= |rows| && cursor == CursorAt(rows, k)
      ensures var n := if k + batchSize < |rows| then batchSize else |rows| - k;
        && taken == rows[k..k + n] && k + n == Done(|rows|, k, batchSize, 1)
        && batch == Batch(CursorAt(rows, k + n), n, policy(n, |rows| - k - n))
    {
      PassedAtCursor(rows, k);
      OneBatch(|rows|, k, batchSize);
      var from := Passed(rows, cursor);
      var n := if from + batchSize < |rows| then batchSize else |rows| - from;
      taken := rows[from..from + n];
      batch := Batch(if n == 0 then cursor else Some(rows[from + n - 1]), n, policy(n, |rows| - from - n));
    }

    /** One transaction. A failure in it, or a batch that does not validate, leaves the database as it was. */
    method RunBatch(batchSize: nat, fails: bool) returns (r: Result<Batch, BackfillError>)
      requires Consistent() && Increasing(rows) && batchSize >= 1
      modifies this
      ensures Consistent() && old(applied) <= applied
      ensures r.Failure? ==> applied == old(applied) && checkpoint == old(checkpoint)
      ensures r == Failure(BatchFailed) <==> fails
      ensures r.Success? ==>
        && |applied| == Done(|rows|, |old(applied)|, batchSize, 1)
        && r.value == Batch(
             checkpoint, |applied| - |old(applied)|, policy(|applied| - |old(applied)|, |rows| - |applied|))
        && (r.value.done || |applied| > |old(applied)|)
      ensures r.Failure? && !fails ==>
        r.error == NoProgress && |applied| == |rows| && !policy(0, 0)
    {
      ghost var k := |applied|;
      var loaded := checkpoint;
      var taken, batch := ProcessBatch(loaded, batchSize, k);
      var invalid := ValidateBatch(batch, loaded);
      if fails {
        return Failure(BatchFailed);
      }
      if invalid.Some? {
        return Failure(invalid.value);
      }
      TakeMore(rows, applied, checkpoint, |taken|);
      applied := applied + taken;
      checkpoint := batch.nextCursor;
      return Success(batch);
    }

    /**
     * `run_batched_backfill_sync`; the batch numbered `failAt`, if any, fails. `n` is the number of batches
     * committed, whether or not the run returns.
     */
    method Run(batchSize: int, maxBatches: Option<int>, failAt: Option<nat>)
      returns (r: Result<BackfillRun, BackfillError>, n: nat)
      requires Consistent() && Increasing(rows)
      modifies this
      ensures Consistent() && old(applied) <= applied
      ensures ValidateOptions(batchSize, maxBatches).Some? ==>
        r == Failure(ValidateOptions(batchSize, maxBatches).value) && n == 0 && applied == old(applied)
      ensures batchSize >= 1 ==> |applied| == Done(|rows|, |old(applied)|, batchSize, n)
      ensures maxBatches.Some? ==> n <= if maxBatches.value < 0 then 0 else maxBatches.value
      ensures r.Success? ==>
        r.value == BackfillRun(n, |applied| - |old(applied)|, checkpoint, r.value.completed) && n >= 1
      ensures r.Success? && !r.value.completed ==> maxBatches == Some(n)
      ensures r.Success? && r.value.completed && Honest(policy, batchSize) ==> applied == rows
      ensures r == Failure(BatchFailed) ==> failAt == Some(n)
      ensures r == Failure(NoProgress) ==> applied == rows && !policy(0, 0)
      ensures r.Failure? && ValidateOptions(batchSize, maxBatches).None? ==>
        r.error == BatchFailed || r.error == NoProgress
    {
      n := 0;
      var invalid := ValidateOptions(batchSize, maxBatches);
      if invalid.Some? {
        return Failure(invalid.value), n;
      }
      var processed, cursor, completed := 0, None, false;
      while maxBatches.None? || n < maxBatches.value
        invariant Consistent() && old(applied) <= applied
        invariant maxBatches.Some? ==> n <= maxBatches.value
        invariant |applied| == Done(|rows|, |old(applied)|, batchSize, n)
        invariant processed == |applied| - |old(applied)| && !completed
        invariant n > 0 ==> cursor == checkpoint
        decreases |rows| - |applied|
      {
        var batch := RunBatch(batchSize, failAt == Some(n));
        if batch.Failure? {
          return Failure(batch.error), n;
        }
        RunsCompose(|rows|, |old(applied)|, batchSize, n, 1);
        n := n + 1;
        processed := processed + batch.value.processed;
        cursor := batch.value.nextCursor;
        if batch.value.done {
          completed := true;
          break;
        }
      }
      return Success(BackfillRun(n, processed, cursor, completed)), n;
    }
  }

  /** A run that neither fails nor is capped does every row that was left, under any honest policy. */
  method Finish(job: BackfillJob, batchSize: int) returns (run: BackfillRun)
    requires job.Consistent() && Increasing(job.rows)
    requires batchSize >= 1 && Honest(job.policy, batchSize) && job.policy(0, 0)
    modifies job
    ensures job.Consistent() && job.applied == job.rows
    ensures run.completed && run.processed == |job.rows| - |old(job.applied)|
  {
    var r, n := job.Run(batchSize, None, None);
    run := r.value;
  }
}
