/** The database-backed job queue (app/platform/jobs.py, app/models/job.py).

    Every operation is one commit on the table of job rows. Times are whole seconds. */
module JobQueue {
  import opened Wrappers

  datatype Status = Pending | Running | Done | Failed

  datatype Job = Job(name: string, status: Status, runAt: int, attempts: nat, maxAttempts: int,
                     lastError: Option<string>, lockedAt: Option<int>, finishedAt: Option<int>)

  type Table = map<nat, Job>

  datatype Outcome = Success | Error(message: string)

  /** The two refusals: enqueueing a name nothing handles, and retrying a job that has not
      failed. */
  datatype Refusal = UnknownJob | NotFailed

  const ZOMBIE_TIMEOUT := 15 * 60

  function Pow4(n: nat): (p: nat)
    ensures p >= 1
  {
    if n == 0 then 1 else 4 * Pow4(n - 1)
  }

  function Backoff(attempts: nat): nat {
    30 * Pow4(if attempts >= 1 then attempts - 1 else 0)
  }

  // ------------------------------------------------------------------ one row

  function NewJob(name: string, runAt: int, maxAttempts: int): Job {
    Job(name, Pending, runAt, 0, maxAttempts, None, None, None)
  }

  function Claimed(job: Job, now: int): Job {
    job.(status := Running, lockedAt := Some(now), attempts := job.attempts + 1)
  }

  function Finished(job: Job, outcome: Outcome, now: int): Job {
    match outcome
    case Success => job.(status := Done, finishedAt := Some(now), lockedAt := None)
    case Error(message) =>
      if job.attempts >= job.maxAttempts
      then job.(lastError := Some(message), status := Failed, finishedAt := Some(now), lockedAt := None)
      else job.(lastError := Some(message), status := Pending, runAt := now + Backoff(job.attempts), lockedAt := None)
  }

  function Retried(job: Job, now: int): Job {
    job.(status := Pending, attempts := 0, lastError := None, finishedAt := None, lockedAt := None, runAt := now)
  }

  predicate IsZombie(job: Job, now: int) {
    job.status.Running? && (job.lockedAt.None? || job.lockedAt.value < now - ZOMBIE_TIMEOUT)
  }

  function Recovered(job: Job, now: int): Job {
    if IsZombie(job, now) then job.(status := Pending, lockedAt := None) else job
  }

  predicate IsPurged(job: Job, cutoff: int) {
    (job.status.Done? || job.status.Failed?) && job.finishedAt.Some? && job.finishedAt.value < cutoff
  }

  // ------------------------------------------------------------------ the table

  predicate Due(rows: Table, id: nat, now: int) {
    id in rows && rows[id].status.Pending? && rows[id].runAt <= now
  }

  /** What the candidate select may answer: a due row that no due row is due before. On
      PostgreSQL it skips the rows another worker has locked; on SQLite none is. */
  ghost predicate Candidate(rows: Table, locked: set<nat>, id: nat, now: int) {
    Due(rows, id, now) && id !in locked
    && forall other :: Due(rows, other, now) && other !in locked ==> rows[id].runAt <= rows[other].runAt
  }

  /** The conditional update: it wins exactly when the row is still pending, whatever its
      `run_at` says by then. */
  function Claim(rows: Table, id: nat, now: int): (Table, bool) {
    if id in rows && rows[id].status.Pending? then (rows[id := Claimed(rows[id], now)], true) else (rows, false)
  }

  function Finish(rows: Table, id: nat, outcome: Outcome, now: int): Table {
    if id in rows then rows[id := Finished(rows[id], outcome, now)] else rows
  }

  function Retry(rows: Table, id: nat, now: int): Table {
    if id in rows && rows[id].status.Failed? then rows[id := Retried(rows[id], now)] else rows
  }

  function Recover(rows: Table, now: int): Table {
    map id | id in rows :: Recovered(rows[id], now)
  }

  function Purge(rows: Table, cutoff: int): Table {
    map id | id in rows && !IsPurged(rows[id], cutoff) :: rows[id]
  }

  ghost predicate Earliest(rows: Table, due: set<nat>, id: nat)
    requires due <= rows.Keys
  {
    id in due && forall other :: other in due ==> rows[id].runAt <= rows[other].runAt
  }

  lemma {:induction false} SomeEarliest(rows: Table, due: set<nat>)
    requires due != {} && due <= rows.Keys
    ensures exists id :: Earliest(rows, due, id)
    decreases due
  {
    var x :| x in due;
    if y :| y in due && y != x {
      assert y in due - {x};
      SomeEarliest(rows, due - {x});
      var z :| Earliest(rows, due - {x}, z);
      assert Earliest(rows, due, if rows[x].runAt <= rows[z].runAt then x else z);
    } else {
      assert Earliest(rows, due, x);
    }
  }

  class Queue {
    var rows: Table
    var nextId: nat

    ghost predicate Valid()
      reads this
    {
      forall id :: id in rows ==> id < nextId
    }

    constructor ()
      ensures Valid() && rows == map[] && nextId == 0
    {
      rows, nextId := map[], 0;
    }

    method Enqueue(name: string, handlers: set<string>, runAt: int, maxAttempts: int) returns (r: Result<nat, Refusal>)
      requires Valid()
      modifies this
      ensures Valid()
      ensures name !in handlers ==> r == Err(UnknownJob) && rows == old(rows) && nextId == old(nextId)
      ensures name in handlers ==> r == Ok(old(nextId)) && old(nextId) !in old(rows) && nextId == old(nextId) + 1
                                   && rows == old(rows)[old(nextId) := NewJob(name, runAt, maxAttempts)]
    {
      if name !in handlers {
        return Err(UnknownJob);
      }
      rows := rows[nextId := NewJob(name, runAt, maxAttempts)];
      r := Ok(nextId);
      nextId := nextId + 1;
    }

    method SelectCandidate(now: int, locked: set<nat>) returns (candidate: Option<nat>)
      ensures candidate.Some? ==> Candidate(rows, locked, candidate.value, now)
      ensures candidate.None? ==> forall id :: Due(rows, id, now) ==> id in locked
    {
      var due := set id | id in rows && Due(rows, id, now) && id !in locked;
      assert forall id :: Due(rows, id, now) && id !in locked ==> id in due;
      if due == {} {
        return None;
      }
      SomeEarliest(rows, due);
      var id :| id in due && forall other :: other in due ==> rows[id].runAt <= rows[other].runAt;
      return Some(id);
    }

    method ClaimUpdate(id: nat, now: int) returns (won: bool)
      modifies this`rows
      ensures (rows, won) == Claim(old(rows), id, now)
    {
      won := id in rows && rows[id].status.Pending?;
      if won {
        rows := rows[id := rows[id].(status := Running, lockedAt := Some(now), attempts := rows[id].attempts + 1)];
      }
    }

    /** The two steps with no other worker in between. */
    method ClaimNext(now: int, locked: set<nat>) returns (claimed: Option<nat>)
      modifies this`rows
      ensures claimed.None? ==> rows == old(rows) && forall id :: Due(rows, id, now) ==> id in locked
      ensures claimed.Some? ==> Candidate(old(rows), locked, claimed.value, now)
                                && rows == Claim(old(rows), claimed.value, now).0
    {
      claimed := SelectCandidate(now, locked);
      if claimed.Some? {
        var won := ClaimUpdate(claimed.value, now);
      }
    }

    method Execute(id: nat, outcome: Outcome, now: int)
      modifies this`rows
      ensures rows == Finish(old(rows), id, outcome, now)
    {
      if id !in rows {
        return;
      }
      var row := rows[id];
      match outcome {
        case Success =>
          row := row.(status := Done, finishedAt := Some(now));
        case Error(message) =>
          row := row.(lastError := Some(message));
          if row.attempts >= row.maxAttempts {
            row := row.(status := Failed, finishedAt := Some(now));
          } else {
            var backoff := 30 * Pow4(if row.attempts - 1 >= 0 then row.attempts - 1 else 0);
            row := row.(status := Pending, runAt := now + backoff);
          }
      }
      row := row.(lockedAt := None);
      rows := rows[id := row];
    }

    method RetryFailed(id: nat, now: int) returns (r: Result<(), Refusal>)
      requires id in rows
      modifies this`rows
      ensures rows == Retry(old(rows), id, now)
      ensures r == if old(rows)[id].status.Failed? then Ok(()) else Err(NotFailed)
      ensures r.Err? ==> rows == old(rows)
    {
      if !rows[id].status.Failed? {
        return Err(NotFailed);
      }
      rows := rows[id := rows[id].(status := Pending, attempts := 0, lastError := None, finishedAt := None,
                                   lockedAt := None, runAt := now)];
      return Ok(());
    }

    method RecoverZombies(now: int) returns (count: nat)
      modifies this`rows
      ensures rows == Recover(old(rows), now)
      ensures count == |set id | id in old(rows) && IsZombie(old(rows)[id], now)|
    {
      var zombies := set id | id in rows && IsZombie(rows[id], now);
      rows := map id | id in rows :: if id in zombies then rows[id].(status := Pending, lockedAt := None) else rows[id];
      count := |zombies|;
    }

    method PurgeFinished(cutoff: int)
      modifies this`rows
      ensures rows == Purge(old(rows), cutoff)
    {
      rows := map id | id in rows && !IsPurged(rows[id], cutoff) :: rows[id];
    }

    /** Every due job inline, at most `limit` of them; `turns` answers for the clock, the handler
        and the rows locked elsewhere at each turn. */
    method RunPendingJobs(limit: nat, turns: nat -> Turn) returns (count: nat)
      requires Valid()
      modifies this`rows
      ensures Valid() && count <= limit
      ensures count < limit ==> forall id :: Due(rows, id, turns(count).now) ==> id in turns(count).locked
      ensures exists ids: seq<nat> :: |ids| == count && Worked(old(rows), ids, turns, rows)
    {
      count := 0;
      ghost var ids: seq<nat> := [];
      while count < limit
        invariant count <= limit && Valid()
        invariant |ids| == count && Worked(old(rows), ids, turns, rows)
      {
        var turn := turns(count);
        ghost var before := rows;
        var id := ClaimNext(turn.now, turn.locked);
        if id.None? { break; }
        Execute(id.value, turn.outcome, turn.now);
        WorkedNext(old(rows), ids, id.value, turns, before, rows);
        ids := ids + [id.value];
        count := count + 1;
      }
    }
  }

  /** What one turn of the inline loop meets. */
  datatype Turn = Turn(now: int, outcome: Outcome, locked: set<nat>)

  /** `after` is the table once the ids have been worked through, each of them the candidate at
      its turn, claimed and its outcome recorded. */
  ghost predicate Worked(rows: Table, ids: seq<nat>, turns: nat -> Turn, after: Table)
    decreases |ids|
  {
    if ids == [] then after == rows
    else
      var n := |ids| - 1;
      var turn := turns(n);
      exists before :: Worked(rows, ids[..n], turns, before) && Candidate(before, turn.locked, ids[n], turn.now)
                       && after == Finish(Claim(before, ids[n], turn.now).0, ids[n], turn.outcome, turn.now)
  }

  lemma WorkedNext(rows: Table, ids: seq<nat>, id: nat, turns: nat -> Turn, before: Table, after: Table)
    requires Worked(rows, ids, turns, before) && Candidate(before, turns(|ids|).locked, id, turns(|ids|).now)
    requires var turn := turns(|ids|); after == Finish(Claim(before, id, turn.now).0, id, turn.outcome, turn.now)
    ensures Worked(rows, ids + [id], turns, after)
  {
    assert (ids + [id])[..|ids|] == ids;
  }

  // ------------------------------------------------------------------ what the inline loop does

  function Times(ids: seq<nat>, id: nat): nat {
    if ids == [] then 0 else Times(ids[..|ids| - 1], id) + if ids[|ids| - 1] == id then 1 else 0
  }

  /** The table the last turn of the loop found. */
  lemma LastTurn(rows: Table, ids: seq<nat>, turns: nat -> Turn, after: Table) returns (before: Table)
    requires Worked(rows, ids, turns, after) && ids != []
    ensures var n, turn := |ids| - 1, turns(|ids| - 1);
            && Worked(rows, ids[..n], turns, before) && Candidate(before, turn.locked, ids[n], turn.now)
            && after == Finish(Claim(before, ids[n], turn.now).0, ids[n], turn.outcome, turn.now)
  {
    var n, turn := |ids| - 1, turns(|ids| - 1);
    before :| Worked(rows, ids[..n], turns, before) && Candidate(before, turn.locked, ids[n], turn.now)
              && after == Finish(Claim(before, ids[n], turn.now).0, ids[n], turn.outcome, turn.now);
  }

  /** Every row's attempts rise by the number of times the loop worked it through, whatever came
      of that, and a row it did not come to is as it was. */
  lemma {:induction false} AttemptsAreTurns(rows: Table, ids: seq<nat>, turns: nat -> Turn, after: Table)
    requires Worked(rows, ids, turns, after)
    ensures after.Keys == rows.Keys
    ensures forall id :: id in rows ==> after[id].attempts == rows[id].attempts + Times(ids, id)
    ensures forall id :: id in rows && id !in ids ==> after[id] == rows[id]
    decreases |ids|
  {
    if ids != [] {
      var before := LastTurn(rows, ids, turns, after);
      AttemptsAreTurns(rows, ids[..|ids| - 1], turns, before);
    }
  }

  /** Every handler succeeds, the clock stands and nothing is locked elsewhere. */
  ghost predicate Smooth(turns: nat -> Turn, now: int) {
    forall k: nat :: turns(k) == Turn(now, Success, {})
  }

  /** The rows of `ids` are done at `now` and every other is as it was; each of them was due, came
      once, and no earlier than what it was booked for against all that came after or is still due. */
  ghost predicate DrainedInOrder(rows: Table, ids: seq<nat>, after: Table, now: int) {
    && after.Keys == rows.Keys
    && (forall k :: 0 <= k < |ids| ==> Due(rows, ids[k], now))
    && (forall j, k :: 0 <= j < k < |ids| ==> ids[j] != ids[k] && rows[ids[j]].runAt <= rows[ids[k]].runAt)
    && (forall id :: id in rows ==> if id in ids then IsDone(rows[id], after[id], now) else after[id] == rows[id])
    && (forall k, id :: 0 <= k < |ids| && Due(after, id, now) ==> rows[ids[k]].runAt <= after[id].runAt)
  }

  predicate IsDone(was: Job, job: Job, now: int) {
    job == was.(status := Done, attempts := was.attempts + 1, finishedAt := Some(now), lockedAt := None)
  }

  lemma DrainedNext(rows: Table, ids: seq<nat>, before: Table, id: nat, now: int)
    requires DrainedInOrder(rows, ids, before, now) && Candidate(before, {}, id, now)
    ensures DrainedInOrder(rows, ids + [id], Finish(Claim(before, id, now).0, id, Success, now), now)
  {
    var after := Finish(Claim(before, id, now).0, id, Success, now);
    assert after == before[id := after[id]] && IsDone(before[id], after[id], now);
    DrainedByOne(rows, ids, before, id, after, now);
  }

  lemma DrainedByOne(rows: Table, ids: seq<nat>, before: Table, id: nat, after: Table, now: int)
    requires DrainedInOrder(rows, ids, before, now) && Candidate(before, {}, id, now)
    requires id in after && after == before[id := after[id]] && IsDone(before[id], after[id], now)
    ensures DrainedInOrder(rows, ids + [id], after, now)
  {
    assert Due(before, id, now) && id !in ids && before[id] == rows[id];
    var all := ids + [id];
    assert forall other :: other in all <==> other in ids || other == id;
    forall j, k | 0 <= j < k < |all| ensures all[j] != all[k] && rows[all[j]].runAt <= rows[all[k]].runAt {
    }
    forall k, other | 0 <= k < |all| && Due(after, other, now) ensures rows[all[k]].runAt <= after[other].runAt {
      assert Due(before, other, now) && before[other] == after[other];
    }
  }

  /** The inline loop drains the queue in the order the jobs are booked for: whatever it worked
      through was due, once each, earliest first, and is done; and where it stopped because nothing
      was due any more, that is every due row. */
  lemma {:induction false} DrainsInOrder(rows: Table, ids: seq<nat>, turns: nat -> Turn, after: Table, now: int)
    requires Worked(rows, ids, turns, after) && Smooth(turns, now)
    ensures DrainedInOrder(rows, ids, after, now)
    ensures (forall id :: !Due(after, id, now)) ==> forall id :: Due(rows, id, now) ==> id in ids
    decreases |ids|
  {
    hide *;
    if ids == [] {
      DrainedNone(rows, turns, after, now);
    } else {
      var n := |ids| - 1;
      var before := LastTurn(rows, ids, turns, after);
      SmoothTurn(turns, now, n);
      DrainsInOrder(rows, ids[..n], turns, before, now);
      DrainedNext(rows, ids[..n], before, ids[n], now);
      assert ids[..n] + [ids[n]] == ids;
    }
    LeftIsDue(rows, ids, after, now);
  }

  lemma SmoothTurn(turns: nat -> Turn, now: int, k: nat)
    requires Smooth(turns, now)
    ensures turns(k) == Turn(now, Success, {})
  {
  }

  lemma DrainedNone(rows: Table, turns: nat -> Turn, after: Table, now: int)
    requires Worked(rows, [], turns, after)
    ensures DrainedInOrder(rows, [], after, now)
  {
  }

  lemma LeftIsDue(rows: Table, ids: seq<nat>, after: Table, now: int)
    requires DrainedInOrder(rows, ids, after, now)
    ensures forall id :: Due(rows, id, now) && id !in ids ==> Due(after, id, now)
  {
  }

  /** A job retried by hand is as one just enqueued. */
  lemma RetriedIsNew(job: Job, now: int)
    ensures Retried(job, now) == NewJob(job.name, now, job.maxAttempts)
  {
  }
}
