/** Any number of workers on one job table, interleaved commit by commit
    (app/platform/jobs.py).

    A worker selects a candidate in one step and updates it in another; the update is what
    claims. Any due row may be the candidate, which covers the earliest one SQLite answers and
    the earliest unlocked one PostgreSQL does. A worker may die between any two steps. Zombie
    recovery, manual retries and the purge of finished rows happen at any time. */
module Workers {
  import opened Wrappers
  import opened JobQueue

  datatype Phase = Idle | Chosen(id: nat, at: int) | Holding(id: nat)

  /** `orphans` are the rows whose holder died and that nothing has reset since; `runs` and
      `resets` count claims and zombie resets of a row since its enqueue or last retry. */
  datatype System = System(rows: Table, nextId: nat, workers: map<nat, Phase>, orphans: set<nat>,
                           runs: map<nat, nat>, resets: map<nat, nat>)

  datatype Step =
    | Enqueue(name: string, runAt: int, maxAttempts: int)
    | Select(w: nat, id: nat, now: int)
    | Update(w: nat)
    | Conclude(w: nat, outcome: Outcome, now: int)
    | RetryFailed(id: nat, now: int)
    | RecoverZombies(now: int)
    | PurgeFinished(cutoff: int)
    | Crash(w: nat)

  function Initial(workers: set<nat>): System {
    System(map[], 0, map w | w in workers :: Idle, {}, map[], map[])
  }

  function Count(m: map<nat, nat>, id: nat): nat {
    if id in m then m[id] else 0
  }

  function StillOrphans(s: System, now: int): set<nat> {
    set id | id in s.orphans && !(id in s.rows && IsZombie(s.rows[id], now))
  }

  function CountResets(s: System, now: int): map<nat, nat> {
    map id | id in s.rows :: Count(s.resets, id) + if IsZombie(s.rows[id], now) then 1 else 0
  }

  ghost predicate Enabled(s: System, step: Step) {
    match step
    case Enqueue(_, _, _) => true
    case Select(w, id, now) => w in s.workers && s.workers[w].Idle? && Due(s.rows, id, now)
    case Update(w) => w in s.workers && s.workers[w].Chosen?
    case Conclude(w, _, _) => w in s.workers && s.workers[w].Holding?
    case RetryFailed(id, _) => id in s.rows && s.rows[id].status.Failed?
    case RecoverZombies(_) => true
    case PurgeFinished(_) => true
    case Crash(w) => w in s.workers
  }

  ghost function Do(s: System, step: Step): System
    requires Enabled(s, step)
  {
    match step
    case Enqueue(name, runAt, maxAttempts) =>
      s.(rows := s.rows[s.nextId := NewJob(name, runAt, maxAttempts)], nextId := s.nextId + 1,
         runs := s.runs[s.nextId := 0], resets := s.resets[s.nextId := 0])
    case Select(w, id, now) =>
      s.(workers := s.workers[w := Chosen(id, now)])
    case Update(w) =>
      var id := s.workers[w].id;
      var (rows, won) := Claim(s.rows, id, s.workers[w].at);
      s.(rows := rows, workers := s.workers[w := if won then Holding(id) else Idle],
         runs := if won then s.runs[id := Count(s.runs, id) + 1] else s.runs)
    case Conclude(w, outcome, now) =>
      s.(rows := Finish(s.rows, s.workers[w].id, outcome, now), workers := s.workers[w := Idle])
    case RetryFailed(id, now) =>
      s.(rows := Retry(s.rows, id, now), runs := s.runs[id := 0], resets := s.resets[id := 0])
    case RecoverZombies(now) =>
      s.(rows := Recover(s.rows, now),
         orphans := StillOrphans(s, now),
         resets := CountResets(s, now))
    case PurgeFinished(cutoff) =>
      s.(rows := Purge(s.rows, cutoff))
    case Crash(w) =>
      s.(workers := s.workers[w := Idle],
         orphans := s.orphans + if s.workers[w].Holding? then {s.workers[w].id} else {})
  }

  ghost predicate Legal(s: System, steps: seq<Step>)
    decreases |steps|
  {
    steps == [] || (Enabled(s, steps[0]) && Legal(Do(s, steps[0]), steps[1..]))
  }

  ghost function After(s: System, steps: seq<Step>): System
    requires Legal(s, steps)
    decreases |steps|
  {
    if steps == [] then s else After(Do(s, steps[0]), steps[1..])
  }

  ghost predicate Holds(s: System, w: nat, id: nat) {
    w in s.workers && s.workers[w] == Holding(id)
  }

  /** No row whose worker is alive looks abandoned: no handler has run past the timeout. */
  ghost predicate Timely(s: System, now: int) {
    forall w, id :: Holds(s, w, id) && id in s.rows ==> !IsZombie(s.rows[id], now)
  }

  ghost predicate AlwaysTimely(s: System, steps: seq<Step>)
    requires Legal(s, steps)
    decreases |steps|
  {
    steps == [] ||
    ((steps[0].RecoverZombies? ==> Timely(s, steps[0].now)) && AlwaysTimely(Do(s, steps[0]), steps[1..]))
  }

  // ------------------------------------------------------------------ exclusive claim

  /** A row is running exactly while one worker holds it or a dead one left it, and no two
      workers hold one row. */
  ghost predicate Holders(s: System) {
    && (forall w, id :: Holds(s, w, id) ==> id in s.rows && s.rows[id].status.Running? && id !in s.orphans)
    && (forall w, v, id :: Holds(s, w, id) && Holds(s, v, id) ==> w == v)
    && (forall id :: id in s.orphans ==> id in s.rows && s.rows[id].status.Running?)
    && (forall id :: id in s.rows && s.rows[id].status.Running? ==> id in s.orphans || exists w :: Holds(s, w, id))
  }

  /** `locked_at` is set on running rows alone and `finished_at` on finished ones. */
  ghost predicate Stamped(s: System) {
    && (forall id :: id in s.rows ==> id < s.nextId)
    && (forall id :: id in s.rows ==> (s.rows[id].lockedAt.Some? <==> s.rows[id].status.Running?))
    && (forall id :: id in s.rows ==>
          (s.rows[id].finishedAt.Some? <==> s.rows[id].status.Done? || s.rows[id].status.Failed?))
  }

  ghost predicate Exclusive(s: System) {
    Holders(s) && Stamped(s)
  }

  lemma StepKeepsHolders(s: System, step: Step)
    requires Exclusive(s) && Enabled(s, step)
    requires step.RecoverZombies? ==> Timely(s, step.now)
    ensures Holders(Do(s, step))
  {
    var t := Do(s, step);
    if (step.Conclude? || step.Crash?) && s.workers[step.w].Holding? { assert Holds(s, step.w, s.workers[step.w].id); }
    forall w, id | Holds(t, w, id) ensures Holds(s, w, id) || (step.Update? && w == step.w && s.workers[w].id == id) {
    }
    forall id | id in t.rows && t.rows[id].status.Running? && id !in t.orphans ensures exists w :: Holds(t, w, id) {
      if step.Update? && s.workers[step.w].id == id && s.rows[id].status.Pending? {
        assert Holds(t, step.w, id);
      } else {
        var w :| Holds(s, w, id);
        assert Holds(t, w, id);
      }
    }
  }

  lemma StepKeepsStamps(s: System, step: Step)
    requires Exclusive(s) && Enabled(s, step)
    ensures Stamped(Do(s, step))
  {
    if step.Conclude? { assert Holds(s, step.w, s.workers[step.w].id); }
  }

  lemma StepKeepsExclusive(s: System, step: Step)
    requires Exclusive(s) && Enabled(s, step)
    requires step.RecoverZombies? ==> Timely(s, step.now)
    ensures Exclusive(Do(s, step))
  {
    StepKeepsHolders(s, step);
    StepKeepsStamps(s, step);
  }

  /** Over every interleaving of any number of workers, with crashes, retries and recoveries,
      claims are exclusive, as long as recovery never meets a handler that outlived the
      timeout. */
  lemma {:induction false} ClaimsAreExclusive(s: System, steps: seq<Step>)
    requires Exclusive(s) && Legal(s, steps) && AlwaysTimely(s, steps)
    ensures Exclusive(After(s, steps))
    decreases |steps|
  {
    if steps != [] {
      StepKeepsExclusive(s, steps[0]);
      ClaimsAreExclusive(Do(s, steps[0]), steps[1..]);
    }
  }

  lemma InitialIsExclusive(workers: set<nat>)
    ensures Exclusive(Initial(workers)) && Bounded(Initial(workers))
  {
  }

  lemma {:induction false} NoCrashNoOrphans(s: System, steps: seq<Step>)
    requires Legal(s, steps) && s.orphans == {} && forall i :: 0 <= i < |steps| ==> !steps[i].Crash?
    ensures After(s, steps).orphans == {}
    decreases |steps|
  {
    if steps != [] {
      assert Do(s, steps[0]).orphans == {};
      NoCrashNoOrphans(Do(s, steps[0]), steps[1..]);
    }
  }

  /** With no crash a row is running exactly while one worker holds it, and only one. */
  lemma RunningIsHeld(workers: set<nat>, steps: seq<Step>, id: nat)
    requires Legal(Initial(workers), steps) && AlwaysTimely(Initial(workers), steps)
    requires forall i :: 0 <= i < |steps| ==> !steps[i].Crash?
    ensures var s := After(Initial(workers), steps);
            && ((id in s.rows && s.rows[id].status.Running?) <==> exists w :: Holds(s, w, id))
            && forall w, v :: Holds(s, w, id) && Holds(s, v, id) ==> w == v
  {
    InitialIsExclusive(workers);
    ClaimsAreExclusive(Initial(workers), steps);
    NoCrashNoOrphans(Initial(workers), steps);
  }

  /** The timeout is what exclusion rests on: a recovery keeps it exactly when no live
      worker's row is past the timeout. */
  lemma RecoveryNeedsTimely(s: System, now: int)
    requires Exclusive(s)
    ensures Exclusive(Do(s, RecoverZombies(now))) <==> Timely(s, now)
  {
    var t := Do(s, RecoverZombies(now));
    if Timely(s, now) {
      StepKeepsExclusive(s, RecoverZombies(now));
    } else {
      var w, id :| Holds(s, w, id) && id in s.rows && IsZombie(s.rows[id], now);
      assert Holds(t, w, id) && t.rows[id].status.Pending?;
    }
  }

  /** Which rows a recovery takes back, by the clock: of the running ones exactly those claimed more
      than fifteen minutes before, and never one that is not running. */
  lemma RecoveredExactly(s: System, now: int, id: nat)
    requires Exclusive(s) && id in s.rows
    ensures var t := Do(s, RecoverZombies(now));
            && id in t.rows
            && (s.rows[id].status.Running? ==>
                  && s.rows[id].lockedAt.Some?
                  && (now - s.rows[id].lockedAt.value > 15 * 60 ==> t.rows[id].status.Pending? && id !in t.orphans)
                  && (now - s.rows[id].lockedAt.value <= 15 * 60 ==> t.rows[id] == s.rows[id]))
            && (!s.rows[id].status.Running? ==> t.rows[id] == s.rows[id])
  {
  }

  /** A row is stamped with the moment its candidate was chosen, and keeps that stamp and its holder
      through any run in which the holder neither ends nor dies. */
  lemma {:induction false} HeldSinceChosen(s: System, steps: seq<Step>, w: nat, id: nat, at: int)
    requires Exclusive(s) && Legal(s, steps) && AlwaysTimely(s, steps)
    requires Holds(s, w, id) && s.rows[id].lockedAt == Some(at)
    requires forall i :: 0 <= i < |steps| ==> !((steps[i].Conclude? || steps[i].Crash?) && steps[i].w == w)
    ensures var t := After(s, steps); Holds(t, w, id) && id in t.rows && t.rows[id].lockedAt == Some(at)
    decreases |steps|
  {
    if steps != [] {
      StepKeepsExclusive(s, steps[0]);
      StillHeld(s, steps[0], w, id);
      HeldSinceChosen(Do(s, steps[0]), steps[1..], w, id, at);
    }
  }

  lemma StillHeld(s: System, step: Step, w: nat, id: nat)
    requires Exclusive(s) && Enabled(s, step) && Holds(s, w, id) && (step.RecoverZombies? ==> Timely(s, step.now))
    requires !((step.Conclude? || step.Crash?) && step.w == w)
    ensures var t := Do(s, step); Holds(t, w, id) && id in t.rows && t.rows[id] == s.rows[id]
  {
    if step.Conclude? { assert Holds(s, step.w, s.workers[step.w].id); }
  }

  lemma ClaimStamps(s: System, w: nat, id: nat, at: int)
    requires w in s.workers && s.workers[w] == Chosen(id, at) && id in s.rows && s.rows[id].status.Pending?
    ensures var t := Do(s, Update(w)); Holds(t, w, id) && id in t.rows && t.rows[id].lockedAt == Some(at)
  {
  }

  /** What a worker that dies leaves behind stays running, claimed when it was, until a recovery more
      than fifteen minutes after the claim, which makes it pending again. */
  lemma {:induction false} OrphanWaits(s: System, steps: seq<Step>, id: nat, since: int)
    requires Exclusive(s) && Legal(s, steps) && AlwaysTimely(s, steps)
    requires id in s.orphans && s.rows[id].lockedAt == Some(since)
    requires forall i :: 0 <= i < |steps| && steps[i].RecoverZombies? ==> steps[i].now - since <= 15 * 60
    ensures var t := After(s, steps);
            && id in t.orphans && id in t.rows && t.rows[id] == s.rows[id] && t.rows[id].status.Running?
            && forall now :: now - since > 15 * 60 ==>
                 Do(t, RecoverZombies(now)).rows[id] == s.rows[id].(status := Pending, lockedAt := None)
    decreases |steps|
  {
    if steps != [] {
      StepKeepsExclusive(s, steps[0]);
      OrphanStays(s, steps[0], id, since);
      OrphanWaits(Do(s, steps[0]), steps[1..], id, since);
    }
  }

  lemma OrphanStays(s: System, step: Step, id: nat, since: int)
    requires Exclusive(s) && Enabled(s, step) && id in s.orphans && s.rows[id].lockedAt == Some(since)
    requires step.RecoverZombies? ==> step.now - since <= 15 * 60
    ensures var t := Do(s, step); id in t.orphans && id in t.rows && t.rows[id] == s.rows[id]
  {
    if step.Conclude? { assert Holds(s, step.w, s.workers[step.w].id); }
  }

  // ------------------------------------------------------------------ what is finished stays finished

  lemma StepKeepsFinished(s: System, step: Step, id: nat, row: Job)
    requires Exclusive(s) && Enabled(s, step) && id < s.nextId && (id in s.rows ==> s.rows[id] == row)
    requires row.status.Done? || (row.status.Failed? && !(step.RetryFailed? && step.id == id))
    ensures var t := Do(s, step); id < t.nextId && (id in t.rows ==> t.rows[id] == row)
  {
    if step.Conclude? { assert Holds(s, step.w, s.workers[step.w].id); }
  }

  /** A row that is done never changes again, and a failed one not before it is retried by hand. */
  lemma {:induction false} FinishedStays(s: System, steps: seq<Step>, id: nat, row: Job)
    requires Exclusive(s) && Legal(s, steps) && AlwaysTimely(s, steps)
    requires id < s.nextId && (id in s.rows ==> s.rows[id] == row) && (row.status.Done? || row.status.Failed?)
    requires row.status.Failed? ==> forall i :: 0 <= i < |steps| ==> !(steps[i].RetryFailed? && steps[i].id == id)
    ensures var t := After(s, steps); Exclusive(t) && id < t.nextId && (id in t.rows ==> t.rows[id] == row)
    decreases |steps|
  {
    if steps != [] {
      StepKeepsExclusive(s, steps[0]);
      StepKeepsFinished(s, steps[0], id, row);
      FinishedStays(Do(s, steps[0]), steps[1..], id, row);
    }
  }

  /** Work that succeeded is over for good: in every run after that the row is done until it is
      purged, no worker ever holds it again and nobody can retry it. */
  lemma SuccessIsForGood(s: System, w: nat, id: nat, now: int, steps: seq<Step>)
    requires Exclusive(s) && Holds(s, w, id)
    requires var t := Do(s, Conclude(w, Success, now)); Legal(t, steps) && AlwaysTimely(t, steps)
    ensures var u := After(Do(s, Conclude(w, Success, now)), steps);
            && (id in u.rows ==> u.rows[id].status.Done? && u.rows[id].finishedAt == Some(now)
                                 && u.rows[id].attempts == s.rows[id].attempts)
            && (forall v :: !Holds(u, v, id))
            && (forall later :: !Enabled(u, RetryFailed(id, later)))
  {
    var t := Do(s, Conclude(w, Success, now));
    StepKeepsExclusive(s, Conclude(w, Success, now));
    FinishedStays(t, steps, id, t.rows[id]);
  }

  /** A job given up stays failed, with what went wrong, until it is retried by hand or purged, and
      until then nobody holds it. */
  lemma GivenUpIsFinal(s: System, w: nat, id: nat, message: string, now: int, steps: seq<Step>)
    requires Exclusive(s) && Holds(s, w, id) && s.rows[id].attempts >= s.rows[id].maxAttempts
    requires var t := Do(s, Conclude(w, Error(message), now)); Legal(t, steps) && AlwaysTimely(t, steps)
    requires forall i :: 0 <= i < |steps| ==> !(steps[i].RetryFailed? && steps[i].id == id)
    ensures var u := After(Do(s, Conclude(w, Error(message), now)), steps);
            && (id in u.rows ==> u.rows[id].status.Failed? && u.rows[id].lastError == Some(message)
                                 && forall later :: Enabled(u, RetryFailed(id, later)))
            && (forall v :: !Holds(u, v, id))
  {
    var t := Do(s, Conclude(w, Error(message), now));
    StepKeepsExclusive(s, Conclude(w, Error(message), now));
    FinishedStays(t, steps, id, t.rows[id]);
  }

  /** No work is lost: a row leaves the table only in a purge, finished and finished before its
      cutoff, and then it does. */
  lemma LeavesOnlyFinished(s: System, step: Step, id: nat)
    requires Exclusive(s) && Enabled(s, step) && id in s.rows
    ensures id !in Do(s, step).rows <==>
            && step.PurgeFinished? && (s.rows[id].status.Done? || s.rows[id].status.Failed?)
            && s.rows[id].finishedAt.Some? && s.rows[id].finishedAt.value < step.cutoff
  {
  }

  /** Updates by these workers one after another, with nothing in between. */
  function Updates(ws: seq<nat>): (steps: seq<Step>)
    ensures |steps| == |ws| && forall i :: 0 <= i < |ws| ==> steps[i] == Update(ws[i])
  {
    seq(|ws|, i requires 0 <= i < |ws| => Update(ws[i]))
  }

  /** However many workers chose one row, whoever updates first has it and everybody else is
      sent away with nothing. */
  lemma OneWinner(s: System, ws: seq<nat>, id: nat)
    requires ws != [] && id in s.rows
    requires forall i, j :: 0 <= i < j < |ws| ==> ws[i] != ws[j]
    requires forall w :: w in ws ==> w in s.workers && s.workers[w].Chosen? && s.workers[w].id == id
    ensures Legal(s, Updates(ws))
    ensures var t := After(s, Updates(ws));
            && t.workers.Keys == s.workers.Keys
            && (forall w :: w in s.workers ==>
                 t.workers[w] == (if w !in ws then s.workers[w]
                                  else if w == ws[0] && s.rows[id].status.Pending? then Holding(id)
                                  else Idle))
            && (t.rows == if s.rows[id].status.Pending?
                          then s.rows[id := Claimed(s.rows[id], s.workers[ws[0]].at)]
                          else s.rows)
  {
    var t := Do(s, Update(ws[0]));
    OthersOf(ws);
    assert Updates(ws) == [Update(ws[0])] + Updates(ws[1..]);
    EverybodyLoses(t, ws[1..], id);
    Then(s, Update(ws[0]), Updates(ws[1..]));
  }

  lemma OthersOf(ws: seq<nat>)
    requires ws != [] && forall i, j :: 0 <= i < j < |ws| ==> ws[i] != ws[j]
    ensures ws[0] !in ws[1..] && forall w :: w in ws <==> w == ws[0] || w in ws[1..]
  {
    forall i | 0 <= i < |ws[1..]| ensures ws[1..][i] != ws[0] { assert ws[1..][i] == ws[i + 1]; }
  }

  /** Once the row is pending no more, whoever else chose it gets nothing. */
  lemma {:induction false} EverybodyLoses(s: System, ws: seq<nat>, id: nat)
    requires id in s.rows ==> !s.rows[id].status.Pending?
    requires forall i, j :: 0 <= i < j < |ws| ==> ws[i] != ws[j]
    requires forall w :: w in ws ==> w in s.workers && s.workers[w].Chosen? && s.workers[w].id == id
    ensures Legal(s, Updates(ws))
    ensures var t := After(s, Updates(ws));
            && t.workers.Keys == s.workers.Keys && t.rows == s.rows
            && forall w :: w in s.workers ==> t.workers[w] == if w in ws then Idle else s.workers[w]
    decreases |ws|
  {
    if ws == [] {
      assert Updates(ws) == [];
    } else {
      var t := Do(s, Update(ws[0]));
      OthersOf(ws);
      assert Updates(ws) == [Update(ws[0])] + Updates(ws[1..]);
      EverybodyLoses(t, ws[1..], id);
      Then(s, Update(ws[0]), Updates(ws[1..]));
    }
  }

  // ------------------------------------------------------------------ what does go wrong

  /** Past the timeout exclusion fails: a handler still at work after the timeout has its row
      reset and taken by a second worker. */
  lemma OutlivedTimeoutSharesARow() returns (steps: seq<Step>)
    ensures Legal(Initial({1, 2}), steps)
    ensures var s := After(Initial({1, 2}), steps); Holds(s, 1, 0) && Holds(s, 2, 0)
  {
    var late := ZOMBIE_TIMEOUT + 1;
    var s0 := Initial({1, 2});
    var s1 := Do(s0, Enqueue("newsletter.send_delivery", 0, 3));
    var s2 := Do(s1, Select(1, 0, 0));
    var s3 := Do(s2, Update(1));
    var s4 := Do(s3, RecoverZombies(late));
    var s5 := Do(s4, Select(2, 0, late));
    Then(s5, Update(2), []);
    Then(s4, Select(2, 0, late), [Update(2)]);
    Then(s3, RecoverZombies(late), [Select(2, 0, late), Update(2)]);
    Then(s2, Update(1), [RecoverZombies(late), Select(2, 0, late), Update(2)]);
    Then(s1, Select(1, 0, 0), [Update(1), RecoverZombies(late), Select(2, 0, late), Update(2)]);
    steps := [Select(1, 0, 0), Update(1), RecoverZombies(late), Select(2, 0, late), Update(2)];
    Then(s0, Enqueue("newsletter.send_delivery", 0, 3), steps);
    steps := [Enqueue("newsletter.send_delivery", 0, 3)] + steps;
  }

  lemma Then(s: System, step: Step, rest: seq<Step>)
    requires Enabled(s, step) && Legal(Do(s, step), rest)
    ensures Legal(s, [step] + rest) && After(s, [step] + rest) == After(Do(s, step), rest)
  {
    assert ([step] + rest)[1..] == rest;
  }

  /** The conditional update does not look at `run_at` again: a worker acting on a candidate
      another worker has meanwhile claimed and failed runs it before its backoff is over. */
  lemma StaleCandidateSkipsBackoff(s: System, w: nat, v: nat, id: nat, now: int, message: string)
    requires w in s.workers && v in s.workers && w != v
    requires s.workers[w] == Chosen(id, now) && s.workers[v] == Chosen(id, now)
    requires id in s.rows && s.rows[id].status.Pending? && s.rows[id].attempts + 1 < s.rows[id].maxAttempts
    ensures var steps := [Update(w), Conclude(w, Error(message), now), Update(v)];
            && Legal(s, steps)
            && Holds(After(s, steps), v, id)
            && id in After(s, steps).rows && After(s, steps).rows[id].runAt > now
  {
    var s1 := Do(s, Update(w));
    var s2 := Do(s1, Conclude(w, Error(message), now));
    Then(s2, Update(v), []);
    Then(s1, Conclude(w, Error(message), now), [Update(v)]);
    Then(s, Update(w), [Conclude(w, Error(message), now), Update(v)]);
    assert [Update(w)] + [Conclude(w, Error(message), now), Update(v)]
           == [Update(w), Conclude(w, Error(message), now), Update(v)];
  }

  /** A run in which it happens: both workers choose the one job at second 0, the first claims
      it and fails, and the second holds it at second 0 although it is booked for later. */
  lemma BackoffSkipped() returns (before: seq<Step>, steps: seq<Step>)
    ensures before == [Enqueue("newsletter.send_delivery", 0, 3), Select(1, 0, 0), Select(2, 0, 0)]
    ensures steps == before + [Update(1), Conclude(1, Error("refused"), 0), Update(2)]
    ensures Legal(Initial({1, 2}), steps)
    ensures var s := After(Initial({1, 2}), steps); Holds(s, 2, 0) && 0 in s.rows && s.rows[0].runAt > 0
  {
    var s0 := Initial({1, 2});
    var s1 := Do(s0, Enqueue("newsletter.send_delivery", 0, 3));
    var s2 := Do(s1, Select(1, 0, 0));
    var s3 := Do(s2, Select(2, 0, 0));
    var rest := [Update(1), Conclude(1, Error("refused"), 0), Update(2)];
    StaleCandidateSkipsBackoff(s3, 1, 2, 0, 0, "refused");
    Then(s2, Select(2, 0, 0), rest);
    Then(s1, Select(1, 0, 0), [Select(2, 0, 0)] + rest);
    Then(s0, Enqueue("newsletter.send_delivery", 0, 3), [Select(1, 0, 0)] + ([Select(2, 0, 0)] + rest));
    before := [Enqueue("newsletter.send_delivery", 0, 3), Select(1, 0, 0), Select(2, 0, 0)];
    steps := before + rest;
    assert steps == [Enqueue("newsletter.send_delivery", 0, 3)] + ([Select(1, 0, 0)] + ([Select(2, 0, 0)] + rest));
  }

  // ------------------------------------------------------------------ when a claim is on time

  /** The time a step books the row for: a failure that is retried, or a retry by hand. */
  function Booked(s: System, step: Step, id: nat): Option<int> {
    match step
    case Conclude(w, Error(_), now) =>
      if w in s.workers && s.workers[w] == Holding(id) && id in s.rows && s.rows[id].attempts < s.rows[id].maxAttempts
      then Some(now + Backoff(s.rows[id].attempts)) else None
    case RetryFailed(other, now) => if other == id then Some(now) else None
    case _ => None
  }

  /** What the last step of a run to book the row books it for. */
  ghost function LastBooked(s: System, steps: seq<Step>, id: nat): Option<int>
    requires Legal(s, steps)
    decreases |steps|
  {
    if steps == [] then None
    else
      var later := LastBooked(Do(s, steps[0]), steps[1..], id);
      if later.Some? then later else Booked(s, steps[0], id)
  }

  function Or(booked: Option<int>, runAt: int): int {
    if booked.Some? then booked.value else runAt
  }

  lemma StepBooks(s: System, step: Step, id: nat)
    requires Enabled(s, step) && id < s.nextId
    ensures id < Do(s, step).nextId
    ensures id in Do(s, step).rows ==>
              id in s.rows && Do(s, step).rows[id].runAt == Or(Booked(s, step, id), s.rows[id].runAt)
  {
  }

  /** Over any run a row's time is what was last booked, and nothing else moves it. */
  lemma {:induction false} RunAtIsLastBooked(s: System, steps: seq<Step>, id: nat)
    requires Legal(s, steps) && id < s.nextId
    ensures id in After(s, steps).rows ==>
              id in s.rows && After(s, steps).rows[id].runAt == Or(LastBooked(s, steps, id), s.rows[id].runAt)
    decreases |steps|
  {
    if steps != [] {
      StepBooks(s, steps[0], id);
      RunAtIsLastBooked(Do(s, steps[0]), steps[1..], id);
    }
  }

  /** What a step has the row say went wrong: a failure its message, a retry by hand nothing. */
  function Said(s: System, step: Step, id: nat): Option<Option<string>> {
    match step
    case Conclude(w, Error(message), _) =>
      if w in s.workers && s.workers[w] == Holding(id) then Some(Some(message)) else None
    case RetryFailed(other, _) => if other == id then Some(None) else None
    case _ => None
  }

  ghost function LastSaid(s: System, steps: seq<Step>, id: nat): Option<Option<string>>
    requires Legal(s, steps)
    decreases |steps|
  {
    if steps == [] then None
    else
      var later := LastSaid(Do(s, steps[0]), steps[1..], id);
      if later.Some? then later else Said(s, steps[0], id)
  }

  lemma StepSays(s: System, step: Step, id: nat)
    requires Enabled(s, step) && id < s.nextId && id in Do(s, step).rows
    ensures id in s.rows
    ensures Do(s, step).rows[id].lastError
         == if Said(s, step, id).Some? then Said(s, step, id).value else s.rows[id].lastError
  {
  }

  /** Over any run a row's error is the message of its last failure, retried or given up, until a
      retry by hand clears it. */
  lemma {:induction false} ErrorIsLastSaid(s: System, steps: seq<Step>, id: nat)
    requires Legal(s, steps) && id < s.nextId && id in After(s, steps).rows
    ensures id in s.rows
    ensures After(s, steps).rows[id].lastError
         == if LastSaid(s, steps, id).Some? then LastSaid(s, steps, id).value else s.rows[id].lastError
    decreases |steps|
  {
    if steps != [] {
      StepBooks(s, steps[0], id);
      ErrorIsLastSaid(Do(s, steps[0]), steps[1..], id);
      StepSays(s, steps[0], id);
    }
  }

  /** When a claim is on time. In any run from the start a worker chooses a row at `at`, any
      steps follow, and its update wins: the row it claims was due at `at` exactly when none of
      those steps booked it again, by a failure that is retried or by a retry by hand, or the
      last of them booked it for no later than `at`. */
  lemma OnTimeExactly(workers: set<nat>, before: seq<Step>, w: nat, id: nat, at: int, between: seq<Step>)
    requires Legal(Initial(workers), before)
    requires var s := After(Initial(workers), before);
             && Enabled(s, Select(w, id, at)) && Legal(Do(s, Select(w, id, at)), between)
             && var t := After(Do(s, Select(w, id, at)), between);
                && w in t.workers && t.workers[w] == Chosen(id, at)
                && id in t.rows && t.rows[id].status.Pending?
    ensures var s := Do(After(Initial(workers), before), Select(w, id, at));
            var t, booked := After(s, between), LastBooked(s, between, id);
            var claimed := Do(t, Update(w));
            && Holds(claimed, w, id) && claimed.rows[id].runAt == t.rows[id].runAt
            && (claimed.rows[id].runAt <= at <==> booked.None? || booked.value <= at)
            && (booked.Some? ==> claimed.rows[id].runAt == booked.value)
  {
    InitialIsExclusive(workers);
    RunsAreBounded(Initial(workers), before);
    RunAtIsLastBooked(Do(After(Initial(workers), before), Select(w, id, at)), between, id);
  }

  // ------------------------------------------------------------------ how often a job runs

  function Allowance(job: Job): int {
    if job.maxAttempts >= 1 then job.maxAttempts else 1
  }

  /** `attempts` counts the claims since the row's enqueue or last retry, and they are at most
      its allowance and one more for every zombie reset. */
  ghost predicate Bounded(s: System) {
    (forall id :: id in s.rows ==> id < s.nextId) && forall id :: id in s.rows ==> Within(s, id)
  }

  ghost predicate Within(s: System, id: nat)
    requires id in s.rows
  {
    && s.rows[id].attempts == Count(s.runs, id)
    && Count(s.runs, id) <= Allowance(s.rows[id]) + Count(s.resets, id)
    && (s.rows[id].status.Pending? ==> Count(s.runs, id) < Allowance(s.rows[id]) + Count(s.resets, id))
  }

  lemma StepKeepsWithin(s: System, step: Step, id: nat)
    requires Enabled(s, step) && id in Do(s, step).rows && (id in s.rows ==> Within(s, id) && id < s.nextId)
    ensures Within(Do(s, step), id) && id < Do(s, step).nextId
  {
  }

  lemma StepKeepsBounded(s: System, step: Step)
    requires Bounded(s) && Enabled(s, step)
    ensures Bounded(Do(s, step))
  {
    forall id | id in Do(s, step).rows ensures Within(Do(s, step), id) && id < Do(s, step).nextId {
      StepKeepsWithin(s, step, id);
    }
  }

  /** Whatever happens, handlers that outlive the timeout included, a job runs at most
      `max_attempts` times plus once for every time it was reset as a zombie. */
  lemma {:induction false} RunsAreBounded(s: System, steps: seq<Step>)
    requires Bounded(s) && Legal(s, steps)
    ensures Bounded(After(s, steps))
    decreases |steps|
  {
    if steps != [] {
      StepKeepsBounded(s, steps[0]);
      RunsAreBounded(Do(s, steps[0]), steps[1..]);
    }
  }

  /** One row claimed and failed until it is pending no more: how often it ran and how many
      seconds of backoff it was given. */
  function Exhaust(job: Job, now: int, message: string): (Job, nat, nat)
    requires job.status.Pending?
    decreases job.maxAttempts - job.attempts
  {
    var failed := Finished(Claimed(job, now), Error(message), now);
    if failed.status.Pending? then
      var (last, ran, waited) := Exhaust(failed, failed.runAt, message);
      (last, ran + 1, waited + (failed.runAt - now))
    else (failed, 1, 0)
  }

  /** A job that always fails runs exactly as often as it may and waits
      10 * (4^(max - 1) - 4^attempts) seconds in all before it is given up. */
  lemma {:induction false} AlwaysFailing(job: Job, now: int, message: string)
    requires job.status.Pending? && job.attempts < Allowance(job)
    ensures var (last, ran, waited) := Exhaust(job, now, message);
            && last.status.Failed? && last.lastError == Some(message) && last.finishedAt.Some? && last.lockedAt.None?
            && job.attempts + ran == Allowance(job) == last.attempts
            && waited == 10 * (Pow4(Allowance(job) - 1) - Pow4(job.attempts))
    decreases job.maxAttempts - job.attempts
  {
    var failed := Finished(Claimed(job, now), Error(message), now);
    if failed.status.Pending? {
      AlwaysFailing(failed, failed.runAt, message);
    }
  }
}
