/** The schedule of one recurring job that books its own next run (app/platform/jobs.py).

    A worker that starts up seeds the job: it looks for a pending row and, in a second step,
    enqueues one when it saw none. The handler's first act is the same check and enqueue, and it may
    fail in the middle of that as well as later. Claims are exclusive (module Workers), so a running
    row is held by one worker or orphaned by a crash, and only orphans are reset. */
module Recurring {
  import Sets

  datatype Phase =
    | Seeding
    | SeedSawNone
    | Idle
    | Handling(id: nat)
    | SawNone(id: nat)
    | Booked(id: nat)
  {
    predicate HasRow() {
      Handling? || SawNone? || Booked?
    }

    /** About to enqueue because no pending row was seen. */
    predicate WillEnqueue() {
      SeedSawNone? || SawNone?
    }

    /** Runs the job and has not booked its successor. */
    predicate Unbooked() {
      Handling? || SawNone?
    }
  }

  /** The rows of this job by status (finished ones that succeeded are left out); `orphans`
      are running rows whose worker died, `unbooked` the ones among them that died before
      booking; `seeded` says that some worker has finished seeding. */
  datatype System = System(nextId: nat, pending: set<nat>, running: set<nat>, failed: set<nat>,
                           workers: map<nat, Phase>, orphans: set<nat>, unbooked: set<nat>,
                           seeded: bool, crashes: nat, retries: nat)

  datatype Step =
    | SeedCheck(w: nat)
    | SeedEnqueue(w: nat)
    | Claim(w: nat, id: nat)
    | Check(w: nat)
    | Enqueue(w: nat)
    | Succeed(w: nat)
    | Fail(w: nat, givenUp: bool)
    | Crash(w: nat)
    | Recover(ids: set<nat>)
    | Retry(id: nat)
    | Purge(ids: set<nat>)

  function Initial(workers: set<nat>): System {
    System(0, {}, {}, {}, map w | w in workers :: Seeding, {}, {}, false, 0, 0)
  }

  ghost predicate Enabled(s: System, step: Step) {
    match step
    case SeedCheck(w) => w in s.workers && s.workers[w].Seeding?
    case SeedEnqueue(w) => w in s.workers && s.workers[w].SeedSawNone?
    case Claim(w, id) => w in s.workers && s.workers[w].Idle? && id in s.pending
    case Check(w) => w in s.workers && s.workers[w].Handling?
    case Enqueue(w) => w in s.workers && s.workers[w].SawNone?
    case Succeed(w) => w in s.workers && s.workers[w].Booked?
    case Fail(w, _) => w in s.workers && s.workers[w].HasRow()
    case Crash(w) => w in s.workers
    case Recover(ids) => ids <= s.orphans
    case Retry(id) => id in s.failed
    case Purge(ids) => ids <= s.failed
  }

  function Book(s: System, w: nat, next: Phase): System {
    s.(nextId := s.nextId + 1, pending := s.pending + {s.nextId}, workers := s.workers[w := next])
  }

  function Do(s: System, step: Step): System
    requires Enabled(s, step)
  {
    match step
    case SeedCheck(w) =>
      if s.pending == {} then s.(workers := s.workers[w := SeedSawNone])
      else s.(workers := s.workers[w := Idle], seeded := true)
    case SeedEnqueue(w) =>
      Book(s, w, Idle).(seeded := true)
    case Claim(w, id) =>
      s.(pending := s.pending - {id}, running := s.running + {id}, workers := s.workers[w := Handling(id)])
    case Check(w) =>
      var id := s.workers[w].id;
      s.(workers := s.workers[w := if s.pending == {} then SawNone(id) else Booked(id)])
    case Enqueue(w) =>
      Book(s, w, Booked(s.workers[w].id))
    case Succeed(w) =>
      s.(running := s.running - {s.workers[w].id}, workers := s.workers[w := Idle])
    case Fail(w, givenUp) =>
      var id := s.workers[w].id;
      s.(running := s.running - {id}, workers := s.workers[w := Idle],
         pending := if givenUp then s.pending else s.pending + {id},
         failed := if givenUp then s.failed + {id} else s.failed)
    case Crash(w) =>
      var p := s.workers[w];
      s.(workers := s.workers[w := Seeding], crashes := s.crashes + 1,
         orphans := if p.HasRow() then s.orphans + {p.id} else s.orphans,
         unbooked := if p.Unbooked() then s.unbooked + {p.id} else s.unbooked)
    case Recover(ids) =>
      s.(pending := s.pending + ids, running := s.running - ids, orphans := s.orphans - ids,
         unbooked := s.unbooked - ids)
    case Retry(id) =>
      s.(failed := s.failed - {id}, pending := s.pending + {id}, retries := s.retries + 1)
    case Purge(ids) =>
      s.(failed := s.failed - ids)
  }

  ghost predicate Legal(s: System, steps: seq<Step>)
    decreases |steps|
  {
    steps == [] || (Enabled(s, steps[0]) && Legal(Do(s, steps[0]), steps[1..]))
  }

  function After(s: System, steps: seq<Step>): System
    requires Legal(s, steps)
    decreases |steps|
  {
    if steps == [] then s else After(Do(s, steps[0]), steps[1..])
  }

  /** How many rows are live: pending or running, never both. */
  function Live(s: System): nat {
    |s.pending| + |s.running|
  }

  function Enqueuers(workers: map<nat, Phase>): set<nat> {
    set w | w in workers && workers[w].WillEnqueue()
  }

  function HeldRows(workers: map<nat, Phase>): set<nat> {
    set w | w in workers && workers[w].HasRow() :: workers[w].id
  }

  // ------------------------------------------------------------------ invariants

  ghost predicate Holds(workers: map<nat, Phase>, w: nat, id: nat) {
    w in workers && workers[w].HasRow() && workers[w].id == id
  }

  ghost predicate WellFormed(s: System) {
    && s.pending !! s.running && s.pending !! s.failed && s.running !! s.failed
    && (forall id :: id in s.pending || id in s.running || id in s.failed ==> id < s.nextId)
    && s.unbooked <= s.orphans <= s.running
    && |s.orphans| <= s.crashes
    && (forall w, id :: Holds(s.workers, w, id) ==> id in s.running && id !in s.orphans)
    && (forall id :: id in s.running && id !in s.orphans ==> exists w :: Holds(s.workers, w, id))
    && (forall w, v, id :: Holds(s.workers, w, id) && Holds(s.workers, v, id) ==> w == v)
  }

  /** Some row is pending, or is running and will still book its successor when it runs on. */
  ghost predicate Alive(s: System) {
    || s.pending != {}
    || (exists w :: w in s.workers && s.workers[w].Unbooked())
    || s.unbooked != {}
  }

  /** The live rows and the enqueues under way are at most two a worker, one more for every
      crash and for every manual retry. */
  ghost predicate Bounded(s: System) {
    Live(s) + |Enqueuers(s.workers)| <= 2 * |s.workers| + s.crashes + s.retries
  }

  /** Once seeded the schedule is alive. */
  ghost predicate UpAndRunning(s: System) {
    s.seeded ==> Alive(s)
  }

  // ------------------------------------------------------------------ the one step that kills it

  /** A handler gives up, on its last attempt, before it has booked its successor. */
  predicate GivesUpUnbooked(s: System, step: Step) {
    step.Fail? && step.givenUp && step.w in s.workers && s.workers[step.w].Unbooked()
  }

  /** Something other than worker `w` keeps the schedule alive: a pending row, another worker that
      has yet to book, or a row whose worker died before it booked. */
  ghost predicate Others(s: System, w: nat) {
    || s.pending != {}
    || (exists v :: v in s.workers && v != w && s.workers[v].Unbooked())
    || s.unbooked != {}
  }

  /** The step takes away the last thing that keeps the schedule alive. */
  ghost predicate Fatal(s: System, step: Step) {
    s.seeded && GivesUpUnbooked(s, step) && !Others(s, step.w)
  }

  /** No step of the run does. */
  ghost predicate Spared(s: System, steps: seq<Step>)
    requires Legal(s, steps)
    decreases |steps|
  {
    steps == [] || (!Fatal(s, steps[0]) && Spared(Do(s, steps[0]), steps[1..]))
  }

  /** Every state of the run is up and running, the last one included. */
  ghost predicate AlwaysUp(s: System, steps: seq<Step>)
    requires Legal(s, steps)
    decreases |steps|
  {
    UpAndRunning(s) && (steps == [] || AlwaysUp(Do(s, steps[0]), steps[1..]))
  }

  /** No handler gives up before it has booked. */
  ghost predicate NoneGivesUpUnbooked(s: System, steps: seq<Step>)
    requires Legal(s, steps)
    decreases |steps|
  {
    steps == [] || (!GivesUpUnbooked(s, steps[0]) && NoneGivesUpUnbooked(Do(s, steps[0]), steps[1..]))
  }

  lemma EnqueuersAfter(workers: map<nat, Phase>, w: nat, p: Phase)
    requires w in workers
    ensures |Enqueuers(workers[w := p])|
         == |Enqueuers(workers)| - (if workers[w].WillEnqueue() then 1 else 0) + (if p.WillEnqueue() then 1 else 0)
  {
    var rest := Enqueuers(workers) - {w};
    assert Enqueuers(workers[w := p]) == if p.WillEnqueue() then rest + {w} else rest;
  }

  lemma {:induction false} HeldAtMost(workers: map<nat, Phase>)
    ensures |HeldRows(workers)| <= |workers|
    decreases |workers|
  {
    if w :| w in workers {
      var rest := workers - {w};
      HeldAtMost(rest);
      assert workers.Keys == rest.Keys + {w};
      var more := if workers[w].HasRow() then {workers[w].id} else {};
      assert HeldRows(workers) == HeldRows(rest) + more;
    } else {
      assert HeldRows(workers) == {};
    }
  }

  predicate OnTable(step: Step) {
    step.Recover? || step.Retry? || step.Purge?
  }

  lemma StepKeepsWellFormed(s: System, step: Step)
    requires WellFormed(s) && Enabled(s, step)
    ensures WellFormed(Do(s, step))
  {
    hide WellFormed, Do;
    if OnTable(step) {
      TableStepKeepsWellFormed(s, step);
    } else if step.Claim? {
      ClaimKeepsWellFormed(s, step.w, step.id);
    } else if (step.Succeed? || step.Fail? || step.Crash?) && s.workers[step.w].HasRow() {
      LettingGoKeepsWellFormed(s, step, s.workers[step.w].id);
    } else {
      HoldingOnKeepsWellFormed(s, step);
    }
  }

  lemma TableStepKeepsWellFormed(s: System, step: Step)
    requires WellFormed(s) && Enabled(s, step) && OnTable(step)
    ensures WellFormed(Do(s, step))
  {
    if step.Recover? { Sets.SubsetIsSmaller(Do(s, step).orphans, s.orphans); }
  }

  lemma ClaimKeepsWellFormed(s: System, w: nat, id: nat)
    requires WellFormed(s) && Enabled(s, Claim(w, id))
    ensures WellFormed(Do(s, Claim(w, id)))
  {
    var t := Do(s, Claim(w, id));
    forall v, r ensures Holds(t.workers, v, r) <==> Holds(s.workers, v, r) || (v == w && r == id) {
    }
    assert Holds(t.workers, w, id);
  }

  /** A step that neither takes a row from a worker nor gives it one. */
  lemma SameHolders(s: System, t: System)
    requires WellFormed(s)
    requires forall v, r :: Holds(t.workers, v, r) <==> Holds(s.workers, v, r)
    requires s.pending <= t.pending <= s.pending + {s.nextId} && s.nextId <= t.nextId
    requires t.pending == s.pending || t.nextId == s.nextId + 1
    requires t.running == s.running && t.failed == s.failed && t.orphans == s.orphans && t.unbooked == s.unbooked
    requires s.crashes <= t.crashes
    ensures WellFormed(t)
  {
  }

  lemma HoldersStay(workers: map<nat, Phase>, w: nat, p: Phase)
    requires w in workers && p.HasRow() == workers[w].HasRow() && (p.HasRow() ==> p.id == workers[w].id)
    ensures forall v, r :: Holds(workers[w := p], v, r) <==> Holds(workers, v, r)
  {
  }

  lemma HoldingOnKeepsWellFormed(s: System, step: Step)
    requires WellFormed(s) && Enabled(s, step) && !OnTable(step) && !step.Claim?
    requires s.workers[step.w].HasRow() ==> step.Check? || step.Enqueue?
    ensures WellFormed(Do(s, step))
  {
    hide WellFormed, Holds;
    var t := Do(s, step);
    HoldersStay(s.workers, step.w, t.workers[step.w]);
    assert t.workers == s.workers[step.w := t.workers[step.w]];
    SameHolders(s, t);
  }

  lemma HolderLetsGo(workers: map<nat, Phase>, w: nat, p: Phase)
    requires w in workers && !p.HasRow()
    ensures forall v, r :: Holds(workers[w := p], v, r) <==> Holds(workers, v, r) && v != w
  {
  }

  /** A worker's row leaves it: it is done, back in the table, or orphaned. */
  lemma LettingGoKeepsWellFormed(s: System, step: Step, id: nat)
    requires WellFormed(s) && Enabled(s, step) && (step.Succeed? || step.Fail? || step.Crash?)
    requires Holds(s.workers, step.w, id)
    ensures WellFormed(Do(s, step))
  {
    var t := Do(s, step);
    HolderLetsGo(s.workers, step.w, t.workers[step.w]);
    assert t.workers == s.workers[step.w := t.workers[step.w]];
    OneHolderLess(s, t, step.w, id);
  }

  lemma OneHolderLess(s: System, t: System, w: nat, id: nat)
    requires WellFormed(s) && Holds(s.workers, w, id)
    requires forall v, r :: Holds(t.workers, v, r) <==> Holds(s.workers, v, r) && v != w
    requires t.running - t.orphans == s.running - s.orphans - {id} && t.nextId == s.nextId
    requires t.pending !! t.running && t.pending !! t.failed && t.running !! t.failed
    requires t.pending + t.failed <= s.pending + s.failed + {id} && t.running <= s.running
    requires t.unbooked <= t.orphans <= t.running && |t.orphans| <= t.crashes
    ensures WellFormed(t)
  {
    forall r | r in t.running && r !in t.orphans ensures exists v :: Holds(t.workers, v, r) {
      assert r in t.running - t.orphans;
      var v :| Holds(s.workers, v, r);
      assert Holds(t.workers, v, r);
    }
    forall v, r | Holds(t.workers, v, r) ensures r in t.running && r !in t.orphans {
      assert r in s.running - s.orphans - {id};
    }
  }

  /** A worker that sees nothing pending sees it when every live row is running. */
  lemma NonePendingIsFewLive(s: System)
    requires WellFormed(s) && s.pending == {}
    ensures Live(s) <= |s.workers| + s.crashes
  {
    HeldAtMost(s.workers);
    var few := HeldRows(s.workers) + s.orphans;
    forall id | id in s.running && id !in s.orphans ensures id in HeldRows(s.workers) {
      var w :| Holds(s.workers, w, id);
    }
    Sets.SubsetIsSmaller(s.running, few);
  }

  /** What is live, step by step: an enqueue and a manual retry add one row, a run that succeeds or
      gives up takes one away, and nothing else changes the count. */
  lemma LiveExactly(s: System, step: Step)
    requires WellFormed(s) && Enabled(s, step)
    ensures Live(Do(s, step)) == Live(s) + Added(step)
  {
    if step.Succeed? || step.Fail? { assert Holds(s.workers, step.w, s.workers[step.w].id); }
    CountLive(s, step);
  }

  function Added(step: Step): int {
    if step.SeedEnqueue? || step.Enqueue? || step.Retry? then 1
    else if step.Succeed? || (step.Fail? && step.givenUp) then -1
    else 0
  }

  lemma CountLive(s: System, step: Step)
    requires Enabled(s, step) && s.pending !! s.running && s.pending !! s.failed && s.orphans <= s.running
    requires s.nextId !in s.pending
    requires step.Succeed? || step.Fail? ==> s.workers[step.w].id in s.running
    ensures Live(Do(s, step)) == Live(s) + Added(step)
  {
    if step.Recover? { MoveAcross(s.running, s.pending, step.ids); }
  }

  lemma MoveAcross(a: set<nat>, b: set<nat>, ids: set<nat>)
    requires ids <= a && a !! b
    ensures |a - ids| + |b + ids| == |a| + |b|
  {
    assert a == (a - ids) + ids;
  }

  lemma SameWorkers(s: System, step: Step)
    requires Enabled(s, step)
    ensures Do(s, step).workers.Keys == s.workers.Keys && |Do(s, step).workers| == |s.workers|
  {
    var t := Do(s, step);
    assert t.workers.Keys == s.workers.Keys;
    assert |t.workers| == |t.workers.Keys| && |s.workers| == |s.workers.Keys|;
  }

  lemma StepKeepsBounded(s: System, step: Step)
    requires WellFormed(s) && Bounded(s) && Enabled(s, step)
    ensures Bounded(Do(s, step))
  {
    SameWorkers(s, step);
    if step.SeedCheck? || step.Check? {
      CheckKeepsBounded(s, step);
    } else {
      LiveExactly(s, step);
      EnqueuersOf(s, step);
    }
  }

  lemma CheckKeepsBounded(s: System, step: Step)
    requires WellFormed(s) && Bounded(s) && Enabled(s, step) && (step.SeedCheck? || step.Check?)
    requires Do(s, step).workers.Keys == s.workers.Keys && |Do(s, step).workers| == |s.workers|
    ensures Bounded(Do(s, step))
  {
    EnqueuersAfter(s.workers, step.w, Do(s, step).workers[step.w]);
    FewEnqueuers(s, Do(s, step));
  }

  /** Any other step takes a worker off the enqueuers exactly where it enqueues. */
  lemma EnqueuersOf(s: System, step: Step)
    requires Enabled(s, step) && !step.SeedCheck? && !step.Check?
    ensures |Enqueuers(Do(s, step).workers)|
            <= |Enqueuers(s.workers)| - if step.SeedEnqueue? || step.Enqueue? then 1 else 0
  {
    if !OnTable(step) { EnqueuersAfter(s.workers, step.w, Do(s, step).workers[step.w]); }
  }

  lemma FewEnqueuers(s: System, t: System)
    requires WellFormed(s) && Bounded(s) && t.workers.Keys == s.workers.Keys
    requires t.pending == s.pending && t.running == s.running && t.crashes == s.crashes && t.retries == s.retries
    requires |t.workers| == |s.workers|
    requires s.pending != {} ==> |Enqueuers(t.workers)| == |Enqueuers(s.workers)|
    ensures Bounded(t)
  {
    if s.pending == {} {
      NonePendingIsFewLive(s);
      Sets.SubsetIsSmaller(Enqueuers(t.workers), t.workers.Keys);
    }
  }

  lemma StaysAlive(s: System, step: Step)
    requires WellFormed(s) && Enabled(s, step) && s.seeded && Alive(s) && !Fatal(s, step)
    ensures Alive(Do(s, step))
  {
    hide WellFormed;
    if s.pending != {} || s.unbooked != {} {
      StaysAliveByRow(s, step);
    } else {
      var w :| w in s.workers && s.workers[w].Unbooked() && (GivesUpUnbooked(s, step) ==> w != step.w);
      if !OnTable(step) && step.w == w {
        StaysAliveByHolder(s, step);
      } else {
        StaysAliveByOther(s, step, w);
      }
    }
  }

  lemma StaysAliveByRow(s: System, step: Step)
    requires Enabled(s, step) && (s.pending != {} || s.unbooked != {})
    ensures Alive(Do(s, step))
  {
    if step.Claim? { assert Do(s, step).workers[step.w].Unbooked(); }
  }

  lemma StaysAliveByOther(s: System, step: Step, w: nat)
    requires Enabled(s, step) && w in s.workers && s.workers[w].Unbooked() && (OnTable(step) || step.w != w)
    ensures Alive(Do(s, step))
  {
    assert Do(s, step).workers[w] == s.workers[w];
  }

  lemma StaysAliveByHolder(s: System, step: Step)
    requires Enabled(s, step) && !OnTable(step) && s.pending == {}
    requires s.workers[step.w].Unbooked() && !GivesUpUnbooked(s, step)
    ensures Alive(Do(s, step))
  {
    var t := Do(s, step);
    if step.Check? {
      assert t.workers[step.w].SawNone?;
    } else if step.Crash? {
      assert s.workers[step.w].id in t.unbooked;
    } else {
      assert t.pending != {};
    }
  }

  /** One step, exactly: from a well-formed table with a live schedule any enabled step leaves it
      alive unless a handler gives up before booking and nothing else keeps the schedule alive. */
  lemma DiesExactly(s: System, step: Step)
    requires WellFormed(s) && Enabled(s, step) && s.seeded && Alive(s)
    ensures Alive(Do(s, step)) <==> !(GivesUpUnbooked(s, step) && !Others(s, step.w))
  {
    if !Fatal(s, step) { StaysAlive(s, step); }
  }

  lemma UpAfter(s: System, step: Step)
    requires WellFormed(s) && Enabled(s, step) && UpAndRunning(s)
    ensures UpAndRunning(Do(s, step)) <==> !Fatal(s, step)
  {
    if s.seeded { DiesExactly(s, step); }
  }

  lemma {:induction false} RunKeepsBounds(s: System, steps: seq<Step>)
    requires WellFormed(s) && Bounded(s) && Legal(s, steps)
    ensures var t := After(s, steps); WellFormed(t) && Bounded(t) && |t.workers| == |s.workers|
    decreases |steps|
  {
    if steps != [] {
      StepKeepsWellFormed(s, steps[0]);
      StepKeepsBounded(s, steps[0]);
      SameWorkers(s, steps[0]);
      RunKeepsBounds(Do(s, steps[0]), steps[1..]);
    }
  }

  lemma {:induction false} UpExactlyWhenSpared(s: System, steps: seq<Step>)
    requires WellFormed(s) && UpAndRunning(s) && Legal(s, steps)
    ensures AlwaysUp(s, steps) <==> Spared(s, steps)
    ensures Spared(s, steps) ==> UpAndRunning(After(s, steps))
    decreases |steps|
  {
    if steps != [] {
      StepKeepsWellFormed(s, steps[0]);
      UpAfter(s, steps[0]);
      if !Fatal(s, steps[0]) { UpExactlyWhenSpared(Do(s, steps[0]), steps[1..]); }
    }
  }

  lemma {:induction false} NoneGivesUpIsSpared(s: System, steps: seq<Step>)
    requires Legal(s, steps) && NoneGivesUpUnbooked(s, steps)
    ensures Spared(s, steps)
    decreases |steps|
  {
    if steps != [] { NoneGivesUpIsSpared(Do(s, steps[0]), steps[1..]); }
  }

  lemma InitialInv(workers: set<nat>)
    ensures var s := Initial(workers);
            WellFormed(s) && Bounded(s) && UpAndRunning(s) && |s.workers| == |workers|
  {
    var s := Initial(workers);
    assert s.workers.Keys == workers;
    assert |s.workers| == |s.workers.Keys|;
    assert Enqueuers(s.workers) == {};
  }

  lemma AliveIsLive(s: System)
    requires WellFormed(s) && Alive(s)
    ensures Live(s) >= 1
  {
    if s.pending == {} && s.unbooked == {} {
      var w :| w in s.workers && s.workers[w].Unbooked();
      assert Holds(s.workers, w, s.workers[w].id);
    }
    assert s.pending != {} || s.running != {};
  }

  /** The schedule never grows without bound: in every run of any number of workers, handlers
      failing wherever they may, at most twice as many rows are live as there are workers, plus one
      for every crash and every manual retry. And it does not die: once some worker has seeded the
      job, a row is live, in every run in which no handler takes the last thing that keeps the
      schedule alive with it by giving up before it has booked. */
  lemma ScheduleNeitherDiesNorGrows(workers: set<nat>, steps: seq<Step>)
    requires Legal(Initial(workers), steps)
    ensures var s := After(Initial(workers), steps);
            && Live(s) <= 2 * |workers| + CountCrashes(steps) + CountRetries(steps)
            && (s.seeded && Spared(Initial(workers), steps) ==> Alive(s) && Live(s) >= 1)
  {
    var s := After(Initial(workers), steps);
    InitialInv(workers);
    RunKeepsBounds(Initial(workers), steps);
    UpExactlyWhenSpared(Initial(workers), steps);
    CountsAreSteps(Initial(workers), steps);
    if s.seeded && Alive(s) { AliveIsLive(s); }
  }

  /** Which runs keep it up: exactly those without such a step, so surely those in which no handler
      gives up before it has booked. */
  lemma StaysUpExactly(workers: set<nat>, steps: seq<Step>)
    requires Legal(Initial(workers), steps)
    ensures AlwaysUp(Initial(workers), steps) <==> Spared(Initial(workers), steps)
    ensures NoneGivesUpUnbooked(Initial(workers), steps) ==> AlwaysUp(Initial(workers), steps)
  {
    InitialInv(workers);
    UpExactlyWhenSpared(Initial(workers), steps);
    if NoneGivesUpUnbooked(Initial(workers), steps) { NoneGivesUpIsSpared(Initial(workers), steps); }
  }

  // ------------------------------------------------------------------ a schedule that dies

  /** Worker 1 runs row 0 `tries` times and fails every time before it has booked, giving up on the
      last. */
  function Failing(tries: nat): seq<Step> {
    if tries == 0 then []
    else [Claim(1, 0), Fail(1, tries == 1)] + Failing(tries - 1)
  }

  function AfterSeeding(): System {
    System(1, {0}, {}, {}, map[1 := Idle], {}, {}, true, 0, 0)
  }

  function GivenUp(): System {
    System(1, {}, {}, {0}, map[1 := Idle], {}, {}, true, 0, 0)
  }

  lemma OneTry(last: bool)
    ensures var s := AfterSeeding();
            && Enabled(s, Claim(1, 0)) && Enabled(Do(s, Claim(1, 0)), Fail(1, last))
            && Do(Do(s, Claim(1, 0)), Fail(1, last)) == if last then GivenUp() else s
  {
    var s := Do(AfterSeeding(), Claim(1, 0));
    assert s == System(1, {}, {0}, {}, map[1 := Handling(0)], {}, {}, true, 0, 0);
  }

  lemma TwoSteps(s: System, a: Step, b: Step, rest: seq<Step>)
    requires Enabled(s, a) && Enabled(Do(s, a), b)
    ensures Legal(s, [a, b] + rest) <==> Legal(Do(Do(s, a), b), rest)
    ensures Legal(s, [a, b] + rest) ==> After(s, [a, b] + rest) == After(Do(Do(s, a), b), rest)
  {
    var steps := [a, b] + rest;
    assert steps[1..] == [b] + rest && steps[1..][1..] == rest;
  }

  lemma {:induction false} TriesUsedUp(tries: nat)
    requires tries > 0
    ensures Legal(AfterSeeding(), Failing(tries)) && After(AfterSeeding(), Failing(tries)) == GivenUp()
  {
    OneTry(tries == 1);
    TwoSteps(AfterSeeding(), Claim(1, 0), Fail(1, tries == 1), Failing(tries - 1));
    if tries > 1 { TriesUsedUp(tries - 1); }
  }

  /** However many attempts a job has, a lone worker whose handler fails before booking on each of
      them ends the schedule for good: nothing is pending or running, though nothing crashed. */
  lemma UnbookedGiveUpEndsIt(tries: nat)
    requires tries > 0
    ensures var steps := [SeedCheck(1), SeedEnqueue(1)] + Failing(tries);
            && Legal(Initial({1}), steps)
            && var s := After(Initial({1}), steps);
               s.seeded && Live(s) == 0 && s.crashes == 0 && s.retries == 0
  {
    var s0 := Initial({1});
    var s1 := Do(s0, SeedCheck(1));
    assert s1 == System(0, {}, {}, {}, map[1 := SeedSawNone], {}, {}, false, 0, 0);
    assert Do(s1, SeedEnqueue(1)) == AfterSeeding();
    TwoSteps(s0, SeedCheck(1), SeedEnqueue(1), Failing(tries));
    TriesUsedUp(tries);
  }

  /** No worker is starting up. */
  ghost predicate AllStarted(s: System) {
    forall w :: w in s.workers ==> !s.workers[w].Seeding? && !s.workers[w].SeedSawNone?
  }

  /** With no row live it takes a restart of a worker or a retry by hand to bring the schedule
      back: without either, every run leaves no row live. */
  lemma {:induction false} DeadStaysDead(s: System, steps: seq<Step>)
    requires WellFormed(s) && Live(s) == 0 && AllStarted(s) && Legal(s, steps)
    ensures var t := After(s, steps); t.crashes > s.crashes || t.retries > s.retries || Live(t) == 0
    decreases |steps|
  {
    if steps != [] {
      CountsGrow(s, steps);
      if !steps[0].Crash? && !steps[0].Retry? {
        DeadStep(s, steps[0]);
        StepKeepsWellFormed(s, steps[0]);
        DeadStaysDead(Do(s, steps[0]), steps[1..]);
      }
    }
  }

  lemma DeadStep(s: System, step: Step)
    requires WellFormed(s) && Live(s) == 0 && AllStarted(s) && Enabled(s, step) && !step.Crash? && !step.Retry?
    ensures Live(Do(s, step)) == 0 && AllStarted(Do(s, step))
    ensures Do(s, step).crashes == s.crashes && Do(s, step).retries == s.retries
  {
    assert s.pending == {} && s.running == {};
    forall w | w in s.workers ensures s.workers[w].Idle? {
      if s.workers[w].HasRow() { assert Holds(s.workers, w, s.workers[w].id); }
    }
  }

  lemma {:induction false} CountsGrow(s: System, steps: seq<Step>)
    requires Legal(s, steps) && steps != []
    ensures var t, u := After(s, steps), Do(s, steps[0]);
            s.crashes <= u.crashes <= t.crashes && s.retries <= u.retries <= t.retries
    decreases |steps|
  {
    if |steps| > 1 { CountsGrow(Do(s, steps[0]), steps[1..]); }
  }

  /** What is orphaned before it booked: what a worker held that died at that point, until a recovery. */
  lemma UnbookedExactly(s: System, step: Step, id: nat)
    requires WellFormed(s) && Enabled(s, step)
    ensures id in Do(s, step).unbooked <==>
            || (step.Crash? && Holds(s.workers, step.w, id) && s.workers[step.w].Unbooked())
            || (id in s.unbooked && !(step.Recover? && id in step.ids))
  {
  }

  /** A worker that starts up brings a dead schedule back: once the others have started too, a restart
      runs through its check and its enqueue and leaves one row live. */
  lemma RestartRevives(s: System, w: nat)
    requires WellFormed(s) && Live(s) == 0 && AllStarted(s) && w in s.workers
    ensures Legal(s, [Crash(w), SeedCheck(w), SeedEnqueue(w)])
    ensures var t := After(s, [Crash(w), SeedCheck(w), SeedEnqueue(w)]); Alive(t) && Live(t) == 1 && t.seeded
  {
    assert s.pending == {} && s.running == {};
    var s1 := Do(s, Crash(w));
    var s2 := Do(s1, SeedCheck(w));
    assert [] + [SeedEnqueue(w)] == [SeedEnqueue(w)];
    TwoSteps(s, Crash(w), SeedCheck(w), [SeedEnqueue(w)]);
    assert [Crash(w), SeedCheck(w)] + [SeedEnqueue(w)] == [Crash(w), SeedCheck(w), SeedEnqueue(w)];
    assert [SeedEnqueue(w)][1..] == [];
    StepKeepsWellFormed(s, Crash(w));
    StepKeepsWellFormed(s1, SeedCheck(w));
    LiveExactly(s, Crash(w));
    LiveExactly(s1, SeedCheck(w));
    LiveExactly(s2, SeedEnqueue(w));
  }

  function CountCrashes(steps: seq<Step>): nat {
    if steps == [] then 0 else (if steps[0].Crash? then 1 else 0) + CountCrashes(steps[1..])
  }

  function CountRetries(steps: seq<Step>): nat {
    if steps == [] then 0 else (if steps[0].Retry? then 1 else 0) + CountRetries(steps[1..])
  }

  /** The crashes and retries the bound allows for are those of the run. */
  lemma {:induction false} CountsAreSteps(s: System, steps: seq<Step>)
    requires Legal(s, steps)
    ensures After(s, steps).crashes == s.crashes + CountCrashes(steps)
    ensures After(s, steps).retries == s.retries + CountRetries(steps)
    decreases |steps|
  {
    if steps != [] { CountsAreSteps(Do(s, steps[0]), steps[1..]); }
  }

  /** What has failed, step by step: a run given up, until it is retried by hand or purged. */
  lemma FailedExactly(s: System, step: Step, id: nat)
    requires WellFormed(s) && Enabled(s, step)
    ensures id in Do(s, step).failed <==>
            || (step.Fail? && step.givenUp && Holds(s.workers, step.w, id))
            || (id in s.failed && step != Retry(id) && !(step.Purge? && id in step.ids))
  {
  }

  /** A manual retry of what failed brings the schedule back to life. */
  lemma RetryRevives(s: System, id: nat)
    requires WellFormed(s) && Enabled(s, Retry(id))
    ensures Alive(Do(s, Retry(id))) && Live(Do(s, Retry(id))) == Live(s) + 1
  {
    LiveExactly(s, Retry(id));
  }

  // ------------------------------------------------------------------ the bound is reached

  function Range(n: nat): set<nat> {
    if n == 0 then {} else Range(n - 1) + {n - 1}
  }

  ghost predicate Below(ids: set<nat>, n: nat) {
    forall id: nat :: id in ids <==> id < n
  }

  lemma {:induction false} RangeIs(n: nat)
    ensures Below(Range(n), n)
    ensures |Range(n)| == n
  {
    if n > 0 { RangeIs(n - 1); }
  }

  lemma {:induction false} Snoc(s: System, steps: seq<Step>, step: Step)
    requires Legal(s, steps) && Enabled(After(s, steps), step)
    ensures Legal(s, steps + [step]) && After(s, steps + [step]) == Do(After(s, steps), step)
    decreases |steps|
  {
    if steps == [] {
      assert [] + [step] == [step] && [step][1..] == [];
    } else {
      assert (steps + [step])[1..] == steps[1..] + [step];
      Snoc(Do(s, steps[0]), steps[1..], step);
    }
  }

  /** The phases the workers of the run go through together, worker `w` with row `w`. */
  function Stage(i: nat, w: nat): Phase {
    if i == 0 then Seeding
    else if i == 1 then SeedSawNone
    else if i == 2 then Idle
    else if i == 3 then Handling(w)
    else if i == 4 then SawNone(w)
    else Booked(w)
  }

  /** Workers below `k` have left stage `i` for the next. */
  ghost predicate Split(workers: map<nat, Phase>, n: nat, k: nat, i: nat) {
    && Below(workers.Keys, n)
    && forall w :: w in workers ==> workers[w] == Stage(if w < k then i + 1 else i, w)
  }

  function StageStep(i: nat, w: nat): Step {
    if i == 0 then SeedCheck(w)
    else if i == 1 then SeedEnqueue(w)
    else if i == 2 then Claim(w, w)
    else if i == 3 then Check(w)
    else Enqueue(w)
  }

  /** The rows while workers below `k` have taken step `i`: all see none and all enqueue; each
      claims a row of its own; all see none again and all enqueue again. */
  ghost predicate Rows(s: System, n: nat, k: nat, i: nat) {
    && (i == 0 ==> s.pending == {} && s.running == {} && s.nextId == 0)
    && (i == 1 ==> Below(s.pending, k) && s.running == {} && s.nextId == k)
    && (i == 2 ==> (forall id: nat :: id in s.pending <==> k <= id < n) && Below(s.running, k) && s.nextId == n)
    && (i == 3 ==> s.pending == {} && Below(s.running, n) && s.nextId == n)
    && (i == 4 ==> |s.pending| == k && Below(s.running, n) && forall id :: id in s.pending ==> id < s.nextId)
  }

  ghost predicate Staged(s: System, n: nat, k: nat, i: nat) {
    Split(s.workers, n, k, i) && s.crashes == 0 && s.retries == 0 && Rows(s, n, k, i)
  }

  lemma StageEnabled(s: System, n: nat, k: nat, i: nat)
    requires Staged(s, n, k, i) && k < n && i <= 4
    ensures Enabled(s, StageStep(i, k))
    ensures k in s.workers && Do(s, StageStep(i, k)).workers == s.workers[k := Stage(i + 1, k)]
  {
    hide Below;
    StageReady(s.workers, n, k, i);
  }

  lemma StageReady(workers: map<nat, Phase>, n: nat, k: nat, i: nat)
    requires Split(workers, n, k, i) && k < n && i <= 4
    ensures k in workers && workers[k] == Stage(i, k)
  {
  }

  lemma StageRows(s: System, n: nat, k: nat, i: nat)
    requires Rows(s, n, k, i) && k < n && i <= 4 && Enabled(s, StageStep(i, k))
    ensures Rows(Do(s, StageStep(i, k)), n, k + 1, i)
  {
    if i == 4 { assert s.nextId !in s.pending; }
  }

  lemma StagedStep(s: System, n: nat, k: nat, i: nat)
    requires Staged(s, n, k, i) && k < n && i <= 4
    ensures Enabled(s, StageStep(i, k)) && Staged(Do(s, StageStep(i, k)), n, k + 1, i)
  {
    StageEnabled(s, n, k, i);
    StageRows(s, n, k, i);
  }

  lemma WholeStage(s0: System, before: seq<Step>, n: nat, i: nat) returns (steps: seq<Step>)
    requires i <= 4 && Legal(s0, before) && Staged(After(s0, before), n, 0, i)
    ensures Legal(s0, steps) && Staged(After(s0, steps), n, n, i)
  {
    steps := before;
    for k := 0 to n
      invariant Legal(s0, steps) && Staged(After(s0, steps), n, k, i)
    {
      StagedStep(After(s0, steps), n, k, i);
      Snoc(s0, steps, StageStep(i, k));
      steps := steps + [StageStep(i, k)];
    }
  }

  lemma NextStage(s: System, n: nat, i: nat)
    requires i < 4 && Staged(s, n, n, i)
    ensures Staged(s, n, 0, i + 1)
  {
    if i == 2 {
      assert s.pending == {};
    }
  }

  /** Two rows a worker is what the guard really allows: for every number of workers some run
      with no crash and no retry has exactly that many live. */
  lemma BoundIsReached(n: nat) returns (steps: seq<Step>)
    ensures |Range(n)| == n && Legal(Initial(Range(n)), steps)
    ensures var s := After(Initial(Range(n)), steps);
            s.crashes == 0 && s.retries == 0 && Live(s) == 2 * n
  {
    var s0 := Initial(Range(n));
    RangeIs(n);
    steps := WholeStage(s0, [], n, 0);
    NextStage(After(s0, steps), n, 0);
    steps := WholeStage(s0, steps, n, 1);
    NextStage(After(s0, steps), n, 1);
    steps := WholeStage(s0, steps, n, 2);
    NextStage(After(s0, steps), n, 2);
    steps := WholeStage(s0, steps, n, 3);
    NextStage(After(s0, steps), n, 3);
    steps := WholeStage(s0, steps, n, 4);
    assert After(s0, steps).running == Range(n);
  }
}
