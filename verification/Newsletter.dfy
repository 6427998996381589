/** Sending one newsletter delivery (app/platform/newsletter.py, app/models/newsletter.py). */
module Newsletter {
  import opened Wrappers

  const BATCH_LIMIT := 200
  const ERROR_MAX := 500

  datatype DeliveryStatus = Pending | Sending | Done | Failed

  datatype Recipient = Recipient(subscriber: nat, sentAt: Option<int>, error: Option<string>) {
    predicate Open() {
      sentAt.None? && error.None?
    }
  }

  /** What an attempt at one recipient comes to: they are no longer subscribed, the mail goes
      out, or composing or sending it raises. */
  datatype Answer = Gone | Mailed | Raised(message: string)

  function Attempted(r: Recipient, answer: Answer, now: int): Recipient {
    match answer
    case Gone => r.(error := Some("no longer subscribed"))
    case Mailed => r.(sentAt := Some(now))
    case Raised(message) => r.(error := Some(if |message| > ERROR_MAX then message[..ERROR_MAX] else message))
  }

  // ------------------------------------------------------------------ counting

  function CountSent(rows: seq<Recipient>): nat {
    if rows == [] then 0 else (if rows[0].sentAt.Some? then 1 else 0) + CountSent(rows[1..])
  }

  function CountFailed(rows: seq<Recipient>): nat {
    if rows == [] then 0 else (if rows[0].error.Some? then 1 else 0) + CountFailed(rows[1..])
  }

  function CountOpen(rows: seq<Recipient>): nat {
    if rows == [] then 0 else (if rows[0].Open() then 1 else 0) + CountOpen(rows[1..])
  }

  /** No recipient is both sent and errored. */
  ghost predicate Disjoint(rows: seq<Recipient>) {
    forall i :: 0 <= i < |rows| ==> rows[i].sentAt.None? || rows[i].error.None?
  }

  lemma {:induction false} CountsAddUp(rows: seq<Recipient>)
    requires Disjoint(rows)
    ensures CountSent(rows) + CountFailed(rows) + CountOpen(rows) == |rows|
  {
    if rows != [] {
      assert forall i :: 0 <= i < |rows[1..]| ==> rows[1..][i] == rows[i + 1];
      CountsAddUp(rows[1..]);
    }
  }

  // ------------------------------------------------------------------ one execution

  /** What the batch query may answer, in whatever order: open recipients, each once, as many
      as there are up to the limit. */
  ghost predicate IsBatch(rows: seq<Recipient>, batch: seq<nat>) {
    && (forall i :: i in batch ==> i < |rows| && rows[i].Open())
    && (forall j, k :: 0 <= j < k < |batch| ==> batch[j] != batch[k])
    && |batch| == if CountOpen(rows) <= BATCH_LIMIT then CountOpen(rows) else BATCH_LIMIT
  }

  /** The rows after every recipient of `batch` has been attempted. */
  function BatchDone(rows: seq<Recipient>, batch: seq<nat>, answers: nat -> Answer, now: int): seq<Recipient> {
    if batch == [] then rows
    else
      var done := BatchDone(rows, batch[..|batch| - 1], answers, now);
      var i := batch[|batch| - 1];
      if i < |done| then done[i := Attempted(done[i], answers(i), now)] else done
  }

  class Delivery {
    var status: DeliveryStatus
    var recipientsTotal: nat
    var sentCount: nat
    var failedCount: nat
    var finishedAt: Option<int>
    var recipients: seq<Recipient>

    ghost predicate Valid()
      reads this
    {
      |recipients| == recipientsTotal && Disjoint(recipients)
    }

    /** The audience is snapshotted upfront, one row a subscriber. */
    constructor CreateForContent(audience: seq<nat>)
      ensures Valid() && status == Pending && recipientsTotal == |audience|
      ensures sentCount == 0 && failedCount == 0 && finishedAt == None
      ensures forall i :: 0 <= i < |audience| ==> recipients[i] == Recipient(audience[i], None, None)
    {
      status := Pending;
      recipientsTotal := |audience|;
      sentCount, failedCount, finishedAt := 0, 0, None;
      recipients := [];
      new;
      var k := 0;
      while k < |audience|
        invariant 0 <= k <= |audience| == recipientsTotal && |recipients| == k
        invariant status == Pending && sentCount == 0 && failedCount == 0 && finishedAt == None
        invariant forall i :: 0 <= i < k ==> recipients[i] == Recipient(audience[i], None, None)
      {
        recipients := recipients + [Recipient(audience[k], None, None)];
        k := k + 1;
      }
    }

    /** The loop over one batch: a recipient at a time, committed before the next. */
    method AttemptBatch(batch: seq<nat>, answers: nat -> Answer, now: int) returns (mailed: seq<nat>)
      requires Valid() && IsBatch(recipients, batch)
      modifies this`recipients
      ensures Valid() && recipients == BatchDone(old(recipients), batch, answers, now)
      ensures mailed == MailedOf(batch, answers)
    {
      mailed := [];
      var k := 0;
      assert batch[..0] == [];
      while k < |batch|
        invariant 0 <= k <= |batch| && Valid()
        invariant |recipients| == |old(recipients)| && forall j :: 0 <= j < |batch| ==> batch[j] < |recipients|
        invariant recipients == BatchDone(old(recipients), batch[..k], answers, now)
        invariant forall j :: k <= j < |batch| ==> recipients[batch[j]].Open()
        invariant mailed == MailedOf(batch[..k], answers)
      {
        assert batch[..k + 1][..k] == batch[..k];
        var i := batch[k];
        match answers(i) {
          case Gone =>
            recipients := recipients[i := recipients[i].(error := Some("no longer subscribed"))];
          case Mailed =>
            mailed := mailed + [i];
            recipients := recipients[i := recipients[i].(sentAt := Some(now))];
          case Raised(message) =>
            var short := if |message| > ERROR_MAX then message[..ERROR_MAX] else message;
            recipients := recipients[i := recipients[i].(error := Some(short))];
        }
        k := k + 1;
      }
      assert batch[..k] == batch;
    }

    /** One execution of the send job. `batch` is the batch query's answer and `answers` what
        comes of each attempt; `again` says that the job was enqueued again. */
    method SendDelivery(configured: bool, contentExists: bool, batch: seq<nat>, answers: nat -> Answer, now: int)
      returns (again: bool, mailed: seq<nat>)
      requires Valid() && IsBatch(recipients, batch)
      modifies this
      ensures Valid() && recipientsTotal == old(recipientsTotal)
      ensures old(status).Done? || !configured || !contentExists ==>
                && !again && mailed == [] && recipients == old(recipients) && sentCount == old(sentCount)
                && failedCount == old(failedCount) && finishedAt == old(finishedAt)
                && status == if old(status).Done? then Done else Failed
      ensures !old(status).Done? && configured && contentExists ==>
                && recipients == BatchDone(old(recipients), batch, answers, now)
                && mailed == MailedOf(batch, answers)
                && sentCount == CountSent(recipients) && failedCount == CountFailed(recipients)
                && sentCount + failedCount + CountOpen(recipients) == recipientsTotal
                && (again <==> CountOpen(recipients) > 0)
                && (status == if again then Sending else Done)
                && (finishedAt == if again then old(finishedAt) else Some(now))
    {
      again, mailed := false, [];
      if status.Done? {
        return;
      }
      if !configured {
        status := Failed;
        return;
      }
      if !contentExists {
        status := Failed;
        return;
      }
      status := Sending;
      mailed := AttemptBatch(batch, answers, now);
      var remaining := CountOpen(recipients);
      sentCount := CountSent(recipients);
      failedCount := CountFailed(recipients);
      CountsAddUp(recipients);
      if remaining != 0 {
        again := true;
      } else {
        status := Done;
        finishedAt := Some(now);
      }
    }
  }

  /** The recipients of a batch the mail goes out to, in order. */
  function MailedOf(batch: seq<nat>, answers: nat -> Answer): seq<nat> {
    if batch == [] then []
    else
      var i := batch[|batch| - 1];
      MailedOf(batch[..|batch| - 1], answers) + if answers(i).Mailed? then [i] else []
  }

  // ------------------------------------------------------------------ progress

  lemma {:induction false} CloseOne(rows: seq<Recipient>, i: nat, r: Recipient)
    requires i < |rows| && rows[i].Open() && !r.Open()
    ensures CountOpen(rows[i := r]) == CountOpen(rows) - 1
  {
    if i == 0 {
      assert rows[i := r][1..] == rows[1..];
    } else {
      assert rows[i := r][1..] == rows[1..][i - 1 := r];
      CloseOne(rows[1..], i - 1, r);
    }
  }

  /** A batch marks exactly its own recipients, each once and for good. */
  lemma {:induction false} BatchMarks(rows: seq<Recipient>, batch: seq<nat>, answers: nat -> Answer, now: int)
    requires (forall i :: i in batch ==> i < |rows| && rows[i].Open())
    requires forall j, k :: 0 <= j < k < |batch| ==> batch[j] != batch[k]
    ensures var done := BatchDone(rows, batch, answers, now);
            && |done| == |rows|
            && (forall i :: 0 <= i < |rows| ==>
                  done[i] == if i in batch then Attempted(rows[i], answers(i), now) else rows[i])
            && CountOpen(done) == CountOpen(rows) - |batch|
    decreases |batch|
  {
    if batch != [] {
      var most, i := batch[..|batch| - 1], batch[|batch| - 1];
      assert batch == most + [i] && i in batch && forall j :: j in most ==> j in batch;
      BatchMarks(rows, most, answers, now);
      var done := BatchDone(rows, most, answers, now);
      CloseOne(done, i, Attempted(done[i], answers(i), now));
    }
  }

  lemma {:induction false} CountOne(rows: seq<Recipient>, i: nat, r: Recipient)
    requires i < |rows| && rows[i].Open()
    ensures CountSent(rows[i := r]) == CountSent(rows) + if r.sentAt.Some? then 1 else 0
    ensures CountFailed(rows[i := r]) == CountFailed(rows) + if r.error.Some? then 1 else 0
  {
    if i == 0 {
      assert rows[i := r][1..] == rows[1..];
    } else {
      assert rows[i := r][1..] == rows[1..][i - 1 := r];
      CountOne(rows[1..], i - 1, r);
    }
  }

  /** The counters tell what went out: a batch raises the sent count by the mails and the failed count
      by the rest of the batch, and each failure carries what went wrong, cut at 500 characters. */
  lemma {:induction false} BatchCounts(rows: seq<Recipient>, batch: seq<nat>, answers: nat -> Answer, now: int)
    requires (forall i :: i in batch ==> i < |rows| && rows[i].Open())
    requires forall j, k :: 0 <= j < k < |batch| ==> batch[j] != batch[k]
    ensures var done := BatchDone(rows, batch, answers, now);
            && CountSent(done) == CountSent(rows) + |MailedOf(batch, answers)|
            && CountFailed(done) == CountFailed(rows) + |batch| - |MailedOf(batch, answers)|
    decreases |batch|
  {
    if batch != [] {
      var most, i := batch[..|batch| - 1], batch[|batch| - 1];
      assert batch == most + [i] && i in batch && forall j :: j in most ==> j in batch;
      hide Attempted, CountSent, CountFailed, CountOpen;
      BatchMarks(rows, most, answers, now);
      BatchCounts(rows, most, answers, now);
      var done := BatchDone(rows, most, answers, now);
      CountOne(done, i, Attempted(done[i], answers(i), now));
      AttemptCloses(done[i], answers(i), now);
    }
  }

  lemma AttemptCloses(r: Recipient, answer: Answer, now: int)
    requires r.Open()
    ensures Attempted(r, answer, now).sentAt.Some? <==> answer.Mailed?
    ensures Attempted(r, answer, now).error.Some? <==> !answer.Mailed?
  {
  }

  /** What a recipient's row says of an attempt: when the mail went out, or why it did not. */
  lemma AttemptTells(r: Recipient, message: string, now: int)
    requires r.Open()
    ensures Attempted(r, Mailed, now) == Recipient(r.subscriber, Some(now), None)
    ensures var failed := Attempted(r, Raised(message), now);
            && failed.subscriber == r.subscriber && failed.sentAt.None? && failed.error.Some?
            && failed.error.value <= message && |failed.error.value| == if |message| <= 500 then |message| else 500
    ensures var gone := Attempted(r, Gone, now);
            gone == Recipient(r.subscriber, None, Some("no longer subscribed"))
  {
  }

  /** One uninterrupted execution on these rows. */
  ghost predicate Executed(rows: seq<Recipient>, after: seq<Recipient>) {
    exists batch, answers, now :: IsBatch(rows, batch) && after == BatchDone(rows, batch, answers, now)
  }

  /** Executions one after another, each re-enqueued by the one before, until one is not. */
  ghost predicate WholeDelivery(runs: seq<seq<Recipient>>) {
    && |runs| >= 2
    && (forall k :: 0 <= k < |runs| - 1 ==> Executed(runs[k], runs[k + 1]))
    && (forall k :: 1 <= k < |runs| - 1 ==> CountOpen(runs[k]) > 0)
    && CountOpen(runs[|runs| - 1]) == 0
  }

  /** An uninterrupted delivery to n recipients takes exactly ceil(n / 200) executions, one
      when there is nobody to send to. */
  lemma {:induction false} ExecutionsNeeded(runs: seq<seq<Recipient>>)
    requires WholeDelivery(runs)
    ensures var n := CountOpen(runs[0]);
            |runs| - 1 == if n == 0 then 1 else (n + 199) / 200
    decreases |runs|
  {
    assert Executed(runs[0], runs[0 + 1]);
    var batch, answers, now :| IsBatch(runs[0], batch) && runs[1] == BatchDone(runs[0], batch, answers, now);
    BatchMarks(runs[0], batch, answers, now);
    if |runs| > 2 {
      assert CountOpen(runs[1]) > 0;
      var rest := runs[1..];
      assert forall k :: 0 <= k < |rest| ==> rest[k] == runs[k + 1];
      forall k | 0 <= k < |rest| - 1 ensures Executed(rest[k], rest[k + 1]) {
        assert Executed(runs[k + 1], runs[k + 2]);
      }
      ExecutionsNeeded(rest);
    }
  }

  // ------------------------------------------------------------------ crashes

  /** Where the single worker is in the send loop: `todo` is what is left of the batch it read,
      `InFlight` after the mail to its first recipient went out and before that is committed. */
  datatype Phase = Rest | AtWork(todo: seq<nat>) | InFlight(todo: seq<nat>)

  /** `mails` counts the mails that went out to each recipient, `lost` the crashes between a
      mail to them and its commit. */
  datatype Process = Process(rows: seq<Recipient>, phase: Phase, mails: map<nat, nat>, lost: map<nat, nat>)

  datatype Step =
    | Start(batch: seq<nat>)
    | Skip(answer: Answer, now: int)
    | Mail
    | Commit(now: int)
    | Finish
    | Crash

  function At(m: map<nat, nat>, i: nat): nat {
    if i in m then m[i] else 0
  }

  predicate HasNext(p: Process) {
    !p.phase.Rest? && p.phase.todo != [] && p.phase.todo[0] < |p.rows|
  }

  ghost predicate Enabled(p: Process, step: Step) {
    match step
    case Start(batch) => p.phase.Rest? && IsBatch(p.rows, batch)
    case Skip(answer, _) => p.phase.AtWork? && HasNext(p) && !answer.Mailed?
    case Mail => p.phase.AtWork? && HasNext(p)
    case Commit(_) => p.phase.InFlight? && HasNext(p)
    case Finish => p.phase.AtWork? && p.phase.todo == []
    case Crash => true
  }

  ghost function Do(p: Process, step: Step): Process
    requires Enabled(p, step)
  {
    match step
    case Start(batch) => p.(phase := AtWork(batch))
    case Skip(answer, now) =>
      var i := p.phase.todo[0];
      p.(rows := p.rows[i := Attempted(p.rows[i], answer, now)], phase := AtWork(p.phase.todo[1..]))
    case Mail =>
      var i := p.phase.todo[0];
      p.(mails := p.mails[i := At(p.mails, i) + 1], phase := InFlight(p.phase.todo))
    case Commit(now) =>
      var i := p.phase.todo[0];
      p.(rows := p.rows[i := p.rows[i].(sentAt := Some(now))], phase := AtWork(p.phase.todo[1..]))
    case Finish => p.(phase := Rest)
    case Crash =>
      if p.phase.InFlight? && p.phase.todo != [] then
        var i := p.phase.todo[0];
        p.(lost := p.lost[i := At(p.lost, i) + 1], phase := Rest)
      else p.(phase := Rest)
  }

  ghost predicate Legal(p: Process, steps: seq<Step>)
    decreases |steps|
  {
    steps == [] || (Enabled(p, steps[0]) && Legal(Do(p, steps[0]), steps[1..]))
  }

  ghost function After(p: Process, steps: seq<Step>): Process
    requires Legal(p, steps)
    decreases |steps|
  {
    if steps == [] then p else After(Do(p, steps[0]), steps[1..])
  }

  /** What is left of the batch is open and each recipient is in it once. */
  ghost predicate WellFormed(p: Process) {
    !p.phase.Rest? ==>
      && (p.phase.InFlight? ==> p.phase.todo != [])
      && (forall i :: i in p.phase.todo ==> i < |p.rows| && p.rows[i].Open())
      && (forall j, k :: 0 <= j < k < |p.phase.todo| ==> p.phase.todo[j] != p.phase.todo[k])
  }

  function Flying(p: Process, i: nat): nat {
    if p.phase.InFlight? && p.phase.todo != [] && p.phase.todo[0] == i then 1 else 0
  }

  /** Every mail to a recipient is accounted for: the one their row records, the ones a crash
      lost the record of, and the one in flight. */
  ghost predicate Accounted(p: Process) {
    WellFormed(p) && Disjoint(p.rows) &&
    forall i :: 0 <= i < |p.rows| ==>
      At(p.mails, i) == (if p.rows[i].sentAt.Some? then 1 else 0) + At(p.lost, i) + Flying(p, i)
  }

  lemma FreshIsAccounted(rows: seq<Recipient>)
    requires forall i :: 0 <= i < |rows| ==> rows[i].Open()
    ensures Accounted(Process(rows, Rest, map[], map[]))
  {
  }

  lemma StepKeepsDisjoint(p: Process, step: Step)
    requires WellFormed(p) && Disjoint(p.rows) && Enabled(p, step)
    ensures Disjoint(Do(p, step).rows)
  {
  }

  lemma StepKeepsAccounted(p: Process, step: Step)
    requires Accounted(p) && Enabled(p, step)
    ensures Accounted(Do(p, step))
    ensures |Do(p, step).rows| == |p.rows|
    ensures forall i :: 0 <= i < |p.rows| && !p.rows[i].Open() ==>
              Do(p, step).rows[i] == p.rows[i] && At(Do(p, step).mails, i) == At(p.mails, i)
  {
    StepKeepsDisjoint(p, step);
    if p.phase.AtWork? || p.phase.InFlight? {
      var todo := p.phase.todo;
      assert forall k :: 0 <= k < |todo| ==> todo[k] in todo;
      assert todo != [] ==> forall i :: i in todo[1..] ==> i in todo && i != todo[0];
    }
  }

  /** A crash loses no row and unsends no mail: all it can lose is the record of the one in flight, and
      the worker starts its next execution from the table. */
  lemma CrashLosesOneRecord(p: Process, i: nat)
    ensures var t := Do(p, Crash);
            && t.rows == p.rows && t.mails == p.mails && t.phase.Rest?
            && At(t.lost, i) == At(p.lost, i) + Flying(p, i)
  {
  }

  /** The mail bound over any number of executions, retries, zombie resets and duplicate jobs on
      one worker: a recipient is mailed at most once more than a crash lost the record of a mail
      to them, exactly that often once sent, and never again once marked. */
  lemma {:induction false} MailBound(p: Process, steps: seq<Step>)
    requires Accounted(p) && Legal(p, steps)
    ensures var t := After(p, steps);
            && Accounted(t) && |t.rows| == |p.rows|
            && (forall i :: 0 <= i < |t.rows| ==>
                  && At(t.mails, i) <= 1 + At(t.lost, i)
                  && (t.rows[i].sentAt.Some? ==> (At(t.mails, i) == 1 <==> At(t.lost, i) == 0)))
            && (forall i :: 0 <= i < |p.rows| && !p.rows[i].Open() ==>
                  t.rows[i] == p.rows[i] && At(t.mails, i) == At(p.mails, i))
    decreases |steps|
  {
    if steps != [] {
      StepKeepsAccounted(p, steps[0]);
      MailBound(Do(p, steps[0]), steps[1..]);
    } else {
      assert forall i :: 0 <= i < |p.rows| && Flying(p, i) == 1 ==> p.rows[i].Open();
    }
  }

  /** Conservation across crashes, from a delivery just created: whatever interrupted the runs
      before it, the next execution finds every recipient either sent or errored or open, never
      two of them, and so counts up to the total again. */
  lemma ConservedAcrossCrashes(rows: seq<Recipient>, steps: seq<Step>)
    requires forall i :: 0 <= i < |rows| ==> rows[i].Open()
    requires Legal(Process(rows, Rest, map[], map[]), steps)
    ensures var p := After(Process(rows, Rest, map[], map[]), steps);
            && Accounted(p) && |p.rows| == |rows| && Disjoint(p.rows)
            && CountSent(p.rows) + CountFailed(p.rows) + CountOpen(p.rows) == |rows|
            && forall i :: 0 <= i < |rows| ==> At(p.mails, i) <= 1 + At(p.lost, i)
  {
    FreshIsAccounted(rows);
    MailBound(Process(rows, Rest, map[], map[]), steps);
    CountsAddUp(After(Process(rows, Rest, map[], map[]), steps).rows);
  }

  /** So an execution resumed after any such run, once it ends, has sent + failed + remaining at
      the total, and is the last exactly when nothing remains. */
  method Resume(d: Delivery, ghost created: seq<Recipient>, ghost steps: seq<Step>,
                batch: seq<nat>, answers: nat -> Answer, now: int) returns (again: bool)
    requires forall i :: 0 <= i < |created| ==> created[i].Open()
    requires Legal(Process(created, Rest, map[], map[]), steps)
    requires d.recipients == After(Process(created, Rest, map[], map[]), steps).rows
    requires d.recipientsTotal == |created| && !d.status.Done? && IsBatch(d.recipients, batch)
    modifies d
    ensures d.sentCount + d.failedCount + CountOpen(d.recipients) == |created|
    ensures d.sentCount == CountSent(d.recipients) && d.failedCount == CountFailed(d.recipients)
    ensures (again <==> CountOpen(d.recipients) > 0) && (d.status.Done? <==> !again)
  {
    ConservedAcrossCrashes(created, steps);
    var mailed;
    again, mailed := d.SendDelivery(true, true, batch, answers, now);
  }

  /** The steps of an execution nothing interrupts. */
  function StepsFor(todo: seq<nat>, answers: nat -> Answer, now: int): seq<Step> {
    if todo == [] then [Finish]
    else
      var answer := answers(todo[0]);
      (if answer.Mailed? then [Mail, Commit(now)] else [Skip(answer, now)]) + StepsFor(todo[1..], answers, now)
  }

  lemma Then(p: Process, step: Step, rest: seq<Step>)
    requires Enabled(p, step) && Legal(Do(p, step), rest)
    ensures Legal(p, [step] + rest) && After(p, [step] + rest) == After(Do(p, step), rest)
  {
    assert ([step] + rest)[1..] == rest;
  }

  ghost function AttemptedOne(p: Process, answer: Answer, now: int): Process
    requires HasNext(p)
  {
    var i := p.phase.todo[0];
    Process(p.rows[i := Attempted(p.rows[i], answer, now)], AtWork(p.phase.todo[1..]),
            if answer.Mailed? then p.mails[i := At(p.mails, i) + 1] else p.mails, p.lost)
  }

  lemma AttemptOne(p: Process, answers: nat -> Answer, now: int)
    requires p.phase.AtWork? && HasNext(p)
    requires Legal(AttemptedOne(p, answers(p.phase.todo[0]), now), StepsFor(p.phase.todo[1..], answers, now))
    ensures Legal(p, StepsFor(p.phase.todo, answers, now))
    ensures After(p, StepsFor(p.phase.todo, answers, now))
         == After(AttemptedOne(p, answers(p.phase.todo[0]), now), StepsFor(p.phase.todo[1..], answers, now))
  {
    var answer, rest := answers(p.phase.todo[0]), StepsFor(p.phase.todo[1..], answers, now);
    if answer.Mailed? {
      var mid := Do(p, Mail);
      Then(mid, Commit(now), rest);
      Then(p, Mail, [Commit(now)] + rest);
      assert [Mail] + ([Commit(now)] + rest) == [Mail, Commit(now)] + rest;
    } else {
      Then(p, Skip(answer, now), rest);
    }
  }

  lemma {:induction false} UninterruptedSteps(p: Process, answers: nat -> Answer, now: int)
    requires WellFormed(p) && p.phase.AtWork?
    ensures Legal(p, StepsFor(p.phase.todo, answers, now))
    ensures var todo, t := p.phase.todo, After(p, StepsFor(p.phase.todo, answers, now));
            && t.phase.Rest? && t.lost == p.lost && |t.rows| == |p.rows|
            && forall i :: 0 <= i < |p.rows| ==>
                 && t.rows[i] == (if i in todo then Attempted(p.rows[i], answers(i), now) else p.rows[i])
                 && At(t.mails, i) == At(p.mails, i) + (if i in todo && answers(i).Mailed? then 1 else 0)
    decreases |p.phase.todo|
  {
    var todo := p.phase.todo;
    if todo == [] {
      assert [Finish][1..] == [];
    } else {
      assert todo[0] in todo;
      OnceEach(todo);
      var t := AttemptedOne(p, answers(todo[0]), now);
      UninterruptedSteps(t, answers, now);
      AttemptOne(p, answers, now);
    }
  }

  lemma OnceEach(todo: seq<nat>)
    requires todo != [] && forall j, k :: 0 <= j < k < |todo| ==> todo[j] != todo[k]
    ensures todo[0] !in todo[1..]
    ensures forall i :: i in todo <==> i == todo[0] || i in todo[1..]
  {
  }

  /** An execution nothing interrupts, taken commit by commit, does what `SendDelivery` does to
      the rows and mails whom it says it mails. */
  lemma StepsAreOneExecution(p: Process, batch: seq<nat>, answers: nat -> Answer, now: int)
    requires p.phase.Rest? && IsBatch(p.rows, batch)
    ensures Legal(p, [Start(batch)] + StepsFor(batch, answers, now))
    ensures var t := After(p, [Start(batch)] + StepsFor(batch, answers, now));
            && t.phase.Rest? && t.lost == p.lost
            && t.rows == BatchDone(p.rows, batch, answers, now)
            && forall i :: 0 <= i < |p.rows| ==>
                 At(t.mails, i) == At(p.mails, i) + if i in MailedOf(batch, answers) then 1 else 0
  {
    var s := Do(p, Start(batch));
    UninterruptedSteps(s, answers, now);
    Then(p, Start(batch), StepsFor(batch, answers, now));
    MailedOfHolds(batch, answers);
    SameRows(p.rows, After(s, StepsFor(batch, answers, now)).rows, batch, answers, now);
  }

  lemma SameRows(rows: seq<Recipient>, after: seq<Recipient>, batch: seq<nat>, answers: nat -> Answer, now: int)
    requires IsBatch(rows, batch) && |after| == |rows|
    requires forall i :: 0 <= i < |rows| ==>
               after[i] == (if i in batch then Attempted(rows[i], answers(i), now) else rows[i])
    ensures after == BatchDone(rows, batch, answers, now)
  {
    BatchMarks(rows, batch, answers, now);
  }

  lemma {:induction false} MailedOfHolds(batch: seq<nat>, answers: nat -> Answer)
    ensures forall i :: i in MailedOf(batch, answers) <==> i in batch && answers(i).Mailed?
    decreases |batch|
  {
    if batch != [] {
      var most, i := batch[..|batch| - 1], batch[|batch| - 1];
      assert batch == most + [i];
      MailedOfHolds(most, answers);
    }
  }

  lemma ThreeSteps(p: Process, a: Step, b: Step, c: Step)
    requires Enabled(p, a) && Enabled(Do(p, a), b) && Enabled(Do(Do(p, a), b), c)
    ensures Legal(p, [a, b, c]) && After(p, [a, b, c]) == Do(Do(Do(p, a), b), c)
  {
    Then(Do(Do(p, a), b), c, []);
    Then(Do(p, a), b, [c]);
    Then(p, a, [b, c]);
  }

  lemma LostMail(p: Process, batch: seq<nat>)
    requires p.phase.Rest? && IsBatch(p.rows, batch) && batch != []
    ensures Legal(p, [Start(batch), Mail, Crash])
    ensures var t, i := After(p, [Start(batch), Mail, Crash]), batch[0];
            t == p.(mails := p.mails[i := At(p.mails, i) + 1], lost := p.lost[i := At(p.lost, i) + 1])
  {
    assert batch[0] in batch;
    ThreeSteps(p, Start(batch), Mail, Crash);
  }

  lemma FirstMail(p: Process, batch: seq<nat>, now: int)
    requires p.phase.Rest? && IsBatch(p.rows, batch) && batch != []
    ensures batch[0] < |p.rows| && Legal(p, [Start(batch), Mail, Commit(now)])
    ensures var t, i := After(p, [Start(batch), Mail, Commit(now)]), batch[0];
            t.mails == p.mails[i := At(p.mails, i) + 1] && t.rows == p.rows[i := p.rows[i].(sentAt := Some(now))]
  {
    assert batch[0] in batch;
    ThreeSteps(p, Start(batch), Mail, Commit(now));
  }

  /** The one way to a second mail: the worker dies after the mail went out and before that is
      committed, and the next execution finds the recipient still open. */
  lemma CrashMailsTwice(p: Process, batch: seq<nat>, now: int)
    requires p.phase.Rest? && IsBatch(p.rows, batch) && batch != []
    ensures Legal(p, [Start(batch), Mail, Crash])
    ensures var t, i := After(p, [Start(batch), Mail, Crash]), batch[0];
            && Legal(t, [Start(batch), Mail, Commit(now)])
            && At(After(t, [Start(batch), Mail, Commit(now)]).mails, i) == At(p.mails, i) + 2
  {
    LostMail(p, batch);
    FirstMail(After(p, [Start(batch), Mail, Crash]), batch, now);
  }
}
