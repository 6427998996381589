/** The in-memory fixed-window rate limiter (app/middleware/ratelimit.py). */
module RateLimit {
  import opened Ordering
  import opened Wrappers

  const SWEEP_AT := 10_000
  const SWEEP_EVERY := 30.0
  const MAX_ENTRIES := 100_000
  const MAX_IDENTITY := 255

  datatype Entry = Entry(count: int, start: real, window: real) {
    predicate Expired(now: real) {
      now - start > window
    }
  }

  /** A Python dict: what each key holds, and the order the keys went in. */
  datatype Dict = Dict(at: map<string, Entry>, order: seq<string>) {
    ghost predicate Valid() {
      && (forall k :: k in order <==> k in at)
      && Distinct(order)
    }

    /** Assigning to a key that is there keeps its place. */
    function Put(k: string, e: Entry): Dict {
      Dict(at[k := e], if k in at then order else order + [k])
    }

    function Pop(k: string): Dict {
      Dict(at - {k}, Without(order, k))
    }
  }

  function Without(order: seq<string>, k: string): seq<string> {
    if order == [] then []
    else if order[0] == k then Without(order[1..], k)
    else [order[0]] + Without(order[1..], k)
  }

  /** The keys of `order` that still count at `now`, in order. */
  function LiveKeys(at: map<string, Entry>, order: seq<string>, now: real): seq<string> {
    if order == [] then []
    else if order[0] in at && !at[order[0]].Expired(now) then [order[0]] + LiveKeys(at, order[1..], now)
    else LiveKeys(at, order[1..], now)
  }

  lemma {:induction false} WithoutHolds(order: seq<string>, k: string)
    ensures forall x :: x in Without(order, k) <==> x in order && x != k
    ensures Distinct(order) ==> Distinct(Without(order, k))
  {
    if order != [] {
      WithoutHolds(order[1..], k);
      if Distinct(order) && order[0] != k {
        assert order[0] !in order[1..];
        DistinctCons(order[0], Without(order[1..], k));
      }
    }
  }

  lemma {:induction false} LiveKeysHold(at: map<string, Entry>, order: seq<string>, now: real)
    ensures forall x :: x in LiveKeys(at, order, now) <==> x in order && x in at && !at[x].Expired(now)
    ensures Distinct(order) ==> Distinct(LiveKeys(at, order, now))
  {
    if order != [] {
      LiveKeysHold(at, order[1..], now);
      if Distinct(order) && order[0] in at && !at[order[0]].Expired(now) {
        assert order[0] !in order[1..];
        DistinctCons(order[0], LiveKeys(at, order[1..], now));
      }
    }
  }

  lemma DistinctCons(x: string, rest: seq<string>)
    requires Distinct(rest) && x !in rest
    ensures Distinct([x] + rest)
  {
  }

  lemma PutValid(d: Dict, k: string, e: Entry)
    requires d.Valid()
    ensures d.Put(k, e).Valid()
  {
    assert k !in d.order ==> Distinct(d.order + [k]);
  }

  lemma PopValid(d: Dict, k: string)
    requires d.Valid()
    ensures d.Pop(k).Valid()
  {
    WithoutHolds(d.order, k);
  }

  function Restrict(d: Dict, keys: seq<string>): Dict {
    Dict(map k | k in d.at && k in keys :: d.at[k], keys)
  }

  /** What a sweep leaves: the live entries, and of those the newest hundred thousand. */
  function Swept(d: Dict, now: real): Dict {
    var live := LiveKeys(d.at, d.order, now);
    Restrict(d, if |live| > MAX_ENTRIES then live[|live| - MAX_ENTRIES..] else live)
  }

  predicate SweepDue(d: Dict, last: real, now: real) {
    |d.order| > SWEEP_AT && now - last > SWEEP_EVERY
  }

  // ------------------------------------------------------------------ one entry

  /** What a counted request does to its entry, and whether it goes through. */
  function Counted(e: Option<Entry>, limit: int, window: real, now: real): (Entry, bool) {
    match e
    case None => (Entry(1, now, window), true)
    case Some(Entry(count, start, _)) =>
      if now - start > window then (Entry(1, now, window), true)
      else if count >= limit then (e.value, false)
      else (Entry(count + 1, start, window), true)
  }

  function Failed(e: Option<Entry>, window: real, now: real): Entry {
    if e.None? || e.value.Expired(now) then Entry(1, now, window)
    else e.value.(count := e.value.count + 1)
  }

  predicate Spent(e: Option<Entry>, limit: int, now: real) {
    e.Some? && e.value.count >= limit && now - e.value.start <= e.value.window
  }

  function Get(at: map<string, Entry>, k: string): Option<Entry> {
    if k in at then Some(at[k]) else None
  }

  function FailureKey(identity: string): string {
    "failure:" + if |identity| > MAX_IDENTITY then identity[..MAX_IDENTITY] else identity
  }

  // ------------------------------------------------------------------ one call

  /** A call on the limiter, with the clock it reads. */
  datatype Event =
    | Check(time: real, key: string, limit: int, window: real)
    | Fail(time: real, key: string, window: real)
    | Ask(time: real, key: string, limit: int)
    | Clear(time: real, key: string)

  /** What a call does to the entry of its own key (None when it is removed), and its answer. */
  function Apply(e: Option<Entry>, ev: Event): (Option<Entry>, bool) {
    match ev
    case Check(now, _, limit, window) =>
      var (entry, ok) := Counted(e, limit, window, now); (Some(entry), ok)
    case Fail(now, _, window) => (Some(Failed(e, window, now)), false)
    case Ask(now, _, limit) => (e, Spent(e, limit, now))
    case Clear(_, _) => (None, false)
  }

  function Store(d: Dict, k: string, e: Option<Entry>): Dict {
    if e.Some? then d.Put(k, e.value) else d.Pop(k)
  }

  predicate Sweeps(ev: Event) {
    ev.Check? || ev.Fail?
  }

  datatype State = State(limits: Dict, lastSweep: real) {
    function Ready(ev: Event): State {
      if Sweeps(ev) && SweepDue(limits, lastSweep, ev.time)
      then State(Swept(limits, ev.time), ev.time) else this
    }

    /** The whole effect of one call. */
    function Step(ev: Event): (State, bool) {
      var r := Ready(ev);
      var (e, answer) := Apply(Get(r.limits.at, ev.key), ev);
      (State(Store(r.limits, ev.key, e), r.lastSweep), answer)
    }
  }

  // ------------------------------------------------------------------ the module's state

  class RateLimiter {
    var limits: Dict
    var lastSweep: real

    ghost predicate Valid()
      reads this
    {
      limits.Valid()
    }

    constructor ()
      ensures Valid() && limits == Dict(map[], []) && lastSweep == 0.0
    {
      limits := Dict(map[], []);
      lastSweep := 0.0;
    }

    method ExpiredKeys(now: real) returns (dead: seq<string>)
      requires Valid()
      ensures forall k :: k in dead <==> k in limits.at && limits.at[k].Expired(now)
    {
      dead := [];
      var i := 0;
      while i < |limits.order|
        invariant 0 <= i <= |limits.order|
        invariant forall k :: k in dead <==> k in limits.order[..i] && limits.at[k].Expired(now)
      {
        if limits.at[limits.order[i]].Expired(now) {
          dead := dead + [limits.order[i]];
        }
        i := i + 1;
      }
      assert limits.order[..i] == limits.order;
    }

    method PopAll(keys: seq<string>)
      requires Valid()
      modifies this`limits
      ensures Valid() && limits == Removing(old(limits), keys)
    {
      ghost var was := limits;
      var i := 0;
      assert keys[..0] == [];
      RemovingNone(was);
      while i < |keys|
        invariant 0 <= i <= |keys| && limits.Valid()
        invariant limits == Removing(was, keys[..i])
      {
        assert keys[..i + 1] == keys[..i] + [keys[i]];
        RemovingOne(was, keys[..i], keys[i]);
        PopValid(limits, keys[i]);
        limits := limits.Pop(keys[i]);
        i := i + 1;
      }
      assert keys[..i] == keys;
    }

    method Sweep(now: real)
      requires Valid()
      modifies this`limits
      ensures Valid() && limits == Swept(old(limits), now)
    {
      ghost var was := limits;
      ghost var live := LiveKeys(was.at, was.order, now);
      var dead := ExpiredKeys(now);
      PopAll(dead);
      RemovingDead(was, dead, now);
      LiveKeysHold(was.at, was.order, now);
      var excess := |limits.order| - MAX_ENTRIES;
      if excess > 0 {
        RemovingOldest(was, live, excess);
        PopAll(limits.order[..excess]);
      }
    }

    method MaybeSweep(now: real)
      requires Valid()
      modifies this
      ensures Valid()
      ensures SweepDue(old(limits), old(lastSweep), now) ==> limits == Swept(old(limits), now) && lastSweep == now
      ensures !SweepDue(old(limits), old(lastSweep), now) ==> limits == old(limits) && lastSweep == old(lastSweep)
    {
      if |limits.order| > SWEEP_AT && now - lastSweep > SWEEP_EVERY {
        Sweep(now);
        lastSweep := now;
      }
    }

    method CheckLimit(key: string, limit: int, window: real, now: real) returns (allowed: bool)
      requires Valid()
      modifies this
      ensures Valid()
      ensures (State(limits, lastSweep), allowed)
           == State(old(limits), old(lastSweep)).Step(Check(now, key, limit, window))
    {
      hide Swept, SweepDue;
      ghost var ev := Check(now, key, limit, window);
      MaybeSweep(now);
      assert State(limits, lastSweep) == State(old(limits), old(lastSweep)).Ready(ev);
      ghost var entry := Counted(Get(limits.at, key), limit, window, now).0;
      assert State(old(limits), old(lastSweep)).Step(ev).0 == State(limits.Put(key, entry), lastSweep);
      if key !in limits.at {
        limits := limits.Put(key, Entry(1, now, window));
        return true;
      }
      var Entry(count, windowStart, _) := limits.at[key];
      if now - windowStart > window {
        limits := limits.Put(key, Entry(1, now, window));
        return true;
      }
      if count >= limit {
        PutSame(limits, key);
        return false;
      }
      limits := limits.Put(key, Entry(count + 1, windowStart, window));
      return true;
    }

    method RecordFailure(identity: string, window: real, now: real)
      requires Valid()
      modifies this
      ensures Valid()
      ensures State(limits, lastSweep)
           == State(old(limits), old(lastSweep)).Step(Fail(now, FailureKey(identity), window)).0
    {
      hide FailureKey, Swept, SweepDue;
      var key := FailureKey(identity);
      ghost var ev := Fail(now, key, window);
      MaybeSweep(now);
      ghost var ready := State(limits, lastSweep);
      assert ready == State(old(limits), old(lastSweep)).Ready(ev);
      ghost var entry := Failed(Get(limits.at, key), window, now);
      assert State(old(limits), old(lastSweep)).Step(ev).0 == State(limits.Put(key, entry), lastSweep);
      if key !in limits.at || now - limits.at[key].start > limits.at[key].window {
        limits := limits.Put(key, Entry(1, now, window));
        return;
      }
      var data := limits.at[key];
      limits := limits.Put(key, Entry(data.count + 1, data.start, data.window));
    }

    method TooManyFailures(identity: string, limit: int, now: real) returns (spent: bool)
      requires Valid()
      ensures spent == State(limits, lastSweep).Step(Ask(now, FailureKey(identity), limit)).1
    {
      var key := FailureKey(identity);
      if key !in limits.at {
        return false;
      }
      var Entry(count, start, length) := limits.at[key];
      return count >= limit && now - start <= length;
    }

    method ClearFailures(identity: string, ghost now: real)
      requires Valid()
      modifies this`limits
      ensures Valid()
      ensures State(limits, lastSweep)
           == State(old(limits), lastSweep).Step(Clear(now, FailureKey(identity))).0
    {
      PopValid(limits, FailureKey(identity));
      limits := limits.Pop(FailureKey(identity));
    }
  }

  lemma PutSame(d: Dict, k: string)
    requires k in d.at
    ensures d.Put(k, d.at[k]) == d
  {
    assert d.at[k := d.at[k]] == d.at;
  }

  function Excluding(order: seq<string>, dead: seq<string>): seq<string> {
    if order == [] then []
    else if order[0] in dead then Excluding(order[1..], dead)
    else [order[0]] + Excluding(order[1..], dead)
  }

  lemma {:induction false} ExcludingOne(order: seq<string>, dead: seq<string>, k: string)
    ensures Without(Excluding(order, dead), k) == Excluding(order, dead + [k])
  {
    if order != [] {
      ExcludingOne(order[1..], dead, k);
      var rest := Excluding(order[1..], dead);
      if order[0] !in dead {
        assert ([order[0]] + rest)[1..] == rest;
      }
    }
  }

  lemma {:induction false} ExcludingNone(order: seq<string>)
    ensures Excluding(order, []) == order
  {
    if order != [] { ExcludingNone(order[1..]); }
  }

  function Removing(d: Dict, keys: seq<string>): Dict {
    Dict(map k | k in d.at && k !in keys :: d.at[k], Excluding(d.order, keys))
  }

  lemma RemovingNone(d: Dict)
    ensures Removing(d, []) == d
  {
    ExcludingNone(d.order);
  }

  lemma RemovingOne(d: Dict, keys: seq<string>, k: string)
    ensures Removing(d, keys).Pop(k) == Removing(d, keys + [k])
  {
    ExcludingOne(d.order, keys, k);
    assert Removing(d, keys).Pop(k).at == Removing(d, keys + [k]).at;
  }

  lemma {:induction false} ExcludingDead(d: Dict, order: seq<string>, dead: seq<string>, now: real)
    requires forall k :: k in order ==> k in d.at
    requires forall k :: k in order ==> (k in dead <==> d.at[k].Expired(now))
    ensures Excluding(order, dead) == LiveKeys(d.at, order, now)
  {
    if order != [] { ExcludingDead(d, order[1..], dead, now); }
  }

  lemma RemovingDead(d: Dict, dead: seq<string>, now: real)
    requires d.Valid() && forall k :: k in dead <==> k in d.at && d.at[k].Expired(now)
    ensures Removing(d, dead) == Restrict(d, LiveKeys(d.at, d.order, now))
  {
    ExcludingDead(d, d.order, dead, now);
    LiveKeysHold(d.at, d.order, now);
    assert Removing(d, dead).at == Restrict(d, LiveKeys(d.at, d.order, now)).at;
  }

  lemma RemovingOldest(d: Dict, live: seq<string>, n: nat)
    requires Distinct(live) && n <= |live|
    ensures Removing(Restrict(d, live), live[..n]) == Restrict(d, live[n..])
  {
    assert live[..n] + live[n..] == live;
    ExcludingPrefix(live[..n], live[n..]);
    assert forall k :: k in live && k !in live[..n] <==> k in live[n..];
    assert Removing(Restrict(d, live), live[..n]).at == Restrict(d, live[n..]).at;
  }

  lemma {:induction false} ExcludingPrefix(a: seq<string>, b: seq<string>)
    requires Distinct(a + b)
    ensures Excluding(a + b, a) == b
  {
    forall j | 0 <= j < |b| ensures b[j] !in a {
      assert (a + b)[|a| + j] == b[j];
      assert forall i :: 0 <= i < |a| ==> (a + b)[i] == a[i];
    }
    ExcludingAll(a, b, a);
  }

  lemma {:induction false} ExcludingAll(a: seq<string>, b: seq<string>, dead: seq<string>)
    requires (forall k :: k in a ==> k in dead) && forall k :: k in b ==> k !in dead
    ensures Excluding(a + b, dead) == b
  {
    if a != [] {
      assert (a + b)[1..] == a[1..] + b;
      ExcludingAll(a[1..], b, dead);
    } else if b != [] {
      assert (a + b)[1..] == [] + b[1..];
      ExcludingAll([], b[1..], dead);
    } else {
      assert a + b == [];
    }
  }

  // ------------------------------------------------------------------ what a sweep does

  /** A sweep leaves no expired entry and no more than the cap, touches no entry it keeps, and
      what it drops among the live entries is the oldest of them in insertion order. */
  lemma SweepProperties(d: Dict, now: real)
    requires d.Valid()
    ensures var s, live := Swept(d, now), LiveKeys(d.at, d.order, now);
            && s.Valid() && |s.order| <= MAX_ENTRIES
            && (forall k :: k in s.at ==> k in d.at && s.at[k] == d.at[k] && !d.at[k].Expired(now))
            && (forall k :: k in live <==> k in d.at && !d.at[k].Expired(now))
            && (exists n: nat :: n <= |live| && s.order == live[n..] && (n > 0 ==> |s.order| == MAX_ENTRIES))
  {
    var s, live := Swept(d, now), LiveKeys(d.at, d.order, now);
    LiveKeysHold(d.at, d.order, now);
    var n: nat := if |live| > MAX_ENTRIES then |live| - MAX_ENTRIES else 0;
    assert live[0..] == live;
    assert n <= |live| && s.order == live[n..] && (n > 0 ==> |s.order| == MAX_ENTRIES);
    RestrictedIsValid(d, live, n);
  }

  lemma RestrictedIsValid(d: Dict, live: seq<string>, n: nat)
    requires Distinct(live) && n <= |live| && forall k :: k in live ==> k in d.at
    ensures Restrict(d, live[n..]).Valid()
    ensures forall k :: k in live[n..] ==> k in live
  {
    var rest := live[n..];
    forall i, j | 0 <= i < j < |rest| ensures rest[i] != rest[j] {
      assert rest[i] == live[n + i] && rest[j] == live[n + j];
    }
    forall k | k in rest ensures k in live {
      var i :| 0 <= i < |rest| && rest[i] == k;
      assert live[n + i] == k;
    }
  }

  // ------------------------------------------------------------------ sweeping is invisible

  function Run(s: State, evs: seq<Event>): seq<bool>
    decreases |evs|
  {
    if evs == [] then []
    else
      var (s', answer) := s.Step(evs[0]);
      [answer] + Run(s', evs[1..])
  }

  lemma StoreValid(d: Dict, k: string, e: Option<Entry>)
    requires d.Valid()
    ensures Store(d, k, e).Valid()
  {
    if e.Some? { PutValid(d, k, e.value); } else { PopValid(d, k); }
  }

  lemma StepKeepsValid(s: State, ev: Event)
    requires s.limits.Valid()
    ensures s.Ready(ev).limits.Valid() && s.Step(ev).0.limits.Valid()
  {
    if Sweeps(ev) && SweepDue(s.limits, s.lastSweep, ev.time) { SweepProperties(s.limits, ev.time); }
    StoreValid(s.Ready(ev).limits, ev.key, Apply(Get(s.Ready(ev).limits.at, ev.key), ev).0);
  }

  /** The limiter the source describes with nothing ever retired. */
  function RunPlain(at: map<string, Entry>, evs: seq<Event>): seq<bool>
    decreases |evs|
  {
    if evs == [] then []
    else
      var (e, answer) := Apply(Get(at, evs[0].key), evs[0]);
      [answer] + RunPlain(Written(at, evs[0].key, e), evs[1..])
  }

  function Written(at: map<string, Entry>, k: string, e: Option<Entry>): map<string, Entry> {
    if e.Some? then at[k := e.value] else at - {k}
  }

  /** No sweep of this run meets more live entries than the cap. */
  ghost predicate NeverEvicts(s: State, evs: seq<Event>)
    decreases |evs|
  {
    evs == [] ||
    (&& (Sweeps(evs[0]) && SweepDue(s.limits, s.lastSweep, evs[0].time)
         ==> |LiveKeys(s.limits.at, s.limits.order, evs[0].time)| <= MAX_ENTRIES)
     && NeverEvicts(s.Step(evs[0]).0, evs[1..]))
  }

  /** The clock never goes back, and a key is always used with its own window. */
  ghost predicate Orderly(evs: seq<Event>, from: real, window: string -> real) {
    evs == [] ||
    (&& from <= evs[0].time
     && (Sweeps(evs[0]) ==> evs[0].window == window(evs[0].key))
     && Orderly(evs[1..], evs[0].time, window))
  }

  /** `d` is `at` with some entries gone, each of them expired. */
  ghost predicate SameButExpired(at: map<string, Entry>, d: map<string, Entry>, now: real, window: string -> real) {
    && (forall k :: k in d ==> k in at && d[k] == at[k])
    && (forall k :: k in at && k !in d ==> at[k].Expired(now))
    && (forall k :: k in at ==> at[k].window == window(k))
  }

  lemma SweepKeepsSame(at: map<string, Entry>, s: State, ev: Event, window: string -> real)
    requires s.limits.Valid() && SameButExpired(at, s.limits.at, ev.time, window)
    requires Sweeps(ev) && SweepDue(s.limits, s.lastSweep, ev.time)
             ==> |LiveKeys(s.limits.at, s.limits.order, ev.time)| <= MAX_ENTRIES
    ensures SameButExpired(at, s.Ready(ev).limits.at, ev.time, window)
  {
    LiveKeysHold(s.limits.at, s.limits.order, ev.time);
  }

  lemma StepKeepsSame(at: map<string, Entry>, d: Dict, ev: Event, window: string -> real)
    requires SameButExpired(at, d.at, ev.time, window)
    requires Sweeps(ev) ==> ev.window == window(ev.key)
    ensures var (e, answer) := Apply(Get(at, ev.key), ev);
            var (e', answer') := Apply(Get(d.at, ev.key), ev);
            && answer == answer'
            && SameButExpired(Written(at, ev.key, e), Store(d, ev.key, e').at, ev.time, window)
  {
  }

  /** Over any run of calls, a limiter that sweeps answers as one that never deletes. */
  lemma {:induction false} SweepingIsInvisible(at: map<string, Entry>, s: State, evs: seq<Event>, from: real,
                                               window: string -> real)
    requires s.limits.Valid() && SameButExpired(at, s.limits.at, from, window)
    requires Orderly(evs, from, window) && NeverEvicts(s, evs)
    ensures Run(s, evs) == RunPlain(at, evs)
    decreases |evs|
  {
    if evs != [] {
      var ev := evs[0];
      assert SameButExpired(at, s.limits.at, ev.time, window);
      SweepKeepsSame(at, s, ev, window);
      StepKeepsSame(at, s.Ready(ev).limits, ev, window);
      StepKeepsValid(s, ev);
      var e := Apply(Get(at, ev.key), ev).0;
      SweepingIsInvisible(Written(at, ev.key, e), s.Step(ev).0, evs[1..], ev.time, window);
    }
  }

  // ------------------------------------------------------------------ the sliding bound

  /** The times at which requests of one key go through. */
  function Admitted(e: Option<Entry>, limit: int, window: real, times: seq<real>): seq<real>
    decreases |times|
  {
    if times == [] then []
    else
      var (e', ok) := Counted(e, limit, window, times[0]);
      (if ok then [times[0]] else []) + Admitted(Some(e'), limit, window, times[1..])
  }

  function Within(times: seq<real>, a: real, b: real): nat {
    if times == [] then 0 else (if a <= times[0] <= b then 1 else 0) + Within(times[1..], a, b)
  }

  ghost predicate NonDecreasing(times: seq<real>, from: real) {
    times == [] || (from <= times[0] && NonDecreasing(times[1..], times[0]))
  }

  function Max(a: int, b: int): int {
    if a >= b then a else b
  }

  lemma WithinAdd(t: real, ok: bool, rest: seq<real>, a: real, b: real)
    ensures Within((if ok then [t] else []) + rest, a, b) == (if ok && a <= t <= b then 1 else 0) + Within(rest, a, b)
  {
    if ok { assert ([t] + rest)[1..] == rest; } else { assert [] + rest == rest; }
  }

  lemma {:induction false} NothingLate(e: Option<Entry>, limit: int, window: real, times: seq<real>,
                                       from: real, a: real, b: real)
    requires NonDecreasing(times, from) && from > b
    ensures Within(Admitted(e, limit, window, times), a, b) == 0
    decreases |times|
  {
    if times != [] {
      var (e', ok) := Counted(e, limit, window, times[0]);
      NothingLate(Some(e'), limit, window, times[1..], times[0], a, b);
      WithinAdd(times[0], ok, Admitted(Some(e'), limit, window, times[1..]), a, b);
    }
  }

  /** Once a window has opened inside the interval no other opens in it. */
  lemma {:induction false} WithinOneWindow(e: Entry, limit: int, window: real, times: seq<real>, from: real, a: real)
    requires NonDecreasing(times, from) && a <= e.start
    ensures Within(Admitted(Some(e), limit, window, times), a, a + window) <= Max(limit - e.count, 0)
    decreases |times|
  {
    if times != [] {
      var t := times[0];
      var (e', ok) := Counted(Some(e), limit, window, t);
      WithinAdd(t, ok, Admitted(Some(e'), limit, window, times[1..]), a, a + window);
      if t - e.start > window {
        NothingLate(Some(e'), limit, window, times[1..], t, a, a + window);
      } else {
        WithinOneWindow(e', limit, window, times[1..], t, a);
      }
    }
  }

  /** In the interval, in a window that opened before it: what is left of that window, and
      one window more. */
  lemma {:induction false} WithinOldWindow(e: Entry, limit: int, window: real, times: seq<real>, from: real, a: real)
    requires NonDecreasing(times, from) && a <= from
    ensures Within(Admitted(Some(e), limit, window, times), a, a + window) <= Max(limit, 1) + Max(limit - e.count, 0)
    decreases |times|
  {
    if times != [] {
      var t := times[0];
      var (e', ok) := Counted(Some(e), limit, window, t);
      WithinAdd(t, ok, Admitted(Some(e'), limit, window, times[1..]), a, a + window);
      if t - e.start > window {
        WithinOneWindow(e', limit, window, times[1..], t, a);
      } else {
        WithinOldWindow(e', limit, window, times[1..], t, a);
      }
    }
  }

  /** The request that opened a window and the last ones of the next are too far apart to fall
      in one interval: hence the one less. */
  lemma {:induction false} WithinAnyInterval(e: Option<Entry>, limit: int, window: real, times: seq<real>,
                                             from: real, a: real)
    requires NonDecreasing(times, from) && (e.Some? ==> e.value.count >= 1)
    ensures Within(Admitted(e, limit, window, times), a, a + window) <= 2 * Max(limit, 1) - 1
    decreases |times|
  {
    if times != [] {
      var t := times[0];
      var (e', ok) := Counted(e, limit, window, t);
      WithinAdd(t, ok, Admitted(Some(e'), limit, window, times[1..]), a, a + window);
      if t < a {
        WithinAnyInterval(Some(e'), limit, window, times[1..], t, a);
      } else if e.None? || t - e.value.start > window {
        WithinOneWindow(e', limit, window, times[1..], t, a);
      } else {
        WithinOldWindow(e', limit, window, times[1..], t, a);
      }
    }
  }

  function TimesOf(evs: seq<Event>, key: string): seq<real> {
    if evs == [] then [] else (if evs[0].key == key then [evs[0].time] else []) + TimesOf(evs[1..], key)
  }

  /** The times at which a run's calls on one key were answered yes. */
  function AllowedTimes(evs: seq<Event>, answers: seq<bool>, key: string): seq<real>
    requires |answers| == |evs|
  {
    if evs == [] then []
    else (if evs[0].key == key && answers[0] then [evs[0].time] else []) + AllowedTimes(evs[1..], answers[1..], key)
  }

  lemma {:induction false} RunLength(at: map<string, Entry>, evs: seq<Event>)
    ensures |RunPlain(at, evs)| == |evs|
    decreases |evs|
  {
    if evs != [] {
      RunLength(Written(at, evs[0].key, Apply(Get(at, evs[0].key), evs[0]).0), evs[1..]);
    }
  }

  /** Every call on `key` is a request counted against one limit and one window. */
  ghost predicate OnlyChecks(evs: seq<Event>, key: string, limit: int, window: real) {
    forall i :: 0 <= i < |evs| && evs[i].key == key
      ==> evs[i].Check? && evs[i].limit == limit && evs[i].window == window
  }

  /** The other keys of a run are nothing to this one. */
  lemma {:induction false} RunProjects(at: map<string, Entry>, evs: seq<Event>, key: string, limit: int, window: real)
    requires OnlyChecks(evs, key, limit, window)
    ensures |RunPlain(at, evs)| == |evs|
    ensures AllowedTimes(evs, RunPlain(at, evs), key) == Admitted(Get(at, key), limit, window, TimesOf(evs, key))
    decreases |evs|
  {
    RunLength(at, evs);
    if evs != [] {
      var ev := evs[0];
      var (e, answer) := Apply(Get(at, ev.key), ev);
      var at' := Written(at, ev.key, e);
      RunProjects(at', evs[1..], key, limit, window);
      assert RunPlain(at, evs)[1..] == RunPlain(at', evs[1..]);
      if ev.key == key {
        assert evs[0].Check?;
        assert ([ev.time] + TimesOf(evs[1..], key))[1..] == TimesOf(evs[1..], key);
      } else {
        assert Get(at', key) == Get(at, key);
        assert [] + TimesOf(evs[1..], key) == TimesOf(evs[1..], key);
      }
    }
  }

  lemma {:induction false} TimesInOrder(evs: seq<Event>, key: string, from: real, window: string -> real)
    requires Orderly(evs, from, window)
    ensures NonDecreasing(TimesOf(evs, key), from)
    decreases |evs|
  {
    if evs != [] {
      TimesInOrder(evs[1..], key, evs[0].time, window);
      var rest := TimesOf(evs[1..], key);
      if evs[0].key == key { assert ([evs[0].time] + rest)[1..] == rest; } else { assert [] + rest == rest; }
    }
  }

  /** The limit over a sliding interval: from an empty limiter, over any run of calls on any
      keys with no eviction, every closed interval as long as the window holds at most
      2 * limit - 1 admitted requests of one key (one, for a limit below one). */
  lemma SlidingBound(evs: seq<Event>, key: string, limit: int, window: string -> real, from: real, a: real)
    requires Orderly(evs, from, window) && OnlyChecks(evs, key, limit, window(key))
    requires NeverEvicts(State(Dict(map[], []), 0.0), evs)
    ensures var answers := Run(State(Dict(map[], []), 0.0), evs);
            && |answers| == |evs|
            && Within(AllowedTimes(evs, answers, key), a, a + window(key)) <= 2 * Max(limit, 1) - 1
  {
    SweepingIsInvisible(map[], State(Dict(map[], []), 0.0), evs, from, window);
    RunProjects(map[], evs, key, limit, window(key));
    TimesInOrder(evs, key, from, window);
    WithinAnyInterval(None, limit, window(key), TimesOf(evs, key), from, a);
  }

  function Copies(n: nat, t: real): seq<real> {
    if n == 0 then [] else [t] + Copies(n - 1, t)
  }

  lemma {:induction false} AdmitsCopies(e: Entry, limit: int, window: real, n: nat, t: real,
                                        more: seq<real>, a: real, b: real)
    requires t - e.start <= window && e.count + n <= limit && a <= t <= b
    ensures Within(Admitted(Some(e), limit, window, Copies(n, t) + more), a, b)
         == n + Within(Admitted(Some(e.(count := e.count + n, window := if n == 0 then e.window else window)),
                               limit, window, more), a, b)
    decreases n
  {
    if n == 0 {
      assert Copies(n, t) + more == more;
    } else {
      var e' := Entry(e.count + 1, e.start, window);
      assert (Copies(n, t) + more)[1..] == Copies(n - 1, t) + more;
      AdmitsCopies(e', limit, window, n - 1, t, more, a, b);
      WithinAdd(t, true, Admitted(Some(e'), limit, window, Copies(n - 1, t) + more), a, b);
    }
  }

  /** One request at zero, the rest of its window's when that closes, a full window later. */
  function Burst(limit: nat, window: real): seq<real>
    requires limit >= 1
  {
    [0.0] + (Copies(limit - 1, window) + ([2.0 * window] + Copies(limit - 1, 2.0 * window)))
  }

  lemma BurstInOrder(limit: nat, window: real)
    requires limit >= 1 && window > 0.0
    ensures NonDecreasing(Burst(limit, window), 0.0)
  {
    var late := 2.0 * window;
    var second := [late] + Copies(limit - 1, late);
    CopiesInOrder(limit - 1, late, [], late);
    assert Copies(limit - 1, late) + [] == Copies(limit - 1, late);
    assert second[1..] == Copies(limit - 1, late);
    CopiesInOrder(limit - 1, window, second, 0.0);
    assert Burst(limit, window)[1..] == Copies(limit - 1, window) + second;
  }

  lemma BurstReachesBound(limit: nat, window: real)
    requires limit >= 1 && window > 0.0
    ensures Within(Admitted(None, limit, window, Burst(limit, window)), window, window + window) == 2 * limit - 1
  {
    var times, late := Burst(limit, window), 2.0 * window;
    var second := [late] + Copies(limit - 1, late);
    assert times[1..] == Copies(limit - 1, window) + second && second[1..] == Copies(limit - 1, late);
    assert Copies(limit - 1, late) + [] == Copies(limit - 1, late);
    var e, again := Entry(1, 0.0, window), Entry(1, late, window);
    WithinAdd(0.0, true, Admitted(Some(e), limit, window, times[1..]), window, window + window);
    AdmitsCopies(e, limit, window, limit - 1, window, second, window, window + window);
    WithinAdd(late, true, Admitted(Some(again), limit, window, second[1..]), window, window + window);
    AdmitsCopies(again, limit, window, limit - 1, late, [], window, window + window);
  }

  lemma {:induction false} CopiesInOrder(n: nat, t: real, more: seq<real>, from: real)
    requires from <= t && NonDecreasing(more, t)
    ensures NonDecreasing(Copies(n, t) + more, from)
  {
    if n == 0 {
      assert Copies(n, t) + more == more;
    } else {
      assert (Copies(n, t) + more)[1..] == Copies(n - 1, t) + more;
      CopiesInOrder(n - 1, t, more, t);
    }
  }

  function Checks(times: seq<real>, key: string, limit: int, window: real): (evs: seq<Event>)
    ensures |evs| == |times| && forall i :: 0 <= i < |evs| ==> evs[i] == Check(times[i], key, limit, window)
  {
    if times == [] then [] else [Check(times[0], key, limit, window)] + Checks(times[1..], key, limit, window)
  }

  lemma {:induction false} ChecksHold(times: seq<real>, key: string, limit: int, window: real, from: real)
    requires NonDecreasing(times, from)
    ensures var evs := Checks(times, key, limit, window);
            Orderly(evs, from, _ => window) && TimesOf(evs, key) == times
  {
    if times != [] {
      ChecksHold(times[1..], key, limit, window, times[0]);
      assert Checks(times, key, limit, window)[1..] == Checks(times[1..], key, limit, window);
    }
  }

  /** A limiter that has seen one key never sweeps. */
  lemma {:induction false} OneKeyNeverEvicts(s: State, evs: seq<Event>, key: string)
    requires |s.limits.order| <= 1 && (s.limits.order == [] ==> key !in s.limits.at)
             && (s.limits.order != [] ==> key in s.limits.at)
    requires forall i :: 0 <= i < |evs| ==> evs[i].Check? && evs[i].key == key
    ensures NeverEvicts(s, evs)
    decreases |evs|
  {
    if evs != [] {
      assert evs[0].Check? && evs[0].key == key;
      assert s.Ready(evs[0]) == s;
      OneKeyNeverEvicts(s.Step(evs[0]).0, evs[1..], key);
    }
  }

  /** The bound cannot be lowered: for every limit and window some run of requests on an empty
      limiter, with nothing evicted, reaches it. */
  lemma SlidingBoundIsReached(key: string, limit: nat, window: real) returns (evs: seq<Event>, a: real)
    requires limit >= 1 && window > 0.0
    ensures Orderly(evs, 0.0, _ => window) && OnlyChecks(evs, key, limit, window)
    ensures NeverEvicts(State(Dict(map[], []), 0.0), evs)
    ensures var answers := Run(State(Dict(map[], []), 0.0), evs);
            |answers| == |evs| && Within(AllowedTimes(evs, answers, key), a, a + window) == 2 * limit - 1
  {
    var times := Burst(limit, window);
    a := window;
    BurstInOrder(limit, window);
    BurstReachesBound(limit, window);
    evs := Checks(times, key, limit, window);
    ChecksHold(times, key, limit, window, 0.0);
    OneKeyNeverEvicts(State(Dict(map[], []), 0.0), evs, key);
    SweepingIsInvisible(map[], State(Dict(map[], []), 0.0), evs, 0.0, _ => window);
    RunProjects(map[], evs, key, limit, window);
  }

  /** Each window opened admits at most the limit: in any run from any state, when the first
      request of a key opens a window, no more than `limit` are admitted until it closes (the
      opening one always is). */
  lemma EachWindowBound(s: State, evs: seq<Event>, key: string, limit: int, window: string -> real, from: real)
    requires s.limits.Valid() && forall k :: k in s.limits.at ==> s.limits.at[k].window == window(k)
    requires Orderly(evs, from, window) && OnlyChecks(evs, key, limit, window(key)) && NeverEvicts(s, evs)
    requires var times := TimesOf(evs, key);
             times != [] && (key in s.limits.at ==> s.limits.at[key].Expired(times[0]))
    ensures var times, answers := TimesOf(evs, key), Run(s, evs);
            && |answers| == |evs|
            && Within(AllowedTimes(evs, answers, key), times[0], times[0] + window(key)) <= Max(limit, 1)
  {
    SweepingIsInvisible(s.limits.at, s, evs, from, window);
    RunProjects(s.limits.at, evs, key, limit, window(key));
    TimesInOrder(evs, key, from, window);
    OpeningBound(Get(s.limits.at, key), limit, window(key), TimesOf(evs, key), from);
  }

  lemma OpeningBound(e: Option<Entry>, limit: int, window: real, times: seq<real>, from: real)
    requires times != [] && NonDecreasing(times, from)
             && (e.Some? ==> e.value.window == window && e.value.Expired(times[0]))
    ensures Within(Admitted(e, limit, window, times), times[0], times[0] + window) <= Max(limit, 1)
  {
    var t, first := times[0], Entry(1, times[0], window);
    assert Counted(e, limit, window, t) == (first, true);
    WithinAdd(t, true, Admitted(Some(first), limit, window, times[1..]), t, t + window);
    WithinOneWindow(first, limit, window, times[1..], t, t);
  }

  // ------------------------------------------------------------------ what is let through

  function AfterPlain(at: map<string, Entry>, evs: seq<Event>): map<string, Entry>
    decreases |evs|
  {
    if evs == [] then at else AfterPlain(Written(at, evs[0].key, Apply(Get(at, evs[0].key), evs[0]).0), evs[1..])
  }

  lemma {:induction false} PlainJoin(at: map<string, Entry>, a: seq<Event>, b: seq<Event>)
    ensures RunPlain(at, a + b) == RunPlain(at, a) + RunPlain(AfterPlain(at, a), b)
    decreases |a|
  {
    if a == [] {
      assert a + b == b;
    } else {
      assert (a + b)[1..] == a[1..] + b;
      PlainJoin(Written(at, a[0].key, Apply(Get(at, a[0].key), a[0]).0), a[1..], b);
    }
  }

  /** A request that is refused changes nothing that is ever seen: a run with it and one without it
      answer every other call alike. */
  lemma PlainRefusal(at: map<string, Entry>, before: seq<Event>, ev: Event, rest: seq<Event>)
    requires ev.Check? && |RunPlain(at, before + [ev] + rest)| > |before|
    requires !RunPlain(at, before + [ev] + rest)[|before|]
    ensures RunPlain(at, before + [ev] + rest)
         == RunPlain(at, before) + [false] + RunPlain(AfterPlain(at, before), rest)
    ensures RunPlain(at, before + rest) == RunPlain(at, before) + RunPlain(AfterPlain(at, before), rest)
  {
    hide *;
    var mid := AfterPlain(at, before);
    RunLength(at, before);
    assert before + [ev] + rest == before + ([ev] + rest);
    PlainJoin(at, before, [ev] + rest);
    PlainJoin(at, before, rest);
    RunOne(mid, ev, rest);
    assert RunPlain(at, before) + ([false] + RunPlain(mid, rest))
        == RunPlain(at, before) + [false] + RunPlain(mid, rest);
  }

  lemma RunOne(at: map<string, Entry>, ev: Event, rest: seq<Event>)
    requires ev.Check?
    ensures var run := RunPlain(at, [ev] + rest);
            run != [] && (!run[0] ==> run == [false] + RunPlain(at, rest))
  {
    assert ([ev] + rest)[1..] == rest;
    if !Apply(Get(at, ev.key), ev).1 { RefusedKeeps(at, ev); }
  }

  lemma RefusedKeeps(at: map<string, Entry>, ev: Event)
    requires ev.Check? && !Apply(Get(at, ev.key), ev).1
    ensures Written(at, ev.key, Apply(Get(at, ev.key), ev).0) == at
  {
  }

  /** So on the limiter that sweeps: over any orderly run with nothing evicted, with the refused
      request or without it, every other call is answered the same. */
  lemma RefusalLeavesNoTrace(at: map<string, Entry>, s: State, before: seq<Event>, ev: Event, rest: seq<Event>,
                             from: real, window: string -> real)
    requires s.limits.Valid() && SameButExpired(at, s.limits.at, from, window) && ev.Check?
    requires Orderly(before + [ev] + rest, from, window) && NeverEvicts(s, before + [ev] + rest)
    requires Orderly(before + rest, from, window) && NeverEvicts(s, before + rest)
    ensures |Run(s, before + [ev] + rest)| == |before| + 1 + |rest| && |Run(s, before + rest)| == |before| + |rest|
    ensures !Run(s, before + [ev] + rest)[|before|] ==>
              && Run(s, before + [ev] + rest)[..|before|] == Run(s, before + rest)[..|before|]
              && Run(s, before + [ev] + rest)[|before| + 1..] == Run(s, before + rest)[|before|..]
  {
    SweepingIsInvisible(at, s, before + [ev] + rest, from, window);
    SweepingIsInvisible(at, s, before + rest, from, window);
    RunLength(at, before + [ev] + rest);
    RunLength(at, before + rest);
    if !Run(s, before + [ev] + rest)[|before|] {
      RunLength(at, before);
      PlainRefusal(at, before, ev, rest);
    }
  }

  /** What an entry counts has been admitted since its window opened. */
  ghost predicate Backed(e: Option<Entry>, past: seq<real>, now: real) {
    e.Some? ==> 1 <= e.value.count <= Within(past, e.value.start, now) && e.value.start <= now
  }

  lemma {:induction false} WithinGrows(times: seq<real>, a: real, b: real, a': real, b': real)
    requires a' <= a && b <= b'
    ensures Within(times, a, b) <= Within(times, a', b')
  {
    if times != [] { WithinGrows(times[1..], a, b, a', b'); }
  }

  lemma {:induction false} WithinJoin(x: seq<real>, y: seq<real>, a: real, b: real)
    ensures Within(x + y, a, b) == Within(x, a, b) + Within(y, a, b)
  {
    if x == [] {
      assert x + y == y;
    } else {
      assert (x + y)[1..] == x[1..] + y;
      WithinJoin(x[1..], y, a, b);
    }
  }

  lemma BackedAfter(e: Option<Entry>, past: seq<real>, from: real, limit: int, window: real, now: real)
    requires Backed(e, past, from) && from <= now
    ensures var (e', ok) := Counted(e, limit, window, now); Backed(Some(e'), past + if ok then [now] else [], now)
    ensures !Counted(e, limit, window, now).1 ==> Within(past, now - window, now) >= Max(limit, 1)
  {
    var (e', ok) := Counted(e, limit, window, now);
    WithinJoin(past, if ok then [now] else [], e'.start, now);
    WithinAdd(now, ok, [], e'.start, now);
    assert (if ok then [now] else []) + [] == if ok then [now] else [];
    if e.Some? {
      WithinGrows(past, e.value.start, from, e.value.start, now);
      if !ok { WithinGrows(past, e.value.start, from, now - window, now); }
    }
  }

  lemma BackedNext(at: map<string, Entry>, ev: Event, past: seq<real>, from: real, key: string, limit: int,
                   window: real)
    requires Backed(Get(at, key), past, from) && from <= ev.time
    requires ev.key == key ==> ev.Check? && ev.limit == limit && ev.window == window
    ensures var (e, ok) := Apply(Get(at, ev.key), ev);
            Backed(Get(Written(at, ev.key, e), key), past + if ev.key == key && ok then [ev.time] else [], ev.time)
  {
    if ev.key == key {
      BackedAfter(Get(at, key), past, from, limit, window, ev.time);
    } else {
      assert past + [] == past;
      if key in at { WithinGrows(past, at[key].start, from, at[key].start, ev.time); }
    }
  }

  lemma {:induction false} RefusedFrom(at: map<string, Entry>, evs: seq<Event>, from: real, window: string -> real,
                                       key: string, limit: int, past: seq<real>, i: nat)
    requires Orderly(evs, from, window) && OnlyChecks(evs, key, limit, window(key)) && i < |evs| && evs[i].key == key
    requires Backed(Get(at, key), past, from)
    ensures |RunPlain(at, evs)| == |evs|
    ensures !RunPlain(at, evs)[i] ==>
              Within(past + AllowedTimes(evs[..i], RunPlain(at, evs)[..i], key), evs[i].time - window(key), evs[i].time)
              >= Max(limit, 1)
    decreases i
  {
    RunLength(at, evs);
    if i == 0 {
      RefusedAtOnce(at, evs, from, window, key, limit, past);
    } else {
      hide *;
      var ev, answers := evs[0], RunPlain(at, evs);
      var (e, ok) := Apply(Get(at, ev.key), ev);
      var at', rest := Written(at, ev.key, e), evs[1..];
      var now: seq<real> := if ev.key == key && ok then [ev.time] else [];
      RestOf(at, evs, from, window, key, limit);
      BackedNext(at, ev, past, from, key, limit, window(key));
      RefusedFrom(at', rest, ev.time, window, key, limit, past + now, i - 1);
      AllowedSplit(evs, answers, key, i);
      JoinAssoc(past, now, AllowedTimes(rest[..i - 1], answers[1..][..i - 1], key));
    }
  }

  lemma JoinAssoc(a: seq<real>, b: seq<real>, c: seq<real>)
    ensures a + (b + c) == (a + b) + c
  {
  }

  lemma RefusedAtOnce(at: map<string, Entry>, evs: seq<Event>, from: real, window: string -> real, key: string,
                      limit: int, past: seq<real>)
    requires Orderly(evs, from, window) && OnlyChecks(evs, key, limit, window(key)) && evs != [] && evs[0].key == key
    requires Backed(Get(at, key), past, from)
    ensures |RunPlain(at, evs)| == |evs|
    ensures !RunPlain(at, evs)[0] ==>
              Within(past + AllowedTimes(evs[..0], RunPlain(at, evs)[..0], key), evs[0].time - window(key), evs[0].time)
              >= Max(limit, 1)
  {
    RunLength(at, evs);
    assert evs[0].Check?;
    BackedAfter(Get(at, key), past, from, limit, window(key), evs[0].time);
    assert past + AllowedTimes(evs[..0], RunPlain(at, evs)[..0], key) == past;
  }

  lemma RestOf(at: map<string, Entry>, evs: seq<Event>, from: real, window: string -> real, key: string, limit: int)
    requires Orderly(evs, from, window) && OnlyChecks(evs, key, limit, window(key)) && evs != []
    ensures var (e, ok) := Apply(Get(at, evs[0].key), evs[0]);
            && |RunPlain(at, evs)| > 0 && RunPlain(at, evs)[0] == ok
            && RunPlain(at, evs)[1..] == RunPlain(Written(at, evs[0].key, e), evs[1..])
    ensures from <= evs[0].time && Orderly(evs[1..], evs[0].time, window)
    ensures OnlyChecks(evs[1..], key, limit, window(key))
    ensures evs[0].key == key ==> evs[0].Check? && evs[0].limit == limit && evs[0].window == window(key)
  {
  }

  lemma AllowedSplit(evs: seq<Event>, answers: seq<bool>, key: string, i: nat)
    requires |answers| == |evs| && 0 < i <= |evs|
    ensures AllowedTimes(evs[..i], answers[..i], key)
         == (if evs[0].key == key && answers[0] then [evs[0].time] else [])
            + AllowedTimes(evs[1..][..i - 1], answers[1..][..i - 1], key)
  {
    assert evs[..i][1..] == evs[1..][..i - 1] && answers[..i][1..] == answers[1..][..i - 1];
  }

  /** Nobody is refused who has not used the limit up: in every orderly run on an empty limiter a
      request is refused only where the limit has been admitted within one window before it. */
  lemma RefusedOnlyWhenFull(evs: seq<Event>, key: string, limit: int, window: string -> real, from: real, i: nat)
    requires Orderly(evs, from, window) && OnlyChecks(evs, key, limit, window(key))
    requires NeverEvicts(State(Dict(map[], []), 0.0), evs) && i < |evs| && evs[i].key == key
    ensures var answers := Run(State(Dict(map[], []), 0.0), evs);
            && |answers| == |evs|
            && (!answers[i] ==>
                  Within(AllowedTimes(evs[..i], answers[..i], key), evs[i].time - window(key), evs[i].time)
                  >= Max(limit, 1))
  {
    SweepingIsInvisible(map[], State(Dict(map[], []), 0.0), evs, from, window);
    RefusedFrom(map[], evs, from, window, key, limit, [], i);
    var times := AllowedTimes(evs[..i], RunPlain(map[], evs)[..i], key);
    assert [] + times == times;
  }

  /** So a request more than the window after the last one admitted is admitted. */
  lemma AdmittedAfterAPause(evs: seq<Event>, key: string, limit: int, window: string -> real, from: real, i: nat)
    requires Orderly(evs, from, window) && OnlyChecks(evs, key, limit, window(key))
    requires NeverEvicts(State(Dict(map[], []), 0.0), evs) && i < |evs| && evs[i].key == key
    ensures var answers := Run(State(Dict(map[], []), 0.0), evs);
            && |answers| == |evs|
            && ((forall j :: 0 <= j < i && evs[j].key == key && answers[j] ==> evs[i].time - evs[j].time > window(key))
                ==> answers[i])
  {
    RefusedOnlyWhenFull(evs, key, limit, window, from, i);
    var answers := Run(State(Dict(map[], []), 0.0), evs);
    if forall j :: 0 <= j < i && evs[j].key == key && answers[j] ==> evs[i].time - evs[j].time > window(key) {
      NoneWithin(evs[..i], answers[..i], key, evs[i].time - window(key), evs[i].time);
    }
  }

  lemma {:induction false} NoneWithin(evs: seq<Event>, answers: seq<bool>, key: string, a: real, b: real)
    requires |answers| == |evs|
    requires forall j :: 0 <= j < |evs| && evs[j].key == key && answers[j] ==> evs[j].time < a
    ensures Within(AllowedTimes(evs, answers, key), a, b) == 0
  {
    if evs != [] {
      NoneWithin(evs[1..], answers[1..], key, a, b);
      WithinAdd(evs[0].time, evs[0].key == key && answers[0], AllowedTimes(evs[1..], answers[1..], key), a, b);
    }
  }

  // ------------------------------------------------------------------ failures

  function FailuresOf(evs: seq<Event>, key: string): nat {
    if evs == [] then 0 else FailuresOf(evs[1..], key) + if evs[0].key == key && evs[0].Fail? then 1 else 0
  }

  ghost predicate OnlyFailures(evs: seq<Event>, key: string) {
    forall i :: 0 <= i < |evs| && evs[i].key == key ==> evs[i].Fail? || evs[i].Ask?
  }

  lemma {:induction false} AskFrom(at: map<string, Entry>, evs: seq<Event>, from: real, window: string -> real,
                                   key: string, e: Entry, i: nat)
    requires Orderly(evs, from, window) && OnlyFailures(evs, key) && Get(at, key) == Some(e)
    requires e.window == window(key) && i < |evs| && evs[i].key == key && evs[i].Ask?
    requires evs[i].time - e.start <= window(key)
    ensures |RunPlain(at, evs)| == |evs|
    ensures RunPlain(at, evs)[i] <==> e.count + FailuresOf(evs[..i], key) >= evs[i].limit
    decreases i
  {
    RunLength(at, evs);
    if i > 0 {
      var ev := evs[0];
      var at' := Written(at, ev.key, Apply(Get(at, ev.key), ev).0);
      OrderlyReaches(evs, from, window, i);
      assert evs[..i][1..] == evs[1..][..i - 1];
      assert RunPlain(at, evs)[i] == RunPlain(at', evs[1..])[i - 1];
      AskFrom(at', evs[1..], ev.time, window, key, if ev.key == key then Apply(Some(e), ev).0.value else e, i - 1);
    }
  }

  lemma {:induction false} OrderlyReaches(evs: seq<Event>, from: real, window: string -> real, i: nat)
    requires Orderly(evs, from, window) && i < |evs|
    ensures evs[0].time <= evs[i].time
    decreases i
  {
    if i > 0 {
      assert Orderly(evs[1..], evs[0].time, window);
      if i > 1 { OrderlyReaches(evs[1..], evs[0].time, window, i - 1); }
    }
  }

  /** Failures count: from the failure that opens a window until that closes, asking about the
      identity answers yes exactly from the limit-th failure on. */
  lemma FailuresCount(s: State, evs: seq<Event>, key: string, window: string -> real, from: real, i: nat)
    requires s.limits.Valid() && forall k :: k in s.limits.at ==> s.limits.at[k].window == window(k)
    requires Orderly(evs, from, window) && OnlyFailures(evs, key) && NeverEvicts(s, evs)
    requires 0 < i < |evs| && evs[0].key == key && evs[0].Fail? && evs[i].key == key && evs[i].Ask?
    requires key in s.limits.at ==> s.limits.at[key].Expired(evs[0].time)
    requires evs[i].time <= evs[0].time + window(key)
    ensures |Run(s, evs)| == |evs|
    ensures Run(s, evs)[i] <==> FailuresOf(evs[..i], key) >= evs[i].limit
  {
    SweepingIsInvisible(s.limits.at, s, evs, from, window);
    RunLength(s.limits.at, evs);
    var first := Entry(1, evs[0].time, window(key));
    var at' := Written(s.limits.at, key, Some(first));
    assert RunPlain(s.limits.at, evs)[i] == RunPlain(at', evs[1..])[i - 1];
    assert evs[..i][1..] == evs[1..][..i - 1];
    AskFrom(at', evs[1..], evs[0].time, window, key, first, i - 1);
  }

  /** No call on the key that could write an entry for it. */
  ghost predicate NothingWritten(evs: seq<Event>, key: string) {
    forall i :: 0 <= i < |evs| && evs[i].key == key ==> evs[i].Ask? || evs[i].Clear?
  }

  /** A window that has closed, or an identity that has been cleared, answers no until it fails
      again. */
  lemma {:induction false} NothingHeld(at: map<string, Entry>, evs: seq<Event>, from: real, window: string -> real,
                                       key: string, i: nat)
    requires Orderly(evs, from, window) && NothingWritten(evs, key) && i < |evs| && evs[i].key == key && evs[i].Ask?
    requires key in at ==> at[key].Expired(evs[i].time)
    ensures |RunPlain(at, evs)| == |evs| && !RunPlain(at, evs)[i]
    decreases i
  {
    RunLength(at, evs);
    if i > 0 {
      var ev := evs[0];
      var at' := Written(at, ev.key, Apply(Get(at, ev.key), ev).0);
      assert RunPlain(at, evs)[i] == RunPlain(at', evs[1..])[i - 1];
      NothingHeld(at', evs[1..], ev.time, window, key, i - 1);
    }
  }

  /** So a login that succeeds, which clears its identity, is forgiven every failure before it. */
  lemma ClearForgives(s: State, evs: seq<Event>, key: string, window: string -> real, from: real, i: nat)
    requires s.limits.Valid() && forall k :: k in s.limits.at ==> s.limits.at[k].window == window(k)
    requires Orderly(evs, from, window) && NeverEvicts(s, evs) && 0 < i < |evs|
    requires evs[0] == Clear(evs[0].time, key) && NothingWritten(evs, key) && evs[i].key == key && evs[i].Ask?
    ensures |Run(s, evs)| == |evs| && !Run(s, evs)[i]
  {
    SweepingIsInvisible(s.limits.at, s, evs, from, window);
    RunLength(s.limits.at, evs);
    var at' := Written(s.limits.at, key, None);
    assert RunPlain(s.limits.at, evs)[i] == RunPlain(at', evs[1..])[i - 1];
    NothingHeld(at', evs[1..], evs[0].time, window, key, i - 1);
  }

  /** Identities fail separately unless they agree in their first 255 characters, and no failure is
      counted under a key that does not say it is one. */
  lemma FailureKeysTell(a: string, b: string, key: string)
    ensures FailureKey(a) == FailureKey(b) <==> a == b || (|a| >= 255 && |b| >= 255 && a[..255] == b[..255])
    ensures !("failure:" <= key) ==> FailureKey(a) != key
  {
    var x, y := FailureKey(a)[|"failure:"|..], FailureKey(b)[|"failure:"|..];
    assert FailureKey(a) == "failure:" + x && FailureKey(b) == "failure:" + y;
    assert a[..|a|] == a && b[..|b|] == b;
  }

  // ------------------------------------------------------------------ how much it remembers

  /** Memory is bounded: a counted call more than thirty seconds after the last sweep leaves at most
      a hundred thousand entries and its own, and one within thirty seconds adds at most its own. */
  lemma MemoryIsBounded(s: State, ev: Event)
    requires s.limits.Valid() && Sweeps(ev)
    ensures var t := s.Step(ev).0;
            && |t.limits.order| <= |s.limits.order| + 1
            && (ev.time - s.lastSweep > 30.0 ==> |t.limits.order| <= 100_001)
            && (|t.limits.order| < |s.limits.order| || t.lastSweep != s.lastSweep ==>
                  t.lastSweep == ev.time > s.lastSweep + 30.0)
  {
    if SweepDue(s.limits, s.lastSweep, ev.time) {
      SweepProperties(s.limits, ev.time);
      FewerLive(s.limits.at, s.limits.order, ev.time);
    }
  }

  lemma {:induction false} FewerLive(at: map<string, Entry>, order: seq<string>, now: real)
    ensures |LiveKeys(at, order, now)| <= |order|
  {
    if order != [] { FewerLive(at, order[1..], now); }
  }
}
