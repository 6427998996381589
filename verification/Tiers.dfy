/** The ladder of membership tiers of one organization (app/models/tier.py), and the move it
    shares with discussion groups (app/models/discussion.py).

    A row's id is its index in the table. Names and slugs arrive stripped and lower-cased. */
module Tiers {
  import opened Ordering
  import opened Wrappers

  const SLUG_MAX := 30
  const NAME_MAX := 50
  const DEFAULT_NAME := "Free"
  const DEFAULT_SLUG := "free"

  datatype Tier = Tier(name: string, slug: string, rank: int, isActive: bool)

  datatype Refusal = NameRequired | NameTooLong | BadSlug | SlugTaken | MustKeepATier

  predicate SlugChar(c: char) {
    'a' <= c <= 'z' || '0' <= c <= '9' || c == '-'
  }

  predicate ValidSlug(s: string) {
    && 1 <= |s| <= SLUG_MAX && s[0] != '-'
    && forall k :: 0 <= k < |s| ==> SlugChar(s[k])
  }

  function FindSlug(rows: seq<Tier>, slug: string): (id: Option<nat>)
    ensures id.Some? ==> id.value < |rows| && rows[id.value].slug == slug
    ensures id.None? ==> forall k :: 0 <= k < |rows| ==> rows[k].slug != slug
  {
    if rows == [] then None
    else if rows[|rows| - 1].slug == slug then Some(|rows| - 1)
    else FindSlug(rows[..|rows| - 1], slug)
  }

  // ------------------------------------------------------------------ the order

  function Ranks(rows: seq<Tier>): Keys {
    map id: nat | id < |rows| :: rows[id].rank
  }

  /** What the ladder query answers: the rows by rank, then id. */
  function Order(rows: seq<Tier>): (ids: seq<nat>)
    ensures |ids| == |rows| && Sorted(Ranks(rows), ids)
    ensures forall id: nat :: id in ids <==> id < |rows|
  {
    var all: seq<nat> := seq(|rows|, (id: nat) => id);
    assert forall id: nat :: id in all <==> id < |rows| && all[id] == id;
    Sort(Ranks(rows), all)
  }

  // ------------------------------------------------------------------ moving

  function Swap(ids: seq<nat>, j: nat, k: nat): seq<nat>
    requires j < |ids| && k < |ids|
  {
    ids[j := ids[k]][k := ids[j]]
  }

  /** Where `id` trades places: its neighbour below or above, or nowhere at either end. */
  function Neighbour(ids: seq<nat>, id: nat, direction: int): Option<nat>
    requires id in ids
  {
    var there := IndexOf(ids, id) + if direction < 0 then -1 else 1;
    if 0 <= there < |ids| then Some(there) else None
  }

  /** The order a move is meant to leave. */
  function MovedOrder(ids: seq<nat>, id: nat, direction: int): seq<nat>
    requires id in ids
  {
    var there := Neighbour(ids, id, direction);
    if there.Some? then Swap(ids, IndexOf(ids, id), there.value) else ids
  }

  /** Every row has its place in `ids`, counted from one, as its rank and is otherwise
      unchanged. */
  ghost predicate RankedBy(before: seq<Tier>, after: seq<Tier>, ids: seq<nat>) {
    && |after| == |before| == |ids|
    && (forall k :: 0 <= k < |ids| ==> ids[k] < |before| && after[ids[k]].rank == k + 1)
    && (forall id :: 0 <= id < |before| ==> after[id].(rank := before[id].rank) == before[id])
  }

  lemma RankedIsSorted(before: seq<Tier>, after: seq<Tier>, ids: seq<nat>)
    requires RankedBy(before, after, ids) && forall id: nat :: id in ids <==> id < |before|
    ensures Order(after) == ids
    ensures forall a, b :: 0 <= a < |after| && 0 <= b < |after| && a != b ==> after[a].rank != after[b].rank
  {
    SortedIsUnique(Ranks(after), Order(after), ids);
    forall a, b | 0 <= a < |after| && 0 <= b < |after| && a != b ensures after[a].rank != after[b].rank {
      assert (a as nat) in ids && (b as nat) in ids;
    }
  }

  lemma SwapKeeps(ids: seq<nat>, j: nat, k: nat)
    requires j < |ids| && k < |ids|
    ensures forall x :: x in Swap(ids, j, k) <==> x in ids
  {
    var s := Swap(ids, j, k);
    forall x | x in ids ensures x in s {
      var i :| 0 <= i < |ids| && ids[i] == x;
      assert s[if i == j then k else if i == k then j else i] == x;
    }
  }

  // ------------------------------------------------------------------ the ladder

  function CountActive(rows: seq<Tier>): nat {
    if rows == [] then 0 else CountActive(rows[..|rows| - 1]) + if rows[|rows| - 1].isActive then 1 else 0
  }

  ghost predicate DistinctRanks(rows: seq<Tier>) {
    forall a, b :: 0 <= a < b < |rows| ==> rows[a].rank != rows[b].rank
  }

  ghost predicate DistinctSlugs(rows: seq<Tier>) {
    forall a, b :: 0 <= a < b < |rows| ==> rows[a].slug != rows[b].slug
  }

  /** What every run of operations keeps, from an empty ladder on. */
  ghost predicate GoodLadder(rows: seq<Tier>) {
    && DistinctRanks(rows) && DistinctSlugs(rows)
    && (forall k :: 0 <= k < |rows| ==> ValidSlug(rows[k].slug) && 1 <= |rows[k].name| <= NAME_MAX)
    && (rows != [] ==> CountActive(rows) >= 1)
  }

  function HighestRank(rows: seq<Tier>): (r: int)
    ensures forall k :: 0 <= k < |rows| ==> rows[k].rank <= r
    ensures rows != [] ==> exists k :: 0 <= k < |rows| && rows[k].rank == r
    ensures rows == [] ==> r == 0
  {
    if rows == [] then 0
    else
      var rest := rows[..|rows| - 1];
      var r, last := HighestRank(rest), rows[|rows| - 1].rank;
      assert forall k :: 0 <= k < |rest| ==> rest[k] == rows[k];
      if rest == [] || last > r then last else r
  }

  function Validate(rows: seq<Tier>, name: string, slug: string): Option<Refusal> {
    if name == "" then Some(NameRequired)
    else if |name| > NAME_MAX then Some(NameTooLong)
    else if !ValidSlug(slug) then Some(BadSlug)
    else if FindSlug(rows, slug).Some? then Some(SlugTaken)
    else None
  }

  lemma {:induction false} ActiveUpdate(rows: seq<Tier>, id: nat, t: Tier)
    requires id < |rows|
    ensures CountActive(rows[id := t])
         == CountActive(rows) - (if rows[id].isActive then 1 else 0) + (if t.isActive then 1 else 0)
  {
    var n := |rows| - 1;
    if id == n {
      assert rows[id := t][..n] == rows[..n];
    } else {
      assert rows[id := t][..n] == rows[..n][id := t];
      ActiveUpdate(rows[..n], id, t);
    }
  }

  lemma {:induction false} ActiveSame(a: seq<Tier>, b: seq<Tier>)
    requires |a| == |b| && forall k :: 0 <= k < |a| ==> a[k].isActive == b[k].isActive
    ensures CountActive(a) == CountActive(b)
  {
    if a != [] { ActiveSame(a[..|a| - 1], b[..|b| - 1]); }
  }

  lemma {:induction false} SomeActive(rows: seq<Tier>)
    ensures CountActive(rows) > 0 <==> exists k :: 0 <= k < |rows| && rows[k].isActive
  {
    if rows != [] {
      var rest := rows[..|rows| - 1];
      SomeActive(rest);
      assert forall k :: 0 <= k < |rest| ==> rest[k] == rows[k];
      if CountActive(rest) > 0 {
        var k :| 0 <= k < |rest| && rest[k].isActive;
        assert rows[k].isActive;
      } else if rows[|rows| - 1].isActive {
      }
    }
  }

  /** Which names and slugs a new tier may have: any name of one to fifty characters, and a slug of at
      most thirty lower-case letters, digits and hyphens, no hyphen first, that no tier has. */
  lemma AddSucceedsExactly(rows: seq<Tier>, name: string, slug: string)
    ensures Validate(rows, name, slug).None? <==>
            && 1 <= |name| <= 50 && 1 <= |slug| <= 30 && slug[0] != '-'
            && (forall k :: 0 <= k < |slug| ==> 'a' <= slug[k] <= 'z' || '0' <= slug[k] <= '9' || slug[k] == '-')
            && forall k :: 0 <= k < |rows| ==> rows[k].slug != slug
  {
  }

  lemma AddKeepsGood(rows: seq<Tier>, name: string, slug: string)
    requires GoodLadder(rows) && Validate(rows, name, slug).None?
    ensures GoodLadder(rows + [Tier(name, slug, HighestRank(rows) + 1, true)])
  {
    TopKeepsGood(rows, Tier(name, slug, HighestRank(rows) + 1, true));
  }

  lemma TopKeepsGood(rows: seq<Tier>, top: Tier)
    requires GoodLadder(rows) && ValidSlug(top.slug) && 1 <= |top.name| <= NAME_MAX && top.isActive
    requires forall k :: 0 <= k < |rows| ==> rows[k].rank < top.rank && rows[k].slug != top.slug
    ensures GoodLadder(rows + [top])
  {
    hide ValidSlug;
    var after := rows + [top];
    assert after[..|after| - 1] == rows;
    assert forall k :: 0 <= k < |rows| ==> after[k] == rows[k];
    assert after[|rows|] == top;
  }

  class Ladder {
    var rows: seq<Tier>

    constructor ()
      ensures rows == []
    {
      rows := [];
    }

    /** The lowest active tier, created if there is none. */
    method EnsureDefault() returns (id: nat)
      requires GoodLadder(rows)
      modifies this
      ensures GoodLadder(rows) && id < |rows|
      ensures old(rows) != [] ==> rows == old(rows)
      ensures old(rows) == [] ==> rows == [Tier("Free", "free", 1, true)]
      ensures rows[id].isActive && forall k :: 0 <= k < |rows| && rows[k].isActive ==> rows[id].rank <= rows[k].rank
    {
      SomeActive(rows);
      var ids := Order(rows);
      var k := 0;
      while k < |ids|
        invariant 0 <= k <= |ids|
        invariant forall j :: 0 <= j < k ==> !rows[ids[j]].isActive
      {
        if rows[ids[k]].isActive {
          forall i | 0 <= i < |rows| && rows[i].isActive ensures rows[ids[k]].rank <= rows[i].rank {
            assert (i as nat) in ids;
          }
          return ids[k];
        }
        k := k + 1;
      }
      forall i: nat | i < |rows| ensures !rows[i].isActive {
        assert i in ids;
        var j :| 0 <= j < |ids| && ids[j] == i;
      }
      rows := [Tier(DEFAULT_NAME, DEFAULT_SLUG, 1, true)];
      id := 0;
    }

    /** A new tier at the top of the ladder. */
    method Add(name: string, slug: string) returns (r: Result<nat, Refusal>)
      requires GoodLadder(rows)
      modifies this
      ensures GoodLadder(rows)
      ensures var bad := Validate(old(rows), name, slug);
              if bad.Some? then r == Err(bad.value) && rows == old(rows)
              else r == Ok(|old(rows)|) && rows == old(rows) + [Tier(name, slug, HighestRank(old(rows)) + 1, true)]
    {
      hide GoodLadder, Validate, HighestRank;
      var bad := Validate(rows, name, slug);
      if bad.Some? {
        return Err(bad.value);
      }
      AddKeepsGood(rows, name, slug);
      var rank := HighestRank(rows) + 1;
      r := Ok(|rows|);
      rows := rows + [Tier(name, slug, rank, true)];
    }

    method Retire(id: nat) returns (r: Result<(), Refusal>)
      requires GoodLadder(rows) && id < |rows|
      modifies this
      ensures GoodLadder(rows)
      ensures if CountActive(old(rows)) <= 1 then r == Err(MustKeepATier) && rows == old(rows)
              else r == Ok(()) && rows == old(rows)[id := old(rows)[id].(isActive := false)]
    {
      if CountActive(rows) <= 1 {
        return Err(MustKeepATier);
      }
      ActiveUpdate(rows, id, rows[id].(isActive := false));
      rows := rows[id := rows[id].(isActive := false)];
      r := Ok(());
    }

    method Restore(id: nat)
      requires GoodLadder(rows) && id < |rows|
      modifies this
      ensures GoodLadder(rows)
      ensures rows == old(rows)[id := old(rows)[id].(isActive := true)]
    {
      ActiveUpdate(rows, id, rows[id].(isActive := true));
      rows := rows[id := rows[id].(isActive := true)];
    }

    method Renumber()
      modifies this
      ensures RankedBy(old(rows), rows, Order(old(rows)))
    {
      ghost var was := rows;
      var ids := Order(rows);
      var index := 0;
      while index < |ids|
        invariant 0 <= index <= |ids| == |rows| == |was|
        invariant forall k :: 0 <= k < index ==> rows[ids[k]].rank == k + 1
        invariant forall i :: 0 <= i < |was| ==> rows[i].(rank := was[i].rank) == was[i]
      {
        assert forall k :: 0 <= k < index ==> Before(Ranks(was), ids[k], ids[index]);
        rows := rows[ids[index] := rows[ids[index]].(rank := index + 1)];
        index := index + 1;
      }
    }

    /** Renumber the whole ladder 1..n in its order, then swap with the neighbour. Nothing is
        asked of the ranks it finds: they may be tied. */
    method Move(id: nat, direction: int)
      requires id < |rows|
      modifies this
      ensures RankedBy(old(rows), rows, MovedOrder(Order(old(rows)), id, direction))
      ensures GoodLadder(old(rows)) ==> GoodLadder(rows)
    {
      ghost var was := rows;
      var ids := Order(rows);
      Renumber();
      var here: int := IndexOf(ids, id);
      var there := here + if direction < 0 then -1 else 1;
      if 0 <= there < |ids| {
        var neighbour := ids[there];
        SwapRanks(was, rows, ids, here, there);
        rows := rows[id := rows[id].(rank := rows[neighbour].rank)]
                    [neighbour := rows[neighbour].(rank := rows[id].rank)];
      }
      MovedIsGood(was, rows, id, direction);
    }
  }

  /** Trading two rows' ranks trades their places. */
  lemma SwapRanks(was: seq<Tier>, mid: seq<Tier>, ids: seq<nat>, j: nat, k: nat)
    requires RankedBy(was, mid, ids) && j < |ids| && k < |ids| && j != k
    ensures var a, b := ids[j], ids[k];
            RankedBy(was, mid[a := mid[a].(rank := mid[b].rank)][b := mid[b].(rank := mid[a].rank)], Swap(ids, j, k))
  {
    var a, b := ids[j], ids[k];
    assert mid[a].rank == j + 1 && mid[b].rank == k + 1;
    forall i | 0 <= i < |ids| && i != j && i != k ensures ids[i] != a && ids[i] != b {
      assert mid[ids[i]].rank == i + 1;
    }
  }

  /** What a move leaves: the ranks are 1..n, the new order is the old one with at most two
      neighbours swapped, and a good ladder stays good. */
  lemma MovedIsGood(before: seq<Tier>, after: seq<Tier>, id: nat, direction: int)
    requires id < |before| && RankedBy(before, after, MovedOrder(Order(before), id, direction))
    ensures Order(after) == MovedOrder(Order(before), id, direction)
    ensures DistinctRanks(after) && forall k :: 0 <= k < |after| ==> 1 <= after[k].rank <= |after|
    ensures GoodLadder(before) ==> GoodLadder(after)
  {
    var ids, order := Order(before), MovedOrder(Order(before), id, direction);
    var there := Neighbour(ids, id, direction);
    if there.Some? { SwapKeeps(ids, IndexOf(ids, id), there.value); }
    RankedIsSorted(before, after, order);
    forall k: nat | k < |after| ensures 1 <= after[k].rank <= |after| {
      assert k in order;
      var j :| 0 <= j < |order| && order[j] == k;
    }
    RerankedIsGood(before, after, order);
  }

  /** Which way a move goes: down by one place for a negative direction, up by one otherwise, and
      nowhere past either end. */
  lemma MoveGoesAsAsked(before: seq<Tier>, after: seq<Tier>, id: nat, direction: int)
    requires id < |before| && RankedBy(before, after, MovedOrder(Order(before), id, direction))
    ensures var place := IndexOf(Order(before), id) + 1;
            && id < |after|
            && (direction < 0 ==> after[id].rank == if place == 1 then 1 else place - 1)
            && (direction >= 0 ==> after[id].rank == if place == |before| then place else place + 1)
  {
    var ids, order := Order(before), MovedOrder(Order(before), id, direction);
    var there := Neighbour(ids, id, direction);
    var place: nat := if there.Some? then there.value else IndexOf(ids, id);
    assert order[place] == id;
  }

  /** A move and the move back leave the order as it was, where the first one moved anything. */
  lemma MoveAndBack(before: seq<Tier>, mid: seq<Tier>, after: seq<Tier>, id: nat, up: bool)
    requires id < |before| == |mid|
    requires RankedBy(before, mid, MovedOrder(Order(before), id, if up then 1 else -1))
    requires RankedBy(mid, after, MovedOrder(Order(mid), id, if up then -1 else 1))
    requires Neighbour(Order(before), id, if up then 1 else -1).Some?
    ensures Order(after) == Order(before)
  {
    var ids := Order(before);
    var here, there := IndexOf(ids, id), Neighbour(ids, id, if up then 1 else -1).value;
    hide RankedBy, Order, GoodLadder, DistinctRanks;
    MovedIsGood(before, mid, id, if up then 1 else -1);
    MovedIsGood(mid, after, id, if up then -1 else 1);
    SortedIsDistinct(Ranks(before), ids);
    SwapBack(ids, id, here, there);
    assert Order(mid) == Swap(ids, here, there);
  }

  lemma SwapBack(ids: seq<nat>, id: nat, here: nat, there: nat)
    requires here < |ids| && there < |ids| && Distinct(ids) && ids[here] == id
    ensures id in Swap(ids, here, there) && IndexOf(Swap(ids, here, there), id) == there
    ensures Swap(Swap(ids, here, there), there, here) == ids
  {
    SwapIsAt(ids, here, there);
  }

  lemma SwapIsAt(ids: seq<nat>, j: nat, k: nat)
    requires j < |ids| && k < |ids| && Distinct(ids)
    ensures ids[j] in Swap(ids, j, k) && IndexOf(Swap(ids, j, k), ids[j]) == k
  {
    var s := Swap(ids, j, k);
    assert s[k] == ids[j];
    var at := IndexOf(s, ids[j]);
    assert s[at] == ids[if at == j then k else if at == k then j else at];
  }

  lemma RerankedIsGood(before: seq<Tier>, after: seq<Tier>, order: seq<nat>)
    requires RankedBy(before, after, order) && DistinctRanks(after)
    ensures GoodLadder(before) ==> GoodLadder(after)
  {
    forall k | 0 <= k < |before|
      ensures after[k].slug == before[k].slug && after[k].name == before[k].name
              && after[k].isActive == before[k].isActive
    {
      assert after[k].(rank := before[k].rank) == before[k];
    }
    ActiveSame(before, after);
  }

  // ------------------------------------------------------------------ runs

  datatype Op = Default | AddTier(name: string, slug: string) | MoveTier(id: nat, direction: int)
              | RetireTier(id: nat) | RestoreTier(id: nat)

  /** One call on the ladder, refused or not, takes it from `before` to `after`. */
  ghost predicate Steps(before: seq<Tier>, after: seq<Tier>, op: Op) {
    match op
    case Default =>
      after == if before == [] then [Tier(DEFAULT_NAME, DEFAULT_SLUG, 1, true)] else before
    case AddTier(name, slug) =>
      after == if Validate(before, name, slug).Some? then before
               else before + [Tier(name, slug, HighestRank(before) + 1, true)]
    case MoveTier(id, direction) =>
      id < |before| && RankedBy(before, after, MovedOrder(Order(before), id, direction))
    case RetireTier(id) =>
      id < |before|
      && after == if CountActive(before) <= 1 then before else before[id := before[id].(isActive := false)]
    case RestoreTier(id) =>
      id < |before| && after == before[id := before[id].(isActive := true)]
  }

  lemma StepKeepsGood(before: seq<Tier>, after: seq<Tier>, op: Op)
    requires GoodLadder(before) && Steps(before, after, op)
    ensures GoodLadder(after) && |after| >= |before|
            && forall k :: 0 <= k < |before| ==> after[k].slug == before[k].slug
  {
    match op
    case Default => if before == [] { DefaultIsGood(); }
    case AddTier(name, slug) => if Validate(before, name, slug).None? { AddKeepsGood(before, name, slug); }
    case MoveTier(id, direction) => MoveKeepsGood(before, after, id, direction);
    case RetireTier(id) => if CountActive(before) > 1 { SwitchKeepsGood(before, id, false); }
    case RestoreTier(id) => SwitchKeepsGood(before, id, true);
  }

  lemma DefaultIsGood()
    ensures GoodLadder([Tier(DEFAULT_NAME, DEFAULT_SLUG, 1, true)])
  {
  }

  lemma SwitchKeepsGood(before: seq<Tier>, id: nat, active: bool)
    requires GoodLadder(before) && id < |before| && (active || CountActive(before) > 1)
    ensures GoodLadder(before[id := before[id].(isActive := active)])
  {
    ActiveUpdate(before, id, before[id].(isActive := active));
  }

  lemma MoveKeepsGood(before: seq<Tier>, after: seq<Tier>, id: nat, direction: int)
    requires id < |before| && GoodLadder(before)
    requires RankedBy(before, after, MovedOrder(Order(before), id, direction))
    ensures GoodLadder(after) && |after| == |before|
            && forall k :: 0 <= k < |before| ==> after[k].slug == before[k].slug
  {
    MovedIsGood(before, after, id, direction);
    assert forall k :: 0 <= k < |before| ==> after[k].(rank := before[k].rank) == before[k];
  }

  /** From an empty ladder every run of calls keeps the ranks and the slugs distinct and, once
      there is a tier, one of them active; and no tier is ever dropped or renamed in its slug. */
  lemma {:induction false} RunKeepsGood(states: seq<seq<Tier>>, ops: seq<Op>)
    requires |states| == |ops| + 1 && GoodLadder(states[0])
    requires forall k :: 0 <= k < |ops| ==> Steps(states[k], states[k + 1], ops[k])
    ensures var last := states[|ops|];
            && GoodLadder(last) && |last| >= |states[0]|
            && forall k :: 0 <= k < |states[0]| ==> last[k].slug == states[0][k].slug
    decreases |ops|
  {
    if ops != [] {
      StepKeepsGood(states[0], states[1], ops[0]);
      RunKeepsGood(states[1..], ops[1..]);
    }
  }
}
