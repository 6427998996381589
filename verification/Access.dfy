/** The read rule and its forms (app/platform/authz.py), and the listings built on it
    (app/models/content.py, app/models/organization.py). */
module Access {
  import opened Wrappers
  import opened Ordering
  import opened Tiers

  const PUBLIC := "public"
  const MEMBERS := "members"
  const TIER_PREFIX := "tier:"

  datatype Role = Owner | Admin | Member | OtherRole

  /** An active membership of the organization in force, and the row of the ladder it is on. */
  datatype Membership = Membership(role: Role, tier: Option<nat>)

  datatype Viewer = NoRequest | Visitor(platformAdmin: bool, membership: Option<Membership>)

  /** Owners and admins hold content.write and content.moderate, members neither. */
  predicate Publishes(role: Role) {
    role.Owner? || role.Admin?
  }

  function TierSlug(visibility: string): Option<string> {
    if TIER_PREFIX <= visibility && |visibility| > |TIER_PREFIX| then Some(visibility[|TIER_PREFIX|..]) else None
  }

  function HeldRank(rows: seq<Tier>, m: Membership): Option<int> {
    if m.tier.Some? && m.tier.value < |rows| then Some(rows[m.tier.value].rank) else None
  }

  /** Is the membership on the rung `slug` or on a higher one? */
  predicate Reaches(rows: seq<Tier>, m: Membership, slug: string) {
    var required, held := FindSlug(rows, slug), HeldRank(rows, m);
    required.Some? && held.Some? && held.value >= rows[required.value].rank
  }

  function CanRead(v: Viewer, rows: seq<Tier>, visibility: string): bool {
    if visibility == PUBLIC then true
    else match v
      case NoRequest => false
      case Visitor(platformAdmin, membership) =>
        if platformAdmin then true
        else if membership.None? then false
        else if Publishes(membership.value.role) then true
        else if visibility == MEMBERS then true
        else match TierSlug(visibility)
          case None => false
          case Some(slug) => Reaches(rows, membership.value, slug)
  }

  /** `tier:<slug>` for every rung in reach, bottom first. */
  function Reachable(rows: seq<Tier>, ids: seq<nat>, held: Option<int>): seq<string> {
    if ids == [] then []
    else (if ids[0] < |rows| && held.Some? && rows[ids[0]].rank <= held.value
          then [TIER_PREFIX + rows[ids[0]].slug] else [])
         + Reachable(rows, ids[1..], held)
  }

  /** The values a listing filters on, or None for a viewer who may read anything. */
  function ReadableVisibilities(v: Viewer, rows: seq<Tier>): Option<seq<string>> {
    match v
    case NoRequest => Some([PUBLIC])
    case Visitor(platformAdmin, membership) =>
      if platformAdmin then None
      else if membership.None? then Some([PUBLIC])
      else if Publishes(membership.value.role) then None
      else Some([PUBLIC, MEMBERS] + Reachable(rows, Order(rows), HeldRank(rows, membership.value)))
  }

  lemma {:induction false} ReachableIs(rows: seq<Tier>, ids: seq<nat>, held: Option<int>, value: string)
    requires forall k :: 0 <= k < |ids| ==> ids[k] < |rows|
    ensures value in Reachable(rows, ids, held) <==>
            held.Some? && exists id :: id in ids && rows[id].rank <= held.value && value == TIER_PREFIX + rows[id].slug
  {
    if ids != [] {
      ReachableIs(rows, ids[1..], held, value);
      assert forall id :: id in ids <==> id == ids[0] || id in ids[1..];
    }
  }

  lemma {:induction false} FindsItself(rows: seq<Tier>, id: nat)
    requires DistinctSlugs(rows) && id < |rows|
    ensures FindSlug(rows, rows[id].slug) == Some(id)
  {
    var found := FindSlug(rows, rows[id].slug);
    assert found.Some?;
  }

  lemma TierValue(slug: string, value: string)
    requires slug != ""
    ensures value == TIER_PREFIX + slug <==> TierSlug(value) == Some(slug)
    ensures TIER_PREFIX + slug != PUBLIC && TIER_PREFIX + slug != MEMBERS
  {
    assert PUBLIC[0] == 'p' && MEMBERS[0] == 'm' && (TIER_PREFIX + slug)[0] == 't';
    if TierSlug(value) == Some(slug) { assert value == value[..|TIER_PREFIX|] + value[|TIER_PREFIX|..]; }
  }

  /** All the two forms ask of a ladder: slugs name one tier each. Its ranks may be tied. */
  ghost predicate NamedLadder(rows: seq<Tier>) {
    DistinctSlugs(rows) && forall k :: 0 <= k < |rows| ==> rows[k].slug != ""
  }

  lemma GoodIsNamed(rows: seq<Tier>)
    requires GoodLadder(rows)
    ensures NamedLadder(rows)
  {
  }

  /** One rule in two forms: the enumeration a query filters on holds exactly the values the
      predicate says yes to, for every viewer, ladder and value, hand-edited ones included, and
      there is none exactly for a viewer who may read anything. */
  lemma EnumerationAgrees(v: Viewer, rows: seq<Tier>, value: string)
    requires NamedLadder(rows)
    ensures match ReadableVisibilities(v, rows)
            case None => CanRead(v, rows, value)
            case Some(values) => value in values <==> CanRead(v, rows, value)
    ensures ReadableVisibilities(v, rows).None? <==> forall any :: CanRead(v, rows, any)
  {
    assert TierSlug("").None?;
    assert ReadableVisibilities(v, rows).Some? ==> !CanRead(v, rows, "");
    if v.Visitor? && !v.platformAdmin && v.membership.Some? && !Publishes(v.membership.value.role)
       && value != PUBLIC && value != MEMBERS {
      var held := HeldRank(rows, v.membership.value);
      ReachableIs(rows, Order(rows), held, value);
      TierReach(rows, held, value);
    }
  }

  lemma TierReach(rows: seq<Tier>, held: Option<int>, value: string)
    requires NamedLadder(rows)
    ensures (held.Some?
             && exists id :: id in Order(rows) && rows[id].rank <= held.value && value == TIER_PREFIX + rows[id].slug)
            <==> (TierSlug(value).Some? && held.Some? && FindSlug(rows, TierSlug(value).value).Some?
                  && held.value >= rows[FindSlug(rows, TierSlug(value).value).value].rank)
  {
    if held.Some? {
      if id :| id in Order(rows) && rows[id].rank <= held.value && value == TIER_PREFIX + rows[id].slug {
        TierValue(rows[id].slug, value);
        FindsItself(rows, id);
      }
      if TierSlug(value).Some? && FindSlug(rows, TierSlug(value).value).Some? {
        var id := FindSlug(rows, TierSlug(value).value).value;
        TierValue(rows[id].slug, value);
        assert id in Order(rows);
      }
    }
  }

  // ------------------------------------------------------------------ who reads what

  /** Who may read what, in full: what is public everybody reads; beyond that a platform admin and
      whoever owns or administers the organization read everything, any member what is for members,
      and a member on a tier what is gated to a tier ranked no higher. */
  lemma ReadsExactly(v: Viewer, rows: seq<Tier>, value: string)
    requires NamedLadder(rows)
    ensures CanRead(v, rows, value) <==>
            || value == "public"
            || (v.Visitor?
                && (|| v.platformAdmin
                    || (v.membership.Some?
                        && (|| v.membership.value.role in {Owner, Admin}
                            || value == "members"
                            || (v.membership.value.tier.Some?
                                && OnAReachedTier(rows, v.membership.value.tier.value, value))))))
  {
    if v.Visitor? && v.membership.Some? && v.membership.value.tier.Some? && value != PUBLIC && value != MEMBERS {
      TierValueReached(rows, v.membership.value, v.membership.value.tier.value, value);
    }
  }

  /** The value names a tier of the ladder that the h-th row ranks no lower than. */
  ghost predicate OnAReachedTier(rows: seq<Tier>, h: nat, value: string) {
    h < |rows| && exists k :: 0 <= k < |rows| && value == "tier:" + rows[k].slug && rows[h].rank >= rows[k].rank
  }

  lemma TierValueReached(rows: seq<Tier>, m: Membership, h: nat, value: string)
    requires NamedLadder(rows) && m.tier == Some(h)
    ensures TierSlug(value).Some? && Reaches(rows, m, TierSlug(value).value) <==> OnAReachedTier(rows, h, value)
  {
    if TierSlug(value).Some? && Reaches(rows, m, TierSlug(value).value) {
      var k := FindSlug(rows, TierSlug(value).value).value;
      TierValue(rows[k].slug, value);
      assert value == "tier:" + rows[k].slug;
    }
    if OnAReachedTier(rows, h, value) {
      var k :| 0 <= k < |rows| && value == "tier:" + rows[k].slug && rows[h].rank >= rows[k].rank;
      TierValue(rows[k].slug, value);
      FindsItself(rows, k);
    }
  }

  /** A plain member on one tier reads what is gated to another exactly when theirs ranks no lower;
      on no tier they read nothing that is gated to one. */
  lemma TierReadsByRank(rows: seq<Tier>, role: Role, h: nat, k: nat)
    requires NamedLadder(rows) && k < |rows| && role != Owner && role != Admin
    ensures h < |rows| ==>
              (CanRead(Visitor(false, Some(Membership(role, Some(h)))), rows, "tier:" + rows[k].slug)
               <==> rows[h].rank >= rows[k].rank)
    ensures !CanRead(Visitor(false, Some(Membership(role, None))), rows, "tier:" + rows[k].slug)
  {
    var value := "tier:" + rows[k].slug;
    TierValue(rows[k].slug, value);
    FindsItself(rows, k);
  }

  /** Whoever stands higher on the ladder reads all that someone lower does. */
  lemma HigherReadsMore(rows: seq<Tier>, role: Role, low: nat, high: nat, value: string)
    requires low < |rows| && high < |rows| && rows[high].rank >= rows[low].rank
    ensures CanRead(Visitor(false, Some(Membership(role, Some(low)))), rows, value)
            ==> CanRead(Visitor(false, Some(Membership(role, Some(high)))), rows, value)
  {
  }

  // ------------------------------------------------------------------ changing the ladder

  /** What a viewer's reads depend on of a ladder: which slug is which row, and how the ranks
      of the rows compare. */
  lemma ReadsAgree(v: Viewer, before: seq<Tier>, after: seq<Tier>, value: string)
    requires DistinctSlugs(before) && DistinctSlugs(after) && |before| == |after|
    requires forall k :: 0 <= k < |before| ==> before[k].slug == after[k].slug
    requires v.Visitor? && v.membership.Some? && v.membership.value.tier.Some?
             && v.membership.value.tier.value < |before| ==>
             var h := v.membership.value.tier.value;
             forall k :: 0 <= k < |before| && TierSlug(value) == Some(before[k].slug) ==>
               (before[h].rank >= before[k].rank <==> after[h].rank >= after[k].rank)
    ensures CanRead(v, before, value) == CanRead(v, after, value)
  {
    if TierSlug(value).Some? {
      var slug := TierSlug(value).value;
      var b, a := FindSlug(before, slug), FindSlug(after, slug);
      if b.Some? { FindsItself(before, b.value); FindsItself(after, b.value); }
      if a.Some? { FindsItself(after, a.value); FindsItself(before, a.value); }
    }
  }

  /** Retiring and restoring a tier change nobody's reads. */
  lemma RetiringChangesNoRead(v: Viewer, rows: seq<Tier>, id: nat, active: bool, value: string)
    requires GoodLadder(rows) && id < |rows|
    ensures CanRead(v, rows, value) == CanRead(v, rows[id := rows[id].(isActive := active)], value)
  {
    ReadsAgree(v, rows, rows[id := rows[id].(isActive := active)], value);
  }

  /** A new tier at the top changes nobody's reads: who was on the ladder is below it. */
  lemma AddingChangesNoRead(v: Viewer, rows: seq<Tier>, name: string, slug: string, value: string)
    requires FindSlug(rows, slug).None?
    requires v.Visitor? && v.membership.Some? && v.membership.value.tier.Some?
             ==> v.membership.value.tier.value < |rows|
    ensures CanRead(v, rows, value) == CanRead(v, rows + [Tier(name, slug, HighestRank(rows) + 1, true)], value)
  {
    var top := Tier(name, slug, HighestRank(rows) + 1, true);
    if TierSlug(value).Some? && v.Visitor? && v.membership.Some? {
      ReachAfterAdd(rows, top, v.membership.value, TierSlug(value).value);
    }
    SameReachSameRead(v, rows, rows + [top], value);
  }

  /** All a read asks of the ladder is whether the member reaches one rung. */
  lemma SameReachSameRead(v: Viewer, before: seq<Tier>, after: seq<Tier>, value: string)
    requires v.Visitor? && v.membership.Some? && TierSlug(value).Some? ==>
             Reaches(before, v.membership.value, TierSlug(value).value)
             == Reaches(after, v.membership.value, TierSlug(value).value)
    ensures CanRead(v, before, value) == CanRead(v, after, value)
  {
  }

  lemma ReachAfterAdd(rows: seq<Tier>, top: Tier, m: Membership, slug: string)
    requires FindSlug(rows, top.slug).None? && (m.tier.Some? ==> m.tier.value < |rows|)
    requires top.rank > HighestRank(rows)
    ensures Reaches(rows + [top], m, slug) == Reaches(rows, m, slug)
  {
    FindAfterAdd(rows, top, slug);
    assert HeldRank(rows + [top], m) == HeldRank(rows, m);
  }

  lemma FindAfterAdd(rows: seq<Tier>, top: Tier, slug: string)
    ensures FindSlug(rows + [top], slug) == if slug == top.slug then Some(|rows|) else FindSlug(rows, slug)
  {
    var after := rows + [top];
    assert after[..|after| - 1] == rows;
  }

  /** A move changes one comparison: the moved tier against its neighbour, which it turns
      round. Every read that does not set those two against each other is as before. */
  lemma MoveChangesOnePair(rows: seq<Tier>, after: seq<Tier>, id: nat, direction: int, a: nat, b: nat)
    requires GoodLadder(rows) && id < |rows| && a < |rows| && b < |rows| && a != b
    requires RankedBy(rows, after, MovedOrder(Order(rows), id, direction))
    ensures after[a].rank >= after[b].rank
            <==> (if TradesPlaces(rows, id, direction, a, b) then rows[b].rank >= rows[a].rank
                  else rows[a].rank >= rows[b].rank)
  {
    var ids := Order(rows);
    var there := Neighbour(ids, id, direction);
    var j, k := IndexOf(ids, a), IndexOf(ids, b);
    PlacesCompare(rows, ids, j, k);
    PlacesCompare(rows, ids, k, j);
    if there.Some? {
      SortedIsDistinct(Ranks(rows), ids);
      SwapTurnsOnePair(rows, after, ids, IndexOf(ids, id), there.value, j, k);
    } else {
      assert after[ids[j]].rank == j + 1 && after[ids[k]].rank == k + 1;
    }
  }

  lemma SwapTurnsOnePair(rows: seq<Tier>, after: seq<Tier>, ids: seq<nat>, here: nat, there: nat, j: nat, k: nat)
    requires here < |ids| && there < |ids| && j < |ids| && k < |ids| && j != k
    requires there == here + 1 || here == there + 1
    requires RankedBy(rows, after, Swap(ids, here, there))
    requires Distinct(ids)
    ensures ids[j] < |after| && ids[k] < |after|
    ensures after[ids[j]].rank >= after[ids[k]].rank
            <==> (if {ids[j], ids[k]} == {ids[here], ids[there]} then k >= j else j >= k)
  {
    NewPlace(rows, after, ids, here, there, j);
    NewPlace(rows, after, ids, here, there, k);
    PairIs(ids, here, there, j, k);
  }

  lemma NewPlace(rows: seq<Tier>, after: seq<Tier>, ids: seq<nat>, here: nat, there: nat, j: nat)
    requires here < |ids| && there < |ids| && j < |ids|
    requires RankedBy(rows, after, Swap(ids, here, there))
    ensures ids[j] < |after| && after[ids[j]].rank == Moved(j, here, there) + 1
  {
    assert Swap(ids, here, there)[Moved(j, here, there)] == ids[j];
  }

  /** Two neighbours are the two that trade places, or keep their order. */
  lemma PairIs(ids: seq<nat>, here: nat, there: nat, j: nat, k: nat)
    requires here < |ids| && there < |ids| && j < |ids| && k < |ids| && j != k && ids[j] != ids[k]
    requires there == here + 1 || here == there + 1
    requires Distinct(ids)
    ensures {ids[j], ids[k]} == {ids[here], ids[there]} <==> {j, k} == {here, there}
    ensures {j, k} == {here, there} ==> (Moved(j, here, there) >= Moved(k, here, there) <==> k >= j)
    ensures {j, k} != {here, there} ==> (Moved(j, here, there) >= Moved(k, here, there) <==> j >= k)
  {
    if {j, k} == {here, there} {
      assert j in {here, there} && k in {here, there} && here in {j, k} && there in {j, k};
    } else {
      assert !(j == here && k == there) && !(j == there && k == here);
    }
    if {ids[j], ids[k]} == {ids[here], ids[there]} {
      assert ids[j] in {ids[here], ids[there]} && ids[k] in {ids[here], ids[there]};
    }
  }

  function Moved(i: nat, here: nat, there: nat): nat {
    if i == here then there else if i == there then here else i
  }

  lemma PlacesCompare(rows: seq<Tier>, ids: seq<nat>, j: nat, k: nat)
    requires Sorted(Ranks(rows), ids) && DistinctRanks(rows) && j < |ids| && k < |ids| && ids[j] != ids[k]
    ensures rows[ids[j]].rank >= rows[ids[k]].rank <==> j >= k
  {
    if j < k { assert Before(Ranks(rows), ids[j], ids[k]); } else { assert Before(Ranks(rows), ids[k], ids[j]); }
  }

  /** Are `a` and `b` the two rows the move sets against each other? */
  predicate TradesPlaces(rows: seq<Tier>, id: nat, direction: int, a: nat, b: nat)
    requires id < |rows|
  {
    var there := Neighbour(Order(rows), id, direction);
    there.Some? && {a, b} == {id, Order(rows)[there.value]}
  }

  lemma RankedKeepsSlugs(rows: seq<Tier>, after: seq<Tier>, order: seq<nat>)
    requires RankedBy(rows, after, order)
    ensures |after| == |rows| && forall k :: 0 <= k < |rows| ==> after[k].slug == rows[k].slug
  {
    assert forall k :: 0 <= k < |rows| ==> after[k].(rank := rows[k].rank) == rows[k];
  }

  /** A move changes a read only of a member on one of the two tiers, of something gated to the
      other. */
  lemma MoveChangesOnlyThePair(v: Viewer, rows: seq<Tier>, after: seq<Tier>, id: nat, direction: int, value: string)
    requires GoodLadder(rows) && id < |rows|
    requires RankedBy(rows, after, MovedOrder(Order(rows), id, direction))
    requires v.Visitor? && v.membership.Some? && v.membership.value.tier.Some? ==>
             !exists other: nat :: other < |rows| && TierSlug(value) == Some(rows[other].slug)
                                   && TradesPlaces(rows, id, direction, v.membership.value.tier.value, other)
    ensures CanRead(v, rows, value) == CanRead(v, after, value)
  {
    RankedKeepsSlugs(rows, after, MovedOrder(Order(rows), id, direction));
    if v.Visitor? && v.membership.Some? && v.membership.value.tier.Some? && v.membership.value.tier.value < |rows| {
      var held := v.membership.value.tier.value;
      forall k: nat | k < |rows| && TierSlug(value) == Some(rows[k].slug)
        ensures rows[held].rank >= rows[k].rank <==> after[held].rank >= after[k].rank
      {
        if k != held { MoveChangesOnePair(rows, after, id, direction, held, k); }
      }
    }
    ReadsAgree(v, rows, after, value);
  }
}
