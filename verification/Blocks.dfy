/** The blocks inside one item: their order, a move, and every run of writes
    (app/models/content.py). */
module Blocks {
  import opened ContentStore
  import ContentTypes
  import FreeSlugs
  import opened Ordering
  import opened Slugs
  import opened Wrappers

  // ------------------------------------------------------------------ the order

  predicate IsBlock(rows: Table, p: nat, id: nat) {
    id in rows && rows[id].parent == Some(p)
  }

  /** `blocks` names each block of `p` once. Which order the database lists blocks without a place in
      differs from one engine to the next. */
  ghost predicate Lists(rows: Table, p: nat, blocks: seq<nat>) {
    && Distinct(blocks)
    && (forall k :: 0 <= k < |blocks| ==> IsBlock(rows, p, blocks[k]))
    && (forall id :: IsBlock(rows, p, id) ==> id in blocks)
  }

  function Places(rows: Table): Keys {
    map id | id in rows && rows[id].position.Some? :: rows[id].position.value
  }

  /** They all have places and come by position, then id. */
  ghost predicate Listed(rows: Table, p: nat, blocks: seq<nat>) {
    Lists(rows, p, blocks) && Sorted(Places(rows), blocks)
  }

  // ------------------------------------------------------------------ one move

  /** The list with its i-th element taken out and put back at t, or as it is where t is off
      either end. */
  function Moved(s: seq<nat>, i: nat, t: int): seq<nat>
    requires i < |s|
  {
    if 0 <= t < |s| then
      var rest := s[..i] + s[i + 1..];
      rest[..t] + [s[i]] + rest[t..]
    else s
  }

  /** Where the k-th element after a move from i to t was before it. */
  function Source(k: nat, i: nat, t: nat): int {
    if k == t then i
    else
      var r := if k < t then k else k - 1;
      if r < i then r else r + 1
  }

  lemma TakenOutAt(s: seq<nat>, i: nat, r: nat)
    requires i < |s| && r < |s| - 1
    ensures var rest := s[..i] + s[i + 1..]; |rest| == |s| - 1 && rest[r] == s[if r < i then r else r + 1]
  {
  }

  lemma PutInAt(rest: seq<nat>, x: nat, t: nat, k: nat)
    requires t <= |rest| && k <= |rest|
    ensures var all := rest[..t] + [x] + rest[t..];
            |all| == |rest| + 1 && all[k] == if k == t then x else rest[if k < t then k else k - 1]
  {
  }

  lemma MovedAt(s: seq<nat>, i: nat, t: nat, k: nat)
    requires i < |s| && t < |s| && k < |s|
    ensures |Moved(s, i, t)| == |s| && 0 <= Source(k, i, t) < |s| && Moved(s, i, t)[k] == s[Source(k, i, t)]
  {
    PutInAt(s[..i] + s[i + 1..], s[i], t, k);
    if k != t { TakenOutAt(s, i, if k < t then k else k - 1); }
  }

  lemma SourceInverts(k: nat, i: nat, t: nat)
    ensures Source(k, i, t) >= 0 && Source(Source(k, i, t), t, i) == k
  {
  }

  /** A move undone by the move back. */
  lemma MoveBack(s: seq<nat>, i: nat, t: nat)
    requires i < |s| && t < |s|
    ensures |Moved(s, i, t)| == |s| && Moved(Moved(s, i, t), t, i) == s
  {
    var m := Moved(s, i, t);
    MovedAt(s, i, t, 0);
    forall k: nat | k < |s| ensures |Moved(m, t, i)| == |s| && Moved(m, t, i)[k] == s[k] {
      MovedAt(m, t, i, k);
      SourceInverts(k, t, i);
      MovedAt(s, i, t, Source(k, t, i));
    }
  }

  lemma MovedKeepsApart(s: seq<nat>, i: nat, t: nat, j: nat, k: nat)
    requires i < |s| && t < |s| && Distinct(s) && j < k < |s|
    ensures |Moved(s, i, t)| == |s| && Moved(s, i, t)[j] != Moved(s, i, t)[k]
  {
    MovedAt(s, i, t, j);
    MovedAt(s, i, t, k);
    SourceInverts(j, i, t);
    SourceInverts(k, i, t);
  }

  lemma MovedKeepsMembers(s: seq<nat>, i: nat, t: nat, x: nat)
    requires i < |s| && t < |s|
    ensures x in Moved(s, i, t) <==> x in s
  {
    var m := Moved(s, i, t);
    MoveBack(s, i, t);
    if x in m {
      var k :| 0 <= k < |m| && m[k] == x;
      MovedAt(s, i, t, k);
    }
    if x in s {
      var k :| 0 <= k < |s| && s[k] == x;
      MovedAt(m, t, i, k);
    }
  }

  lemma MovedPermutes(s: seq<nat>, i: nat, t: int)
    requires i < |s| && Distinct(s)
    ensures Permuted(Moved(s, i, t), s)
  {
    if 0 <= t < |s| {
      MoveBack(s, i, t);
      forall j: nat, k: nat | j < k < |s|
        ensures Moved(s, i, t)[j] != Moved(s, i, t)[k]
      {
        MovedKeepsApart(s, i, t, j, k);
      }
      forall x ensures x in Moved(s, i, t) <==> x in s { MovedKeepsMembers(s, i, t, x); }
    }
  }

  /** Positions rewritten from the order: 0, 1, 2 and so on down the list. */
  function Renumbered(rows: Table, blocks: seq<nat>): Table {
    map id | id in rows :: if id in blocks then rows[id].(position := Some(IndexOf(blocks, id))) else rows[id]
  }

  lemma IndexIs(s: seq<nat>, k: nat)
    requires Distinct(s) && k < |s|
    ensures IndexOf(s, s[k]) == k
  {
  }

  lemma FirstIs(s: seq<nat>, x: nat, k: nat)
    requires k < |s| && s[k] == x && x !in s[..k]
    ensures IndexOf(s, x) == k
  {
  }

  /** After the move the list is the moved one, whatever the positions were before and whether there
      were any. */
  lemma MoveShows(rows: Table, p: nat, blocks: seq<nat>, moved: seq<nat>)
    requires Lists(rows, p, blocks) && Permuted(moved, blocks)
    ensures Listed(Renumbered(rows, moved), p, moved)
  {
    var after := Renumbered(rows, moved);
    forall k: nat | k < |moved| ensures IsBlock(after, p, moved[k]) && after[moved[k]].position == Some(k) {
      assert moved[k] in blocks;
      IndexIs(moved, k);
    }
    forall id | IsBlock(after, p, id) ensures id in moved {
      assert IsBlock(rows, p, id);
    }
  }

  lemma ListedIffBlock(rows: Table, p: nat, blocks: seq<nat>, x: nat)
    requires Lists(rows, p, blocks)
    ensures x in blocks <==> IsBlock(rows, p, x)
  {
  }

  /** There is one such list. */
  lemma ListingIsUnique(rows: Table, p: nat, a: seq<nat>, b: seq<nat>)
    requires Listed(rows, p, a) && Listed(rows, p, b)
    ensures a == b
  {
    forall x ensures x in a <==> x in b {
      ListedIffBlock(rows, p, a, x);
      ListedIffBlock(rows, p, b, x);
    }
    SortedIsUnique(Places(rows), a, b);
  }

  lemma RenumberingKeepsGood(w: World, rows: Table, p: nat, blocks: seq<nat>)
    requires GoodStore(w, rows) && forall id :: id in blocks && id in rows ==> rows[id].parent.Some?
    ensures GoodStore(w, Renumbered(rows, blocks))
  {
    OnlyPlacesChange(w, rows, Renumbered(rows, blocks));
  }

  /** Of a block only its place has changed, and of a standalone row nothing. */
  predicate SameButPlace(was: Row, r: Row) {
    r.(position := was.position) == was && (was.parent.None? ==> r == was)
  }

  lemma OnlyPlacesChange(w: World, rows: Table, after: Table)
    requires GoodStore(w, rows) && after.Keys == rows.Keys
    requires forall id :: id in rows ==> SameButPlace(rows[id], after[id])
    ensures GoodStore(w, after)
  {
    forall id | id in after ensures GoodRow(w, after, after[id]) {
      RenumberedIsGood(w, rows, after, rows[id], after[id]);
    }
    SameAddressesStayUnique(rows, after);
  }

  lemma SameAddressesStayUnique(rows: Table, after: Table)
    requires UniqueAddresses(rows) && after.Keys == rows.Keys
    requires forall id :: id in rows ==> SameButPlace(rows[id], after[id])
    ensures UniqueAddresses(after)
  {
    forall a, b | a in after && b in after && a != b && SameSpace(after[a], after[b]) && after[a].slug.Some?
      ensures after[a].slug != after[b].slug
    {
      assert SameButPlace(rows[a], after[a]) && SameButPlace(rows[b], after[b]);
      assert SameSpace(rows[a], rows[b]);
    }
  }

  lemma RenumberedIsGood(w: World, rows: Table, after: Table, was: Row, r: Row)
    requires GoodRow(w, rows, was) && SameButPlace(was, r)
    requires after.Keys == rows.Keys && forall id :: id in rows ==> SameButPlace(rows[id], after[id])
    ensures GoodRow(w, after, r)
  {
    assert FieldRefusal(w, r) == FieldRefusal(w, was);
  }

  // ------------------------------------------------------------------ the table

  datatype Op = Save(id: nat, d: Row, draws: seq<string>) | Delete(id: nat)
              | Move(p: nat, blocks: seq<nat>, child: nat, delta: int)

  /** The database hands a move the list of the item it is asked of. */
  ghost predicate Fits(rows: Table, op: Op) {
    op.Move? ==> op.p in rows && Lists(rows, op.p, op.blocks)
  }

  ghost function Step(w: World, rows: Table, op: Op): Table {
    match op
    case Save(id, d, draws) => var r := Validated(w, rows, id, d, draws); if r.Ok? then rows[id := r.value] else rows
    case Delete(id) => Cascade(rows, id)
    case Move(p, blocks, child, delta) =>
      if child in blocks then Renumbered(rows, AfterMove(blocks, child, delta)) else rows
  }

  function AfterMove(blocks: seq<nat>, child: nat, delta: int): seq<nat>
    requires child in blocks
  {
    Moved(blocks, IndexOf(blocks, child), IndexOf(blocks, child) + delta)
  }

  /** After a move the item lists its blocks in the moved order, whatever their positions were and
      whether they had any, and the store is as good as it was. */
  lemma MoveHolds(w: World, rows: Table, p: nat, blocks: seq<nat>, child: nat, delta: int)
    requires GoodStore(w, rows) && Lists(rows, p, blocks) && child in blocks
    ensures Permuted(AfterMove(blocks, child, delta), blocks)
    ensures Listed(Renumbered(rows, AfterMove(blocks, child, delta)), p, AfterMove(blocks, child, delta))
    ensures GoodStore(w, Renumbered(rows, AfterMove(blocks, child, delta)))
  {
    MovedPermutes(blocks, IndexOf(blocks, child), IndexOf(blocks, child) + delta);
    PermutedHolds(w, rows, p, blocks, AfterMove(blocks, child, delta));
  }

  /** Where a move puts its block: `delta` places on where that is still in the list, and else nowhere;
      the others keep their order among themselves. */
  lemma MoveGoesAsAsked(blocks: seq<nat>, child: nat, delta: int)
    requires Distinct(blocks) && child in blocks
    ensures var was, target := IndexOf(blocks, child), IndexOf(blocks, child) + delta;
            && child in AfterMove(blocks, child, delta)
            && IndexOf(AfterMove(blocks, child, delta), child) == (if 0 <= target < |blocks| then target else was)
            && Without(AfterMove(blocks, child, delta), child) == Without(blocks, child)
  {
    var i, t := IndexOf(blocks, child), IndexOf(blocks, child) + delta;
    MovedPermutes(blocks, i, t);
    if 0 <= t < |blocks| {
      MovedAt(blocks, i, t, t);
      IndexIs(Moved(blocks, i, t), t);
      OthersStay(blocks, i, t);
    }
  }

  lemma OthersStay(s: seq<nat>, i: nat, t: nat)
    requires Distinct(s) && i < |s| && t < |s|
    ensures Without(Moved(s, i, t), s[i]) == Without(s, s[i])
  {
    hide Without, Distinct;
    var x, rest := s[i], s[..i] + s[i + 1..];
    AroundOne(s, i);
    NotInParts(rest, t, x);
    WithoutOne(s[..i], s[i + 1..], x);
    WithoutOne(rest[..t], rest[t..], x);
  }

  lemma AroundOne(s: seq<nat>, i: nat)
    requires Distinct(s) && i < |s|
    ensures s == s[..i] + [s[i]] + s[i + 1..] && s[i] !in s[..i] && s[i] !in s[i + 1..]
  {
  }

  lemma NotInParts(s: seq<nat>, t: nat, x: nat)
    requires x !in s && t <= |s|
    ensures x !in s[..t] && x !in s[t..] && s[..t] + s[t..] == s
  {
  }

  function Without(s: seq<nat>, x: nat): seq<nat> {
    if s == [] then [] else (if s[0] == x then [] else [s[0]]) + Without(s[1..], x)
  }

  lemma {:induction false} WithoutOne(a: seq<nat>, b: seq<nat>, x: nat)
    requires x !in a && x !in b
    ensures Without(a + [x] + b, x) == a + b
    decreases |a|
  {
    if a == [] {
      assert ([] + [x] + b)[1..] == b;
      WithoutNone(b, x);
      assert [] + b == b;
    } else {
      assert (a + [x] + b)[1..] == a[1..] + [x] + b;
      WithoutOne(a[1..], b, x);
      assert [a[0]] + (a[1..] + b) == a + b;
    }
  }

  lemma {:induction false} WithoutNone(s: seq<nat>, x: nat)
    requires x !in s
    ensures Without(s, x) == s
  {
    if s != [] { WithoutNone(s[1..], x); }
  }

  /** What it takes to renumber the rows in this order. */
  ghost predicate Ready(w: World, rows: Table, blocks: seq<nat>) {
    Distinct(blocks) && (forall id :: id in blocks ==> id in rows) && GoodStore(w, Renumbered(rows, blocks))
  }

  lemma MoveIsReady(w: World, rows: Table, p: nat, blocks: seq<nat>, child: nat, delta: int)
    requires GoodStore(w, rows) && Lists(rows, p, blocks) && child in blocks
    ensures Ready(w, rows, AfterMove(blocks, child, delta)) && p in rows && rows[p].parent.None?
  {
    MoveHolds(w, rows, p, blocks, child, delta);
    ListedIffBlock(rows, p, blocks, child);
    assert GoodRow(w, rows, rows[child]);
    forall id | id in AfterMove(blocks, child, delta) ensures id in rows {
      assert id in blocks;
    }
  }

  lemma PermutedHolds(w: World, rows: Table, p: nat, blocks: seq<nat>, moved: seq<nat>)
    requires GoodStore(w, rows) && Lists(rows, p, blocks) && Permuted(moved, blocks)
    ensures Listed(Renumbered(rows, moved), p, moved) && GoodStore(w, Renumbered(rows, moved))
  {
    MoveShows(rows, p, blocks, moved);
    forall id | id in moved ensures IsBlock(rows, p, id) {
      assert id in blocks;
    }
    RenumberingKeepsGood(w, rows, p, moved);
  }

  /** A new block that names no place is listed last, the rest as they were. */
  lemma NewBlockGoesLast(w: World, rows: Table, p: nat, blocks: seq<nat>, id: nat, d: Row, draws: seq<string>)
    requires id !in rows && d.parent == Some(p) && d.position.None? && Listed(rows, p, blocks)
    requires Validated(w, rows, id, d, draws).Ok?
    ensures Listed(rows[id := Validated(w, rows, id, d, draws).value], p, blocks + [id])
    ensures blocks == [] ==> Validated(w, rows, id, d, draws).value.position == Some(0)
  {
    var r := Validated(w, rows, id, d, draws).value;
    PlacedLast(w, rows, id, d, draws, p);
    ListedOneMore(rows, p, blocks, id, r);
  }

  lemma PlacedLast(w: World, rows: Table, id: nat, d: Row, draws: seq<string>, p: nat)
    requires d.parent == Some(p) && d.position.None? && Validated(w, rows, id, d, draws).Ok?
    ensures var r := Validated(w, rows, id, d, draws).value;
            && r.parent == Some(p) && r.position.Some?
            && ((forall other :: IsBlock(rows, p, other) && other != id ==> rows[other].position.None?)
                ==> r.position.value == 0)
            && forall other :: IsBlock(rows, p, other) && other != id && rows[other].position.Some? ==>
                 rows[other].position.value < r.position.value
  {
    hide FieldRefusal, AddressRefusal, ChildRefusal, WantsAddress, Slugify, FreeSlugs.Answer, Reserved, Used;
    forall other | IsBlock(rows, p, other) && other != id && rows[other].position.Some?
      ensures rows[other].position.value in SiblingPlaces(rows, id, p)
    {
    }
    if forall other :: IsBlock(rows, p, other) && other != id ==> rows[other].position.None? {
      assert SiblingPlaces(rows, id, p) == {};
    }
  }

  lemma ListedOneMore(rows: Table, p: nat, blocks: seq<nat>, id: nat, r: Row)
    requires id !in rows && Listed(rows, p, blocks) && r.parent == Some(p) && r.position.Some?
    requires forall other :: IsBlock(rows, p, other) && rows[other].position.Some? ==>
               rows[other].position.value < r.position.value
    ensures Listed(rows[id := r], p, blocks + [id])
  {
    var after, all := rows[id := r], blocks + [id];
    assert id !in blocks;
    forall other | IsBlock(after, p, other) ensures other in all {
      assert other != id ==> IsBlock(rows, p, other);
    }
    forall j, k | 0 <= j < k < |all| ensures Before(Places(after), all[j], all[k]) {
      assert IsBlock(rows, p, all[j]);
    }
  }

  lemma StepKeepsGood(w: World, rows: Table, op: Op)
    requires GoodStore(w, rows) && Fits(rows, op)
    ensures GoodStore(w, Step(w, rows, op))
  {
    match op
    case Save(id, d, draws) =>
      if Validated(w, rows, id, d, draws).Ok? { SaveKeepsGood(w, rows, id, d, draws); }
    case Delete(id) => DeletingKeepsGood(w, rows, id);
    case Move(p, blocks, child, delta) =>
      if child in blocks { MoveHolds(w, rows, p, blocks, child, delta); }
  }

  lemma StepKeepsPlaced(w: World, rows: Table, op: Op)
    requires BlocksPlaced(rows)
    ensures BlocksPlaced(Step(w, rows, op))
  {
    if op.Save? && Validated(w, rows, op.id, op.d, op.draws).Ok? { SavedIsPlaced(w, rows, op.id, op.d, op.draws); }
  }

  ghost predicate Runs(w: World, rows: Table, ops: seq<Op>)
    decreases |ops|
  {
    ops == [] || (Fits(rows, ops[0]) && Runs(w, Step(w, rows, ops[0]), ops[1..]))
  }

  ghost function Run(w: World, rows: Table, ops: seq<Op>): Table
    decreases |ops|
  {
    if ops == [] then rows else Run(w, Step(w, rows, ops[0]), ops[1..])
  }

  /** From an empty table, every run of saves, cascading deletions and moves, refused ones
      included, keeps the forest and the two address spaces, and leaves no block without a place. */
  lemma {:induction false} RunKeepsGood(w: World, rows: Table, ops: seq<Op>)
    requires GoodStore(w, rows) && Runs(w, rows, ops)
    ensures GoodStore(w, Run(w, rows, ops))
    ensures BlocksPlaced(rows) ==> BlocksPlaced(Run(w, rows, ops))
    decreases |ops|
  {
    if ops != [] {
      StepKeepsGood(w, rows, ops[0]);
      if BlocksPlaced(rows) { StepKeepsPlaced(w, rows, ops[0]); }
      RunKeepsGood(w, Step(w, rows, ops[0]), ops[1..]);
    }
  }

  lemma ResavingIsNoStep(w: World, rows: Table, id: nat)
    requires ContentTypes.GoodRegistry(w.types) && GoodStore(w, rows) && id in rows && rows[id].parent.None?
    ensures Step(w, rows, Save(id, rows[id], [])) == rows
  {
    ResavingChangesNothing(w, rows, id, []);
    assert rows[id := rows[id]] == rows;
  }

  class ContentTable {
    const w: World
    var rows: Table

    constructor (w: World)
      ensures this.w == w && rows == map[] && GoodStore(w, rows)
    {
      this.w := w;
      rows := map[];
    }

    method Save(id: nat, d: Row, draws: seq<string>) returns (r: Result<Row, Refusal>)
      requires GoodStore(w, rows)
      modifies this
      ensures GoodStore(w, rows) && r == Validated(w, old(rows), id, d, draws)
      ensures rows == Step(w, old(rows), Op.Save(id, d, draws))
    {
      r := Validated(w, rows, id, d, draws);
      if r.Ok? {
        SaveKeepsGood(w, rows, id, d, draws);
        rows := rows[id := r.value];
      }
    }

    method Delete(id: nat)
      requires GoodStore(w, rows)
      modifies this
      ensures GoodStore(w, rows) && rows == Step(w, old(rows), Op.Delete(id))
    {
      DeletingKeepsGood(w, rows, id);
      rows := map other | other in rows && other != id && rows[other].parent != Some(id) :: rows[other];
    }

    /** Move a block by `delta` places among `blocks`, renumber them all and save the item. */
    method MoveChild(p: nat, blocks: seq<nat>, child: nat, delta: int) returns (r: Result<(), Refusal>)
      requires ContentTypes.GoodRegistry(w.types) && GoodStore(w, rows) && p in rows && Lists(rows, p, blocks)
      modifies this
      ensures GoodStore(w, rows)
      ensures rows == if child in blocks then Renumbered(old(rows), AfterMove(blocks, child, delta)) else old(rows)
      ensures r == if child in blocks then Ok(()) else Err(NotInThisItem)
    {
      if child in blocks { MoveIsReady(w, rows, p, blocks, child, delta); }
      var index := Search(blocks, child);
      if index.None? {
        return Err(NotInThisItem);
      }
      Rearrange(p, Moved(blocks, index.value, index.value + delta));
      r := Ok(());
    }

    /** Renumber the blocks of an item and save it. */
    method Rearrange(p: nat, blocks: seq<nat>)
      requires ContentTypes.GoodRegistry(w.types) && Ready(w, rows, blocks) && p in rows && rows[p].parent.None?
      modifies this
      ensures rows == Renumbered(old(rows), blocks) && GoodStore(w, rows)
    {
      Renumber(blocks);
      Resave(p);
    }

    method Resave(id: nat)
      requires ContentTypes.GoodRegistry(w.types) && GoodStore(w, rows) && id in rows && rows[id].parent.None?
      modifies this
      ensures rows == old(rows)
    {
      ResavingIsNoStep(w, rows, id);
      var item := Save(id, rows[id], []);
    }

    method Search(blocks: seq<nat>, child: nat) returns (r: Option<nat>)
      ensures r == if child in blocks then Some(IndexOf(blocks, child)) else None
    {
      var index := 0;
      while index < |blocks|
        invariant 0 <= index <= |blocks| && child !in blocks[..index]
      {
        if blocks[index] == child {
          FirstIs(blocks, child, index);
          return Some(index);
        }
        index := index + 1;
      }
      r := None;
    }

    method Renumber(blocks: seq<nat>)
      requires Distinct(blocks) && forall id :: id in blocks ==> id in rows
      modifies this
      ensures rows == Renumbered(old(rows), blocks)
    {
      ghost var was := rows;
      var position := 0;
      while position < |blocks|
        invariant 0 <= position <= |blocks| && rows.Keys == was.Keys
        invariant forall id :: id in was ==>
                    rows[id] == if id in blocks[..position]
                                then was[id].(position := Some(IndexOf(blocks, id)))
                                else was[id]
      {
        IndexIs(blocks, position);
        assert blocks[..position + 1] == blocks[..position] + [blocks[position]];
        rows := rows[blocks[position] := rows[blocks[position]].(position := Some(position))];
        position := position + 1;
      }
      assert blocks[..position] == blocks;
    }
  }
}
