/** The content rows of one organization and what a save asks of them (app/models/content.py).

    Titles, types and slugs arrive stripped and lower-cased where the save would do it. */
module ContentStore {
  import opened Access
  import opened ContentTypes
  import FreeSlugs
  import Sets
  import opened Slugs
  import opened Tiers
  import opened Wrappers

  const RESERVED_ITEM_SLUGS: set<string> := {"feed"}

  const RESERVED_PAGE_SLUGS: set<string> := {
    "manage", "dashboard", "admin", "auth", "setup", "static", "files", "themes", "launcher", "health", "discussions",
    "members", "newsletter", "feed", "sitemap", "profile", "invite", "avatars", "subscribe", "unsubscribe",
    "notifications", "newsletters", "glossary", "tls-check", "_v", "rsvp", "reset", "feed.atom", "sitemap.xml",
    "robots.txt"
  }

  const TITLE_MAX := 200

  datatype Status = Draft | Published | Archived | OtherStatus

  datatype Row = Row(typ: string, title: string, slug: Option<string>, parent: Option<nat>, position: Option<int>,
                     status: Status, visibility: string)

  type Table = map<nat, Row>

  datatype Refusal = StillDrawing | NoSlug | TitleRequired | TitleTooLong | ControlCharacters | BadSlug | UnknownType
                   | BadStatus | BadVisibility | NoParent | InsideItself | ParentIsABlock | HasBlocks | SlugReserved
                   | SlugTaken | NotInThisItem

  /** What the rows live beside: the registry and the ladder of tiers. */
  datatype World = World(types: seq<ContentType>, ladder: seq<Tier>)

  // ------------------------------------------------------------------ address spaces

  function ContentTypeOf(types: seq<ContentType>, typ: string): Option<ContentType> {
    if Find(types, typ).Some? then Find(types, typ) else Find(types, "article")
  }

  predicate IsPage(types: seq<ContentType>, typ: string) {
    var ct := ContentTypeOf(types, typ);
    ct.Some? && ct.value.kind.Page?
  }

  /** Does a block of this type get an address under its parent? */
  predicate WantsAddress(types: seq<ContentType>, typ: string) {
    var ct := Find(types, typ);
    ct.Some? && ct.value.childRoutable
  }

  function BaseWord(ct: ContentType): string {
    if ct.base == "" then "" else ct.base[1..]
  }

  function BaseWords(types: seq<ContentType>): set<string> {
    set ct | ct in types && ct.HasArchive() :: BaseWord(ct)
  }

  function Reserved(types: seq<ContentType>, typ: string): set<string> {
    RESERVED_ITEM_SLUGS + if IsPage(types, typ) then RESERVED_PAGE_SLUGS + BaseWords(types) else {}
  }

  /** The addresses other rows hold in the space of `typ` under `parent`. */
  function Used(rows: Table, id: nat, typ: string, parent: Option<nat>): set<string> {
    set other | other in rows && other != id && rows[other].typ == typ && rows[other].parent == parent
                && rows[other].slug.Some?
              :: rows[other].slug.value
  }

  predicate HasChildren(rows: Table, id: nat) {
    exists other :: other in rows && rows[other].parent == Some(id)
  }

  function SiblingPlaces(rows: Table, id: nat, parent: nat): set<int> {
    set other | other in rows && other != id && rows[other].parent == Some(parent) && rows[other].position.Some?
              :: rows[other].position.value
  }

  // ------------------------------------------------------------------ validate

  predicate VisibilityIsValid(ladder: seq<Tier>, visibility: string) {
    visibility == PUBLIC || visibility == MEMBERS
    || (TierSlug(visibility).Some? && FindSlug(ladder, TierSlug(visibility).value).Some?)
  }

  predicate Control(c: char) {
    (c < ' ' && c != '\t') || c as int == 127
  }

  /** The defaults of a row that leaves something out; a row with no parent has no place. */
  function Defaulted(d: Row): Row {
    Row(if d.typ == "" then "article" else d.typ, d.title, if d.slug == Some("") then None else d.slug, d.parent,
        if d.parent.None? then None else d.position, d.status, if d.visibility == "" then PUBLIC else d.visibility)
  }

  /** The slug dropped where nothing reads it, and derived where the author typed none. */
  function WithSlug(w: World, rows: Table, id: nat, r: Row, draws: seq<string>): Result<Row, Refusal> {
    if r.parent.Some? && !WantsAddress(w.types, r.typ) then Ok(r.(slug := None))
    else if r.slug.Some? then Ok(r)
    else
      var base := Slugify(r.title, "", DERIVED_SLUG_MAX);
      var free := FreeSlugs.Answer(base, true, Reserved(w.types, r.typ) + Used(rows, id, r.typ, r.parent), draws);
      if free.None? then Err(StillDrawing)
      else if free.value == "" then Err(NoSlug)
      else Ok(r.(slug := free))
  }

  function Prepared(w: World, rows: Table, id: nat, d: Row, draws: seq<string>): Result<Row, Refusal> {
    WithSlug(w, rows, id, Defaulted(d), draws)
  }

  function FieldRefusal(w: World, r: Row): Option<Refusal> {
    if r.title == "" then Some(TitleRequired)
    else if |r.title| > TITLE_MAX then Some(TitleTooLong)
    else if exists k :: 0 <= k < |r.title| && Control(r.title[k]) then Some(ControlCharacters)
    else if r.slug.Some? && !Segment(r.slug.value, 198) then Some(Refusal.BadSlug)
    else if Find(w.types, r.typ).None? then Some(UnknownType)
    else if r.status.OtherStatus? then Some(BadStatus)
    else if !VisibilityIsValid(w.ladder, r.visibility) then Some(BadVisibility)
    else None
  }

  function ChildRefusal(rows: Table, id: nat, parent: nat): Option<Refusal> {
    if parent !in rows then Some(NoParent)
    else if parent == id then Some(InsideItself)
    else if rows[parent].parent.Some? then Some(ParentIsABlock)
    else if HasChildren(rows, id) then Some(HasBlocks)
    else None
  }

  function Placed(rows: Table, id: nat, r: Row): Row {
    if r.parent.Some? && r.position.None?
    then r.(position := Some(Sets.Largest(SiblingPlaces(rows, id, r.parent.value), -1) + 1))
    else r
  }

  function AddressRefusal(w: World, rows: Table, id: nat, r: Row): Option<Refusal> {
    if r.slug.None? then None
    else if r.parent.None? && r.slug.value in Reserved(w.types, r.typ) then Some(SlugReserved)
    else if r.slug.value in Used(rows, id, r.typ, r.parent) then Some(Refusal.SlugTaken)
    else None
  }

  function Checked(w: World, rows: Table, id: nat, r: Row): Result<Row, Refusal> {
    if FieldRefusal(w, r).Some? then Err(FieldRefusal(w, r).value)
    else if r.parent.Some? && ChildRefusal(rows, id, r.parent.value).Some?
    then Err(ChildRefusal(rows, id, r.parent.value).value)
    else if AddressRefusal(w, rows, id, r).Some? then Err(AddressRefusal(w, rows, id, r).value)
    else Ok(Placed(rows, id, r))
  }

  /** `validate`, of the row `d` about to be stored as `id`. */
  function Validated(w: World, rows: Table, id: nat, d: Row, draws: seq<string>): Result<Row, Refusal> {
    var prepared := Prepared(w, rows, id, d, draws);
    if prepared.Err? then prepared else Checked(w, rows, id, prepared.value)
  }

  // ------------------------------------------------------------------ the invariant

  /** What is asked of the fields alone. */
  ghost predicate FieldsGood(w: World, r: Row) {
    && 1 <= |r.title| <= 200
    && (forall k :: 0 <= k < |r.title| ==> r.title[k] == '\t' || 32 <= r.title[k] as int != 127)
    && (r.slug.Some? ==> Segment(r.slug.value, 198))
    && (exists ct :: ct in w.types && ct.slug == r.typ)
    && (r.status == Draft || r.status == Published || r.status == Archived)
    && (r.visibility == "public" || r.visibility == "members"
        || exists k :: 0 <= k < |w.ladder| && w.ladder[k].slug != "" && r.visibility == "tier:" + w.ladder[k].slug)
  }

  lemma FieldsAre(w: World, r: Row)
    ensures FieldRefusal(w, r).None? <==> FieldsGood(w, r)
  {
    hide Segment;
    VisibilityIs(w.ladder, r.visibility);
  }

  lemma VisibilityIs(ladder: seq<Tier>, visibility: string)
    ensures VisibilityIsValid(ladder, visibility) <==>
            || visibility == "public" || visibility == "members"
            || exists k :: 0 <= k < |ladder| && ladder[k].slug != "" && visibility == "tier:" + ladder[k].slug
  {
    var slug := TierSlug(visibility);
    if slug.Some? && FindSlug(ladder, slug.value).Some? {
      assert visibility == "tier:" + ladder[FindSlug(ladder, slug.value).value].slug;
    }
    if k :| 0 <= k < |ladder| && ladder[k].slug != "" && visibility == "tier:" + ladder[k].slug {
      TierValue(ladder[k].slug, visibility);
    }
  }

  ghost predicate GoodRow(w: World, rows: Table, r: Row) {
    && FieldsGood(w, r)
    && match r.parent
       case None => r.position.None? && r.slug.Some? && r.slug.value !in Reserved(w.types, r.typ)
       case Some(p) => p in rows && rows[p].parent.None? && (r.slug.Some? <==> WantsAddress(w.types, r.typ))
  }

  /** Every block has a place, which a save gives it; rows written before places existed have none. */
  ghost predicate BlocksPlaced(rows: Table) {
    forall id :: id in rows && rows[id].parent.Some? ==> rows[id].position.Some?
  }

  predicate SameSpace(a: Row, b: Row) {
    a.typ == b.typ && a.parent == b.parent
  }

  ghost predicate UniqueAddresses(rows: Table) {
    forall a, b :: a in rows && b in rows && a != b && SameSpace(rows[a], rows[b]) && rows[a].slug.Some?
                   ==> rows[a].slug != rows[b].slug
  }

  lemma OneAddressOneRow(rows: Table, a: nat, b: nat)
    requires UniqueAddresses(rows) && a in rows && b in rows && SameSpace(rows[a], rows[b])
    requires rows[a].slug.Some? && rows[a].slug == rows[b].slug
    ensures a == b
  {
  }

  /** Blocks are one level deep under rows that exist, every standalone row and every block that
      wants one has a well-formed address of its own, and nothing else has an address. */
  ghost predicate GoodStore(w: World, rows: Table) {
    (forall id :: id in rows ==> GoodRow(w, rows, rows[id])) && UniqueAddresses(rows)
  }

  lemma PreparedHolds(w: World, rows: Table, id: nat, d: Row, draws: seq<string>)
    requires Prepared(w, rows, id, d, draws).Ok?
    ensures var r := Prepared(w, rows, id, d, draws).value;
            && r.parent == d.parent && (r.parent.None? ==> r.position.None? && r.slug.Some?)
            && (r.parent.Some? ==> (r.slug.Some? <==> WantsAddress(w.types, r.typ)))
  {
    hide WantsAddress, Slugify, FreeSlugs.Answer, Reserved, Used;
  }

  /** A save that is not refused leaves a good store. */
  lemma SaveKeepsGood(w: World, rows: Table, id: nat, d: Row, draws: seq<string>)
    requires GoodStore(w, rows) && Validated(w, rows, id, d, draws).Ok?
    ensures GoodStore(w, rows[id := Validated(w, rows, id, d, draws).value])
  {
    PreparedHolds(w, rows, id, d, draws);
    var p := Prepared(w, rows, id, d, draws).value;
    RowsStayGood(w, rows, id, p);
    StaysUnique(rows, id, Placed(rows, id, p));
  }

  lemma StaysUnique(rows: Table, id: nat, r: Row)
    requires UniqueAddresses(rows) && (r.slug.Some? ==> r.slug.value !in Used(rows, id, r.typ, r.parent))
    ensures UniqueAddresses(rows[id := r])
  {
    forall other | other in rows && other != id && SameSpace(rows[other], r) && r.slug.Some?
      ensures rows[other].slug != r.slug
    {
      if rows[other].slug.Some? { assert rows[other].slug.value in Used(rows, id, r.typ, r.parent); }
    }
  }

  lemma RowsStayGood(w: World, rows: Table, id: nat, p: Row)
    requires GoodStore(w, rows) && Checked(w, rows, id, p).Ok?
    requires p.parent.None? ==> p.position.None? && p.slug.Some?
    requires p.parent.Some? ==> (p.slug.Some? <==> WantsAddress(w.types, p.typ))
    ensures var after := rows[id := Placed(rows, id, p)];
            forall other :: other in after ==> GoodRow(w, after, after[other])
  {
    var r := Placed(rows, id, p);
    forall other | other in rows && other != id ensures GoodRow(w, rows[id := r], rows[other]) {
      OtherStaysGood(w, rows, id, r, other);
    }
    SavedIsGood(w, rows, id, p);
  }

  lemma SavedIsPlaced(w: World, rows: Table, id: nat, d: Row, draws: seq<string>)
    requires Validated(w, rows, id, d, draws).Ok?
    ensures var r := Validated(w, rows, id, d, draws).value; r.parent.Some? ==> r.position.Some?
  {
    hide Prepared, FieldRefusal, AddressRefusal;
  }

  lemma SavedIsGood(w: World, rows: Table, id: nat, p: Row)
    requires Checked(w, rows, id, p).Ok?
    requires p.parent.None? ==> p.position.None? && p.slug.Some?
    requires p.parent.Some? ==> (p.slug.Some? <==> WantsAddress(w.types, p.typ))
    ensures GoodRow(w, rows[id := Placed(rows, id, p)], Placed(rows, id, p))
  {
    assert FieldRefusal(w, Placed(rows, id, p)) == FieldRefusal(w, p);
  }

  lemma OtherStaysGood(w: World, rows: Table, id: nat, r: Row, other: nat)
    requires other in rows && GoodRow(w, rows, rows[other])
    requires r.parent.Some? ==> !HasChildren(rows, id)
    ensures GoodRow(w, rows[id := r], rows[other])
  {
  }

  /** A row saved as it stands is stored as it stands: its address never moves by itself, nor does
      its place, except that a block without one is put after its siblings. */
  lemma ResavingChangesNothing(w: World, rows: Table, id: nat, draws: seq<string>)
    requires GoodRegistry(w.types) && GoodStore(w, rows) && id in rows
    ensures Validated(w, rows, id, rows[id], draws) == Ok(Placed(rows, id, rows[id]))
    ensures Placed(rows, id, rows[id]) == rows[id] <==> rows[id].parent.None? || rows[id].position.Some?
  {
    PreparedAlready(w, rows, id, rows[id], draws);
    assert GoodRow(w, rows, rows[id]);
    if rows[id].parent.Some? { BlocksHaveNoBlocks(w, rows, id); }
    CheckedAlready(w, rows, id);
  }

  lemma BlocksHaveNoBlocks(w: World, rows: Table, id: nat)
    requires GoodStore(w, rows) && id in rows && rows[id].parent.Some?
    ensures !HasChildren(rows, id) && rows[id].parent != Some(id)
  {
    forall other | other in rows ensures rows[other].parent != Some(id) { assert GoodRow(w, rows, rows[other]); }
  }

  lemma CheckedAlready(w: World, rows: Table, id: nat)
    requires id in rows && GoodRow(w, rows, rows[id]) && UniqueAddresses(rows)
    requires rows[id].parent.Some? ==> !HasChildren(rows, id) && rows[id].parent != Some(id)
    ensures Checked(w, rows, id, rows[id]) == Ok(Placed(rows, id, rows[id]))
  {
  }

  lemma PreparedAlready(w: World, rows: Table, id: nat, r: Row, draws: seq<string>)
    requires GoodRegistry(w.types) && GoodRow(w, rows, r)
    ensures Prepared(w, rows, id, r, draws) == Ok(r)
  {
    assert TierSlug("").None?;
  }

  /** A slug nobody typed is never what a save is refused for. */
  lemma DerivedSlugIsNeverRefused(w: World, rows: Table, id: nat, d: Row, draws: seq<string>)
    requires (d.slug.None? || d.slug == Some("")) && forall h :: h in draws ==> FreeSlugs.Hex(h)
    requires Prepared(w, rows, id, d, draws).Ok?
    ensures var r := Prepared(w, rows, id, d, draws).value;
            AddressRefusal(w, rows, id, r).None? && FieldRefusal(w, r) != Some(Refusal.BadSlug)
  {
    hide AddressRefusal, FieldRefusal, Reserved, Used, Core, Words,
         FreeSlugs.FirstFree, FreeSlugs.Probe, FreeSlugs.FirstDrawn;
    var r := Prepared(w, rows, id, d, draws).value;
    if r.slug.Some? {
      SlugIsClean(d.title, DERIVED_SLUG_MAX);
      FreeSlugs.AnswerIsWellFormed(Slugify(d.title, "", DERIVED_SLUG_MAX),
                                   Reserved(w.types, r.typ) + Used(rows, id, r.typ, r.parent), draws, r.slug.value);
    }
    FreeIsNotRefused(w, rows, id, r);
  }

  lemma FreeIsNotRefused(w: World, rows: Table, id: nat, r: Row)
    requires r.slug.Some? ==> Segment(r.slug.value, 198)
                              && r.slug.value !in Reserved(w.types, r.typ) + Used(rows, id, r.typ, r.parent)
    ensures AddressRefusal(w, rows, id, r).None? && FieldRefusal(w, r) != Some(Refusal.BadSlug)
  {
  }

  // ------------------------------------------------------------------ what a save stores, and when

  /** An item stands where it may: inside an item that is there, stands alone and is not itself one
      of the blocks, and only while it has no blocks. */
  ghost predicate MayStand(rows: Table, id: nat, r: Row) {
    r.parent.Some? ==>
      && r.parent.value in rows && r.parent.value != id && rows[r.parent.value].parent.None?
      && forall other :: other in rows ==> rows[other].parent != Some(id)
  }

  /** The address is a route already: an archive's feed beside an item, and for a page whatever the
      application mounts or an archive has as its base. */
  ghost predicate Routed(types: seq<ContentType>, typ: string, slug: string) {
    || slug == "feed"
    || ((exists ct :: ct in types && ct.slug == typ && ct.kind.Page?)
        && (slug in RESERVED_PAGE_SLUGS || exists ct :: ct in types && ct.kind.Post? && ct.base == "/" + slug))
  }

  lemma RoutedIs(types: seq<ContentType>, typ: string, slug: string)
    requires GoodRegistry(types) && Find(types, typ).Some?
    ensures slug in Reserved(types, typ) <==> Routed(types, typ, slug)
  {
    hide GoodRegistry, IsPage, BaseWords;
    PageIs(types, typ);
    BaseWordIs(types, slug);
  }

  lemma PageIs(types: seq<ContentType>, typ: string)
    requires GoodRegistry(types) && Find(types, typ).Some?
    ensures IsPage(types, typ) <==> exists ct :: ct in types && ct.slug == typ && ct.kind.Page?
  {
    forall ct | ct in types && ct.slug == typ ensures Find(types, typ) == Some(ct) { SlugFindsItsType(types, ct); }
  }

  lemma BaseWordIs(types: seq<ContentType>, slug: string)
    requires GoodRegistry(types)
    ensures slug in BaseWords(types) <==> exists ct :: ct in types && ct.kind.Post? && ct.base == "/" + slug
  {
    if slug in BaseWords(types) {
      var ct :| ct in types && ct.HasArchive() && BaseWord(ct) == slug;
      BaseOf(types, ct);
    }
    if ct :| ct in types && ct.kind.Post? && ct.base == "/" + slug { assert BaseWord(ct) == slug; }
  }

  lemma BaseOf(types: seq<ContentType>, ct: ContentType)
    requires GoodRegistry(types) && ct in types && ct.HasArchive()
    ensures ct.base == "/" + BaseWord(ct)
  {
    assert ValidDefinition(ct);
  }

  /** Blocks of the type have an address of their own. */
  ghost predicate Routable(types: seq<ContentType>, typ: string) {
    exists ct :: ct in types && ct.slug == typ && ct.childRoutable
  }

  lemma RoutableIs(types: seq<ContentType>, typ: string)
    requires GoodRegistry(types)
    ensures WantsAddress(types, typ) <==> Routable(types, typ)
  {
    forall ct | ct in types && ct.slug == typ ensures Find(types, typ) == Some(ct) { SlugFindsItsType(types, ct); }
  }

  /** Its address is free: no route's where it stands alone, and no other row's of its type in its
      place. */
  ghost predicate AddressFree(w: World, rows: Table, id: nat, r: Row) {
    r.slug.Some? ==>
      && (r.parent.None? ==> !Routed(w.types, r.typ, r.slug.value))
      && forall other :: other in rows && other != id && SameSpace(rows[other], r) ==> rows[other].slug != r.slug
  }

  /** The slug the save goes on with: as typed, or none where nothing would read it. */
  ghost function TypedSlug(w: World, d: Row, typ: string): Option<string> {
    if d.slug == Some("") || (d.parent.Some? && !Routable(w.types, typ)) then None else d.slug
  }

  /** The defaults, spelled out: an article, public, and a place only inside an item. */
  function Intended(d: Row): Row {
    d.(typ := if d.typ == "" then "article" else d.typ,
       visibility := if d.visibility == "" then "public" else d.visibility,
       position := if d.parent.Some? then d.position else None)
  }

  /** Where the author typed a slug, or none is wanted, a save is accepted exactly when the fields
      are good, the row may stand where it is put and its address is free; and it then stores what
      was typed, under the defaults, with a place for a block that names none. */
  lemma SaveSucceedsExactly(w: World, rows: Table, id: nat, d: Row, draws: seq<string>)
    requires GoodRegistry(w.types)
    requires TypedSlug(w, d, Intended(d).typ).Some? || (d.parent.Some? && !Routable(w.types, Intended(d).typ))
    ensures var r := Intended(d).(slug := TypedSlug(w, d, Intended(d).typ));
            && (Validated(w, rows, id, d, draws).Ok? <==>
                  FieldsGood(w, r) && MayStand(rows, id, r) && AddressFree(w, rows, id, r))
            && (Validated(w, rows, id, d, draws).Ok? ==>
                  var stored := Validated(w, rows, id, d, draws).value;
                  stored.(position := r.position) == r && (r.position.Some? || r.parent.None? ==> stored == r))
  {
    hide WantsAddress, Reserved, Routable, AddressFree, AddressRefusal, FieldsGood, FieldRefusal;
    var r := Intended(d).(slug := TypedSlug(w, d, Intended(d).typ));
    RoutableIs(w.types, r.typ);
    assert Prepared(w, rows, id, d, draws) == Ok(r);
    FieldsAre(w, r);
    StandingIs(rows, id, r);
    if FieldsGood(w, r) {
      TypeIsRegistered(w, r);
      AddressIs(w, rows, id, r);
    }
  }

  lemma TypeIsRegistered(w: World, r: Row)
    requires FieldsGood(w, r)
    ensures Find(w.types, r.typ).Some?
  {
  }

  lemma StandingIs(rows: Table, id: nat, r: Row)
    ensures MayStand(rows, id, r) <==> r.parent.None? || ChildRefusal(rows, id, r.parent.value).None?
  {
  }

  lemma AddressIs(w: World, rows: Table, id: nat, r: Row)
    requires GoodRegistry(w.types) && Find(w.types, r.typ).Some?
    ensures AddressFree(w, rows, id, r) <==> AddressRefusal(w, rows, id, r).None?
  {
    hide Reserved, Routed;
    if r.slug.Some? {
      RoutedIs(w.types, r.typ, r.slug.value);
      assert r.slug.value in Used(rows, id, r.typ, r.parent) <==>
             exists other :: other in rows && other != id && SameSpace(rows[other], r) && rows[other].slug == r.slug;
    }
  }

  /** Where no slug was typed and one is wanted, it is the title's own words where that is free, and
      in any case free; a title without a letter or digit is refused for it. */
  lemma SlugComesFromTheTitle(w: World, rows: Table, id: nat, d: Row, draws: seq<string>)
    requires GoodRegistry(w.types) && Find(w.types, Intended(d).typ).Some?
    requires (d.slug.None? || d.slug == Some("")) && (d.parent.None? || Routable(w.types, Intended(d).typ))
    ensures var own, p := Slugify(d.title, "", 60), Prepared(w, rows, id, d, draws);
            && (own == "" <==> p == Err(NoSlug))
            && (p.Ok? ==> p.value.slug.Some? && p.value.(slug := None) == Intended(d).(slug := None))
            && (own != "" && AddressFree(w, rows, id, Intended(d).(slug := Some(own)))
                && (d.parent.Some? ==> !Routed(w.types, Intended(d).typ, own))
                ==> p.Ok? && p.value.slug == Some(own))
  {
    hide WantsAddress, Reserved, Slugify, FreeSlugs.Answer, Routed;
    var own, r := Slugify(d.title, "", DERIVED_SLUG_MAX), Intended(d);
    FreeSlugs.FreeBaseIsKept(own, Reserved(w.types, r.typ) + Used(rows, id, r.typ, r.parent), draws);
    AddressIs(w, rows, id, r.(slug := Some(own)));
    RoutedIs(w.types, r.typ, own);
    RoutableIs(w.types, r.typ);
    assert Defaulted(d) == r.(slug := None);
  }

  // ------------------------------------------------------------------ deleting, and the world changing

  /** A deletion takes the blocks inside the row with it. */
  function Cascade(rows: Table, id: nat): Table {
    map other | other in rows && other != id && rows[other].parent != Some(id) :: rows[other]
  }

  /** Deleting an item takes it and its blocks and nothing else: what stays is as it was, and what
      goes is the item and what was inside it. */
  lemma DeletingTakesOnly(rows: Table, id: nat, other: nat)
    ensures other in Cascade(rows, id) ==> other in rows && Cascade(rows, id)[other] == rows[other]
    ensures other in rows && other !in Cascade(rows, id)
            <==> other in rows && (other == id || rows[other].parent == Some(id))
  {
  }

  /** A new item deleted again leaves the table as it was. */
  lemma DeletingUndoesAdding(w: World, rows: Table, id: nat, r: Row)
    requires GoodStore(w, rows) && id !in rows
    ensures Cascade(rows[id := r], id) == rows
  {
    forall other | other in rows ensures rows[other].parent != Some(id) { assert GoodRow(w, rows, rows[other]); }
  }

  lemma DeletingKeepsGood(w: World, rows: Table, id: nat)
    requires GoodStore(w, rows)
    ensures GoodStore(w, Cascade(rows, id))
  {
    var after := Cascade(rows, id);
    forall other | other in after ensures GoodRow(w, after, after[other]) {
      assert GoodRow(w, rows, rows[other]);
      var parent := rows[other].parent;
      if parent.Some? { assert rows[parent.value].parent.None?; }
    }
  }

  /** Tiers are added and retired, never deleted, so no row is stranded by the ladder. */
  lemma LadderGrowthKeepsGood(w: World, rows: Table, ladder: seq<Tier>)
    requires GoodStore(w, rows)
    requires forall slug :: FindSlug(w.ladder, slug).Some? ==> FindSlug(ladder, slug).Some?
    ensures GoodStore(w.(ladder := ladder), rows)
  {
    forall id | id in rows ensures GoodRow(w.(ladder := ladder), rows, rows[id]) {
      GrowthKeepsRow(w, rows, ladder, rows[id]);
    }
  }

  lemma GrowthKeepsRow(w: World, rows: Table, ladder: seq<Tier>, r: Row)
    requires GoodRow(w, rows, r)
    requires forall slug :: FindSlug(w.ladder, slug).Some? ==> FindSlug(ladder, slug).Some?
    ensures GoodRow(w.(ladder := ladder), rows, r)
  {
    assert VisibilityIsValid(ladder, r.visibility);
  }
}
