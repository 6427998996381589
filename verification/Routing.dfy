/** The permalink printer (app/models/content.py) and the dispatcher that has to invert it
    (app/controllers/site.py), on the text of the path. Only the site's own rules: what the
    application mounts under its reserved prefixes is not here. */
module Routing {
  import Blocks
  import opened ContentStore
  import opened ContentTypes
  import opened Slugs
  import opened Wrappers

  // ------------------------------------------------------------------ paths

  function Path(segments: seq<string>): string {
    if segments == [] then "" else "/" + segments[0] + Path(segments[1..])
  }

  function ToSlash(s: string): (n: nat)
    ensures n <= |s| && (n < |s| ==> s[n] == '/')
    ensures forall k :: 0 <= k < n ==> s[k] != '/'
  {
    if s == "" || s[0] == '/' then 0 else 1 + ToSlash(s[1..])
  }

  /** The segments of a path, as the URL map sees them. */
  function Split(path: string): seq<string>
    requires path == "" || path[0] == '/'
    decreases |path|
  {
    if path == "" then []
    else
      var n := ToSlash(path[1..]);
      [path[1..n + 1]] + Split(path[n + 1..])
  }

  predicate NoSlash(s: string) {
    s != "" && forall k :: 0 <= k < |s| ==> s[k] != '/'
  }

  lemma PathStarts(segments: seq<string>)
    ensures Path(segments) == "" || Path(segments)[0] == '/'
  {
  }

  lemma SegmentEnds(s: string, rest: string)
    requires forall k :: 0 <= k < |s| ==> s[k] != '/'
    requires rest == "" || rest[0] == '/'
    ensures ToSlash(s + rest) == |s|
  {
    assert forall k :: 0 <= k < |s| ==> (s + rest)[k] == s[k];
    assert rest != "" ==> (s + rest)[|s|] == rest[0];
  }

  lemma {:induction false} SplitInvertsPath(segments: seq<string>)
    requires forall k :: 0 <= k < |segments| ==> NoSlash(segments[k])
    ensures Path(segments) == "" || Path(segments)[0] == '/'
    ensures Split(Path(segments)) == segments
  {
    hide ToSlash;
    PathStarts(segments);
    if segments != [] {
      var s, rest := segments[0], Path(segments[1..]);
      PathStarts(segments[1..]);
      SegmentEnds(s, rest);
      assert Path(segments)[1..] == s + rest;
      assert Path(segments)[1..|s| + 1] == s && Path(segments)[|s| + 1..] == rest;
      SplitInvertsPath(segments[1..]);
    }
  }

  lemma {:induction false} PathOfTwo(a: seq<string>, b: seq<string>)
    ensures Path(a + b) == Path(a) + Path(b)
  {
    if a == [] {
      assert a + b == b;
    } else {
      assert (a + b)[1..] == a[1..] + b;
      PathOfTwo(a[1..], b);
    }
  }

  // ------------------------------------------------------------------ the printer

  ghost predicate Sound(w: World, rows: Table) {
    GoodRegistry(w.types) && GoodStore(w, rows)
  }

  function TypeOf(w: World, rows: Table, id: nat): ContentType
    requires Sound(w, rows) && id in rows
  {
    assert GoodRow(w, rows, rows[id]);
    Find(w.types, rows[id].typ).value
  }

  function Text(slug: Option<string>): string {
    if slug.Some? then slug.value else "None"
  }

  /** Has this block an address of its own under its parent? */
  predicate Addressed(w: World, org: Org, rows: Table, id: nat)
    requires Sound(w, rows) && id in rows && rows[id].parent.Some?
  {
    assert GoodRow(w, rows, rows[id]);
    var ct := TypeOf(w, rows, id);
    ct.childRoutable && rows[id].slug.Some? && TypeOf(w, rows, rows[id].parent.value).HasArchive() && IsActive(org, ct)
  }

  function TypeLink(ct: ContentType, slug: string): string {
    if ct.kind.Page? then "/" + slug else ct.base + "/" + slug
  }

  function StandaloneLink(w: World, rows: Table, id: nat): string
    requires Sound(w, rows) && id in rows
  {
    TypeLink(TypeOf(w, rows, id), Text(rows[id].slug))
  }

  function Permalink(w: World, org: Org, rows: Table, id: nat): string
    requires Sound(w, rows) && id in rows
  {
    assert GoodRow(w, rows, rows[id]);
    match rows[id].parent
    case None => StandaloneLink(w, rows, id)
    case Some(parent) =>
      if Addressed(w, org, rows, id)
      then StandaloneLink(w, rows, parent) + TypeOf(w, rows, id).base + "/" + Text(rows[id].slug)
      else StandaloneLink(w, rows, parent)
  }

  // ------------------------------------------------------------------ the dispatcher

  datatype Answer = Archive(typ: string) | Item(id: nat) | OtherRoute | NotFound

  predicate Blank(c: char) {
    c == ' ' || '\t' <= c <= '\r' || 28 <= c as int <= 31
  }

  function TrimLeft(s: string): string {
    if s != "" && Blank(s[0]) then TrimLeft(s[1..]) else s
  }

  function TrimRight(s: string): string {
    if s != "" && Blank(s[|s| - 1]) then TrimRight(s[..|s| - 1]) else s
  }

  function Normal(slug: string): string {
    Lower(TrimRight(TrimLeft(slug)))
  }

  predicate Matches(rows: Table, id: nat, typ: string, parent: Option<nat>, slug: string) {
    id in rows && rows[id].typ == typ && rows[id].parent == parent && rows[id].status.Published?
    && rows[id].slug == Some(Normal(slug))
  }

  /** The first published row at an address. */
  ghost function Lookup(rows: Table, typ: string, parent: Option<nat>, slug: string): (r: Option<nat>)
    ensures r.Some? ==> Matches(rows, r.value, typ, parent, slug)
    ensures r.None? ==> forall id :: !Matches(rows, id, typ, parent, slug)
  {
    if id :| Matches(rows, id, typ, parent, slug) then Some(id) else None
  }

  ghost function Found(r: Option<nat>): Answer {
    if r.Some? then Item(r.value) else NotFound
  }

  ghost function Entry(w: World, org: Org, rows: Table, seg: string): Answer {
    var ct := TypeForBase(org, w.types, "/" + seg);
    if ct.Some? then Archive(ct.value.slug) else Found(Lookup(rows, "page", None, seg))
  }

  ghost function Single(w: World, org: Org, rows: Table, seg: string, slug: string): Answer {
    var ct := TypeForBase(org, w.types, "/" + seg);
    if ct.None? then NotFound else Found(Lookup(rows, ct.value.slug, None, slug))
  }

  /** The converter of a first segment that could belong to published content. */
  predicate PublishedSegment(seg: string) {
    Segment(seg, |seg|) && seg !in RESERVED_PAGE_SLUGS
  }

  ghost function ChildSingle(w: World, org: Org, rows: Table,
                             pseg: string, pslug: string, cseg: string, cslug: string): Answer {
    var parentType, childType := TypeForBase(org, w.types, "/" + pseg), TypeForBase(org, w.types, "/" + cseg);
    if !PublishedSegment(pseg) || parentType.None? || childType.None? || !childType.value.childRoutable then NotFound
    else
      var parent := Lookup(rows, parentType.value.slug, None, pslug);
      if parent.None? then NotFound else Found(Lookup(rows, childType.value.slug, parent, cslug))
  }

  ghost function DispatchSegments(w: World, org: Org, rows: Table, s: seq<string>): Answer {
    if "" in s then NotFound
    else if |s| == 1 then Entry(w, org, rows, s[0])
    else if |s| == 2 then
      if s[1] == "feed" || s[1] == "feed.atom" then OtherRoute else Single(w, org, rows, s[0], s[1])
    else if |s| == 3 then if s[1] == "category" || s[1] == "tag" then OtherRoute else NotFound
    else if |s| == 4 then ChildSingle(w, org, rows, s[0], s[1], s[2], s[3])
    else NotFound
  }

  ghost function Dispatch(w: World, org: Org, rows: Table, path: string): Answer {
    if path == "" || path[0] != '/' then NotFound else DispatchSegments(w, org, rows, Split(path))
  }

  // ------------------------------------------------------------------ the address of a row

  /** What a type puts at the end of an address. */
  function Tail(ct: ContentType, slug: string): seq<string> {
    if ct.HasArchive() then [BaseWord(ct), slug] else [slug]
  }

  function OwnAddress(w: World, rows: Table, id: nat): seq<string>
    requires Sound(w, rows) && id in rows
  {
    Tail(TypeOf(w, rows, id), Text(rows[id].slug))
  }

  function Address(w: World, org: Org, rows: Table, id: nat): seq<string>
    requires Sound(w, rows) && id in rows
  {
    assert GoodRow(w, rows, rows[id]);
    match rows[id].parent
    case None => OwnAddress(w, rows, id)
    case Some(parent) =>
      OwnAddress(w, rows, parent) + if Addressed(w, org, rows, id) then OwnAddress(w, rows, id) else []
  }

  ghost predicate Clear(a: seq<string>) {
    forall k :: 0 <= k < |a| ==> NoSlash(a[k])
  }

  lemma TailHolds(ct: ContentType, slug: string)
    requires ValidDefinition(ct) && Segment(slug, 198)
    ensures Clear(Tail(ct, slug)) && Path(Tail(ct, slug)) == TypeLink(ct, slug) == ct.base + ("/" + slug)
  {
    assert Path([slug]) == "/" + slug;
    if ct.HasArchive() {
      assert [BaseWord(ct), slug][1..] == [slug];
      assert ct.base == "/" + BaseWord(ct);
    }
  }

  lemma OwnAddressHolds(w: World, rows: Table, id: nat)
    requires Sound(w, rows) && id in rows && rows[id].slug.Some?
    ensures Clear(OwnAddress(w, rows, id)) && Path(OwnAddress(w, rows, id)) == StandaloneLink(w, rows, id)
    ensures StandaloneLink(w, rows, id) == TypeOf(w, rows, id).base + ("/" + Text(rows[id].slug))
  {
    assert GoodRow(w, rows, rows[id]);
    TailHolds(TypeOf(w, rows, id), rows[id].slug.value);
  }

  lemma AddressHolds(w: World, org: Org, rows: Table, id: nat)
    requires Sound(w, rows) && id in rows
    ensures Clear(Address(w, org, rows, id)) && Path(Address(w, org, rows, id)) == Permalink(w, org, rows, id)
  {
    assert GoodRow(w, rows, rows[id]);
    if rows[id].parent.None? {
      OwnAddressHolds(w, rows, id);
    } else {
      BlockAddressHolds(w, org, rows, id, rows[id].parent.value);
    }
  }

  lemma BlockAddressHolds(w: World, org: Org, rows: Table, id: nat, parent: nat)
    requires Sound(w, rows) && id in rows && rows[id].parent == Some(parent)
    ensures Clear(Address(w, org, rows, id)) && Path(Address(w, org, rows, id)) == Permalink(w, org, rows, id)
  {
    ParentHolds(w, rows, id, parent);
    var own := OwnAddress(w, rows, parent);
    OwnAddressHolds(w, rows, parent);
    if Addressed(w, org, rows, id) {
      OwnAddressHolds(w, rows, id);
      ClearJoin(own, OwnAddress(w, rows, id));
      Regroup(StandaloneLink(w, rows, parent), TypeOf(w, rows, id).base, Text(rows[id].slug));
    } else {
      assert own + [] == own;
    }
  }

  lemma ParentHolds(w: World, rows: Table, id: nat, parent: nat)
    requires Sound(w, rows) && id in rows && rows[id].parent == Some(parent)
    ensures parent in rows && rows[parent].parent.None? && rows[parent].slug.Some?
  {
    assert GoodRow(w, rows, rows[id]);
    assert GoodRow(w, rows, rows[parent]);
  }

  lemma Regroup(link: string, base: string, slug: string)
    ensures link + base + "/" + slug == link + (base + ("/" + slug))
  {
  }

  lemma ClearJoin(a: seq<string>, b: seq<string>)
    requires Clear(a) && Clear(b)
    ensures Clear(a + b) && Path(a + b) == Path(a) + Path(b)
  {
    PathOfTwo(a, b);
  }

  // ------------------------------------------------------------------ dispatch inverts the printer

  lemma {:induction false} LowerOf(s: string)
    requires forall k :: 0 <= k < |s| ==> !('A' <= s[k] <= 'Z')
    ensures Lower(s) == s
  {
    if s != "" { LowerOf(s[1..]); }
  }

  lemma PlainIsNormal(s: string)
    requires s != "" && !Blank(s[0]) && !Blank(s[|s| - 1]) && forall k :: 0 <= k < |s| ==> !('A' <= s[k] <= 'Z')
    ensures Normal(s) == s
  {
    LowerOf(s);
  }

  lemma NormalOf(s: string)
    requires Segment(s, 198)
    ensures Normal(s) == s
  {
    PlainIsNormal(s);
  }

  /** A row's own type, parent and slug look up that row or, where it is not published, nothing. */
  lemma LookupFinds(w: World, rows: Table, id: nat)
    requires Sound(w, rows) && id in rows && rows[id].slug.Some?
    ensures Lookup(rows, rows[id].typ, rows[id].parent, rows[id].slug.value)
         == if rows[id].status.Published? then Some(id) else None
  {
    var r := rows[id];
    assert GoodRow(w, rows, r);
    NormalOf(r.slug.value);
    OnlyOne(rows, id, r.typ, r.parent, r.slug.value);
    if r.status.Published? { assert Matches(rows, id, r.typ, r.parent, r.slug.value); }
  }

  lemma OnlyOne(rows: Table, id: nat, typ: string, parent: Option<nat>, slug: string)
    requires UniqueAddresses(rows) && id in rows && rows[id].typ == typ && rows[id].parent == parent
    requires rows[id].slug == Some(slug) && Normal(slug) == slug
    ensures forall other :: Matches(rows, other, typ, parent, slug) ==> other == id
  {
    forall other | Matches(rows, other, typ, parent, slug) ensures other == id {
      if other != id { assert SameSpace(rows[id], rows[other]); }
    }
  }

  /** A page's address is no archive's. */
  lemma PageIsNoArchive(w: World, org: Org, rows: Table, id: nat)
    requires Sound(w, rows) && id in rows && rows[id].parent.None? && TypeOf(w, rows, id).kind.Page?
    ensures rows[id].slug.Some? && TypeForBase(org, w.types, "/" + rows[id].slug.value).None?
  {
    assert GoodRow(w, rows, rows[id]);
    BaseIsReserved(org, w.types, rows[id].slug.value);
  }

  lemma BaseIsReserved(org: Org, types: seq<ContentType>, seg: string)
    ensures TypeForBase(org, types, "/" + seg).Some? ==> seg in BaseWords(types)
  {
    var ct := TypeForBase(org, types, "/" + seg);
    if ct.Some? { assert BaseWord(ct.value) == seg; }
  }

  lemma PageIsFound(w: World, org: Org, rows: Table, id: nat)
    requires Sound(w, rows) && id in rows && rows[id].parent.None? && TypeOf(w, rows, id).kind.Page?
    ensures Entry(w, org, rows, Text(rows[id].slug)) == Item(id)
            <==> rows[id].status.Published? && rows[id].typ == "page"
  {
    PageIsNoArchive(w, org, rows, id);
    LookupFinds(w, rows, id);
  }

  lemma BaseHolds(w: World, org: Org, rows: Table, id: nat)
    requires Sound(w, rows) && id in rows && TypeOf(w, rows, id).HasArchive()
    ensures var ct := TypeOf(w, rows, id);
            && Segment(BaseWord(ct), 48) && "/" + BaseWord(ct) == ct.base && ct.slug == rows[id].typ
            && TypeForBase(org, w.types, "/" + BaseWord(ct)) == if IsActive(org, ct) then Some(ct) else None
  {
    assert GoodRow(w, rows, rows[id]);
    TypeBaseHolds(org, w.types, TypeOf(w, rows, id));
  }

  lemma TypeBaseHolds(org: Org, types: seq<ContentType>, ct: ContentType)
    requires GoodRegistry(types) && ct in types && ct.HasArchive()
    ensures Segment(BaseWord(ct), 48) && "/" + BaseWord(ct) == ct.base
    ensures TypeForBase(org, types, "/" + BaseWord(ct)) == if IsActive(org, ct) then Some(ct) else None
  {
    assert ValidDefinition(ct);
    assert "/" + BaseWord(ct) == ct.base;
    BaseFindsItsType(org, types, ct);
  }

  lemma PostIsFound(w: World, org: Org, rows: Table, id: nat)
    requires Sound(w, rows) && id in rows && rows[id].parent.None? && TypeOf(w, rows, id).HasArchive()
    ensures Single(w, org, rows, BaseWord(TypeOf(w, rows, id)), Text(rows[id].slug))
         == if rows[id].status.Published? && IsActive(org, TypeOf(w, rows, id)) then Item(id) else NotFound
  {
    assert GoodRow(w, rows, rows[id]);
    BaseHolds(w, org, rows, id);
    LookupFinds(w, rows, id);
  }

  /** Where a row is read at its own permalink. */
  predicate Served(w: World, org: Org, rows: Table, id: nat)
    requires Sound(w, rows) && id in rows
  {
    assert GoodRow(w, rows, rows[id]);
    var r, ct := rows[id], TypeOf(w, rows, id);
    && r.status.Published?
    && match r.parent
       case None => if ct.kind.Page? then r.typ == "page" else IsActive(org, ct)
       case Some(parent) =>
         var pt := TypeOf(w, rows, parent);
         && Addressed(w, org, rows, id) && ct.HasArchive()
         && rows[parent].status.Published? && IsActive(org, pt) && BaseWord(pt) !in RESERVED_PAGE_SLUGS
  }

  lemma BlockIsFound(w: World, org: Org, rows: Table, id: nat, parent: nat)
    requires Sound(w, rows) && id in rows && rows[id].parent == Some(parent) && Addressed(w, org, rows, id)
    requires TypeOf(w, rows, id).HasArchive()
    ensures parent in rows
    ensures ChildSingle(w, org, rows, BaseWord(TypeOf(w, rows, parent)), Text(rows[parent].slug),
                        BaseWord(TypeOf(w, rows, id)), Text(rows[id].slug))
         == if Served(w, org, rows, id) then Item(id) else NotFound
  {
    ParentHolds(w, rows, id, parent);
    BaseHolds(w, org, rows, id);
    BaseHolds(w, org, rows, parent);
    LookupFinds(w, rows, id);
    LookupFinds(w, rows, parent);
  }

  lemma DispatchIsBySegments(w: World, org: Org, rows: Table, id: nat)
    requires Sound(w, rows) && id in rows
    ensures Dispatch(w, org, rows, Permalink(w, org, rows, id))
            == DispatchSegments(w, org, rows, Address(w, org, rows, id))
  {
    AddressHolds(w, org, rows, id);
    SplitInvertsPath(Address(w, org, rows, id));
    HasSegments(w, org, rows, id);
  }

  lemma HasSegments(w: World, org: Org, rows: Table, id: nat)
    requires Sound(w, rows) && id in rows
    ensures Address(w, org, rows, id) != [] && Path(Address(w, org, rows, id)) != ""
  {
  }

  lemma OneSegment(w: World, org: Org, rows: Table, seg: string)
    requires seg != ""
    ensures DispatchSegments(w, org, rows, [seg]) == Entry(w, org, rows, seg)
  {
  }

  lemma TwoSegments(w: World, org: Org, rows: Table, seg: string, slug: string)
    requires seg != "" && slug != "" && slug != "feed" && slug != "feed.atom"
    ensures DispatchSegments(w, org, rows, [seg, slug]) == Single(w, org, rows, seg, slug)
  {
  }

  lemma FourSegments(w: World, org: Org, rows: Table, pseg: string, pslug: string, cseg: string, cslug: string)
    requires pseg != "" && pslug != "" && cseg != "" && cslug != ""
    ensures DispatchSegments(w, org, rows, [pseg, pslug] + [cseg, cslug])
            == ChildSingle(w, org, rows, pseg, pslug, cseg, cslug)
  {
    var s := [pseg, pslug] + [cseg, cslug];
    assert s == [pseg, pslug, cseg, cslug];
  }

  /** One, two or three segments never lead to a block. */
  lemma LeadsToNoBlock(w: World, org: Org, rows: Table, s: seq<string>)
    requires |s| <= 3
    ensures var found := DispatchSegments(w, org, rows, s);
            found.Item? ==> found.id in rows && rows[found.id].parent.None?
  {
  }

  lemma SlugHolds(w: World, rows: Table, id: nat)
    requires Sound(w, rows) && id in rows && rows[id].slug.Some?
    ensures var slug := Text(rows[id].slug);
            slug != "" && slug != "feed.atom" && (rows[id].parent.None? ==> slug != "feed")
  {
    assert GoodRow(w, rows, rows[id]);
    HasNoDot(rows[id].slug.value);
    if rows[id].parent.None? { NotReserved(rows[id].slug.value); }
  }

  lemma HasNoDot(slug: string)
    requires Segment(slug, 198)
    ensures slug != "feed.atom"
  {
    assert "feed.atom"[4] == '.';
  }

  lemma NotReserved(slug: string)
    requires slug !in RESERVED_ITEM_SLUGS
    ensures slug != "feed"
  {
  }

  /** A standalone row's permalink leads back to it exactly when it is published and of a type
      the organization has on, or is a page: of the one type pages are looked up under. */
  lemma StandaloneIsServed(w: World, org: Org, rows: Table, id: nat)
    requires Sound(w, rows) && id in rows && rows[id].parent.None?
    ensures Dispatch(w, org, rows, Permalink(w, org, rows, id)) == Item(id) <==> Served(w, org, rows, id)
  {
    DispatchIsBySegments(w, org, rows, id);
    assert GoodRow(w, rows, rows[id]);
    SlugHolds(w, rows, id);
    if TypeOf(w, rows, id).HasArchive() {
      PostIsFound(w, org, rows, id);
      BaseHolds(w, org, rows, id);
      TwoSegments(w, org, rows, BaseWord(TypeOf(w, rows, id)), Text(rows[id].slug));
    } else {
      PageIsFound(w, org, rows, id);
      OneSegment(w, org, rows, Text(rows[id].slug));
    }
  }

  /** A block's permalink leads to the block exactly when it has an address, it and its parent
      are published and of types that are on, and the parent's base is not reserved. */
  lemma BlockIsServed(w: World, org: Org, rows: Table, id: nat)
    requires Sound(w, rows) && id in rows && rows[id].parent.Some?
    ensures Dispatch(w, org, rows, Permalink(w, org, rows, id)) == Item(id) <==> Served(w, org, rows, id)
  {
    DispatchIsBySegments(w, org, rows, id);
    if Addressed(w, org, rows, id) && TypeOf(w, rows, id).HasArchive() {
      AddressedIsServed(w, org, rows, id, rows[id].parent.value);
    } else {
      ShortAddress(w, org, rows, id);
      LeadsToNoBlock(w, org, rows, Address(w, org, rows, id));
    }
  }

  lemma ShortAddress(w: World, org: Org, rows: Table, id: nat)
    requires Sound(w, rows) && id in rows && rows[id].parent.Some?
    requires !(Addressed(w, org, rows, id) && TypeOf(w, rows, id).HasArchive())
    ensures |Address(w, org, rows, id)| <= 3
  {
    ParentHolds(w, rows, id, rows[id].parent.value);
  }

  lemma AddressedIsServed(w: World, org: Org, rows: Table, id: nat, parent: nat)
    requires Sound(w, rows) && id in rows && rows[id].parent == Some(parent)
    requires Addressed(w, org, rows, id) && TypeOf(w, rows, id).HasArchive()
    ensures DispatchSegments(w, org, rows, Address(w, org, rows, id))
         == if Served(w, org, rows, id) then Item(id) else NotFound
  {
    ParentHolds(w, rows, id, parent);
    BlockIsFound(w, org, rows, id, parent);
    BaseHolds(w, org, rows, id);
    BaseHolds(w, org, rows, parent);
    SlugHolds(w, rows, id);
    SlugHolds(w, rows, parent);
    FourSegments(w, org, rows, BaseWord(TypeOf(w, rows, parent)), Text(rows[parent].slug),
                 BaseWord(TypeOf(w, rows, id)), Text(rows[id].slug));
  }

  /** Any other block's permalink is its parent's. */
  lemma OtherwiseTheParents(w: World, org: Org, rows: Table, id: nat)
    requires Sound(w, rows) && id in rows && rows[id].parent.Some? && !Addressed(w, org, rows, id)
    ensures rows[id].parent.value in rows
    ensures Permalink(w, org, rows, id) == Permalink(w, org, rows, rows[id].parent.value)
  {
    ParentHolds(w, rows, id, rows[id].parent.value);
  }

  // ------------------------------------------------------------------ what a path leads to

  lemma {:induction false} PathInvertsSplit(path: string)
    requires path == "" || path[0] == '/'
    ensures Path(Split(path)) == path
    decreases |path|
  {
    if path != "" {
      hide *;
      var n := ToSlash(path[1..]);
      SplitStep(path, n);
      PathInvertsSplit(path[n + 1..]);
      PathStep(path[1..n + 1], Split(path[n + 1..]));
      CutAt(path, n);
    }
  }

  lemma SplitStep(path: string, n: nat)
    requires path != "" && path[0] == '/' && n == ToSlash(path[1..])
    ensures n + 1 <= |path| && (path[n + 1..] == "" || path[n + 1..][0] == '/')
    ensures Split(path) == [path[1..n + 1]] + Split(path[n + 1..])
  {
    hide ToSlash;
  }

  lemma PathStep(first: string, rest: seq<string>)
    ensures Path([first] + rest) == "/" + first + Path(rest)
  {
    assert ([first] + rest)[1..] == rest;
  }

  lemma CutAt(path: string, n: nat)
    requires path != "" && path[0] == '/' && n + 1 <= |path|
    ensures "/" + path[1..n + 1] + path[n + 1..] == path
  {
  }

  lemma LookupIs(rows: Table, typ: string, parent: Option<nat>, slug: string, id: nat)
    requires UniqueAddresses(rows)
    ensures Lookup(rows, typ, parent, slug) == Some(id) <==> Matches(rows, id, typ, parent, slug)
  {
    var found := Lookup(rows, typ, parent, slug);
    if Matches(rows, id, typ, parent, slug) { OneAddressOneRow(rows, found.value, id); }
  }

  lemma RowOfType(w: World, rows: Table, id: nat, ct: ContentType)
    requires Sound(w, rows) && id in rows && ct in w.types
    ensures rows[id].typ == ct.slug <==> TypeOf(w, rows, id) == ct
  {
    assert GoodRow(w, rows, rows[id]);
    SlugFindsItsType(w.types, ct);
  }

  /** The type called `page` keeps no archive, as the application registers it. */
  ghost predicate PagesArePages(types: seq<ContentType>) {
    forall ct :: ct in types && ct.slug == "page" ==> ct.kind.Page?
  }

  /** The segments are those of the address, slugs in any case and between blanks. */
  predicate Names(s: seq<string>, address: seq<string>) {
    && |s| == |address|
    && forall k :: 0 <= k < |s| ==> if k % 2 == 1 || |s| == 1 then Normal(s[k]) == address[k] else s[k] == address[k]
  }

  lemma NamesAre(a: string, b: string, c: string, d: string, address: seq<string>)
    ensures Names([a], address) <==> address == [Normal(a)]
    ensures Names([a, b], address) <==> address == [a, Normal(b)]
    ensures Names([a, b, c, d], address) <==> address == [a, Normal(b), c, Normal(d)]
  {
    hide Normal;
    var four := [a, b, c, d];
    assert four[0] == a && four[1] == b && four[2] == c && four[3] == d;
    assert [a, b][0] == a && [a, b][1] == b;
  }

  /** The row is read at these segments. */
  ghost predicate ReadAt(w: World, org: Org, rows: Table, s: seq<string>, id: nat)
    requires Sound(w, rows)
  {
    id in rows && Served(w, org, rows, id) && Names(s, Address(w, org, rows, id))
  }

  /** A row read at its own permalink, by what it is. */
  ghost predicate ServedAs(w: World, org: Org, rows: Table, id: nat, address: seq<string>)
    requires Sound(w, rows) && id in rows
  {
    assert GoodRow(w, rows, rows[id]);
    var r, ct := rows[id], TypeOf(w, rows, id);
    && r.status.Published? && r.slug.Some?
    && match r.parent
       case None => if r.typ == "page" then address == [r.slug.value]
                    else ct.HasArchive() && IsActive(org, ct) && address == [BaseWord(ct), r.slug.value]
       case Some(p) =>
         var pt := TypeOf(w, rows, p);
         && ct.HasArchive() && ct.childRoutable && IsActive(org, ct)
         && pt.HasArchive() && IsActive(org, pt) && BaseWord(pt) !in RESERVED_PAGE_SLUGS
         && rows[p].status.Published? && rows[p].slug.Some?
         && address == [BaseWord(pt), rows[p].slug.value, BaseWord(ct), r.slug.value]
  }

  lemma TypeIsKnown(w: World, rows: Table, id: nat)
    requires Sound(w, rows) && id in rows
    ensures var ct := TypeOf(w, rows, id); ct in w.types && ct.slug == rows[id].typ && ValidDefinition(ct)
  {
    assert GoodRow(w, rows, rows[id]);
  }

  lemma ServedIs(w: World, org: Org, rows: Table, id: nat, address: seq<string>)
    requires Sound(w, rows) && PagesArePages(w.types) && id in rows
    ensures ServedAs(w, org, rows, id, address)
            <==> Served(w, org, rows, id) && address == Address(w, org, rows, id)
  {
    TypeIsKnown(w, rows, id);
    if rows[id].parent.None? {
      ServedAloneIs(w, org, rows, id, address);
    } else {
      ServedBlockIs(w, org, rows, id, rows[id].parent.value, address);
    }
  }

  lemma ServedAloneIs(w: World, org: Org, rows: Table, id: nat, address: seq<string>)
    requires Sound(w, rows) && PagesArePages(w.types) && id in rows && rows[id].parent.None?
    ensures ServedAs(w, org, rows, id, address)
            <==> Served(w, org, rows, id) && address == Address(w, org, rows, id)
  {
    hide TypeOf, IsActive, BaseWord, GoodStore, GoodRegistry, ValidDefinition;
    TypeIsKnown(w, rows, id);
    HasSlug(w, rows, id);
  }

  lemma HasSlug(w: World, rows: Table, id: nat)
    requires Sound(w, rows) && id in rows && rows[id].parent.None?
    ensures rows[id].slug.Some?
  {
    assert GoodRow(w, rows, rows[id]);
  }

  lemma ServedBlockIs(w: World, org: Org, rows: Table, id: nat, p: nat, address: seq<string>)
    requires Sound(w, rows) && id in rows && rows[id].parent == Some(p)
    ensures ServedAs(w, org, rows, id, address)
            <==> Served(w, org, rows, id) && address == Address(w, org, rows, id)
  {
    hide TypeOf, IsActive, BaseWord, GoodStore, GoodRegistry, ValidDefinition;
    ParentHolds(w, rows, id, p);
    var own, tail := OwnAddress(w, rows, p), OwnAddress(w, rows, id);
    assert |own| == 2 && |tail| == 2 ==> own + tail == [own[0], own[1], tail[0], tail[1]];
  }

  /** No archive's base is what names a page. */
  lemma NoArchiveNamed(w: World, org: Org, rows: Table, id: nat, seg: string)
    requires Sound(w, rows) && PagesArePages(w.types) && id in rows && rows[id].typ == "page"
    requires rows[id].parent.None? && rows[id].slug == Some(Normal(seg))
    ensures TypeForBase(org, w.types, "/" + seg).None?
  {
    assert GoodRow(w, rows, rows[id]);
    if seg in BaseWords(w.types) {
      BaseWordIsNormal(w.types, seg);
      PageIsNoArchive(w, org, rows, id);
    } else {
      BaseIsReserved(org, w.types, seg);
    }
  }

  lemma BaseWordIsNormal(types: seq<ContentType>, seg: string)
    requires GoodRegistry(types) && seg in BaseWords(types)
    ensures Normal(seg) == seg
  {
    var ct :| ct in types && ct.HasArchive() && BaseWord(ct) == seg;
    assert ValidDefinition(ct);
    NormalOf(seg);
  }

  lemma EntryIs(w: World, org: Org, rows: Table, seg: string, id: nat)
    requires Sound(w, rows) && PagesArePages(w.types)
    ensures Entry(w, org, rows, seg) == Item(id) <==> id in rows && ServedAs(w, org, rows, id, [Normal(seg)])
  {
    hide Normal;
    LookupIs(rows, "page", None, seg, id);
    if id in rows {
      assert GoodRow(w, rows, rows[id]);
      if Matches(rows, id, "page", None, seg) { NoArchiveNamed(w, org, rows, id, seg); }
    }
  }

  lemma NormalFeeds()
    ensures Normal("") == "" && Normal("feed") == "feed" && Normal("feed.atom") == "feed.atom"
  {
    PlainIsNormal("feed");
    PlainIsNormal("feed.atom");
  }

  /** What names a stored slug is neither of a feed's own words. */
  lemma NoFeedNamed(w: World, rows: Table, id: nat, seg: string)
    requires Sound(w, rows) && id in rows && rows[id].parent.None? && rows[id].slug == Some(Normal(seg))
    ensures seg != "" && seg != "feed" && seg != "feed.atom"
  {
    hide *;
    SlugHolds(w, rows, id);
    SlugText(rows[id].slug);
    NormalFeeds();
  }

  lemma SlugText(slug: Option<string>)
    ensures slug.Some? ==> Text(slug) == slug.value
  {
  }

  lemma SingleIs(w: World, org: Org, rows: Table, seg: string, slug: string, id: nat)
    requires Sound(w, rows) && PagesArePages(w.types)
    ensures Single(w, org, rows, seg, slug) == Item(id)
            <==> id in rows && ServedAs(w, org, rows, id, [seg, Normal(slug)])
  {
    hide Normal;
    var ct := TypeForBase(org, w.types, "/" + seg);
    if ct.Some? {
      LookupIs(rows, ct.value.slug, None, slug, id);
      TypeBaseHolds(org, w.types, ct.value);
      if id in rows { RowOfType(w, rows, id, ct.value); }
    }
    if id in rows {
      assert GoodRow(w, rows, rows[id]);
      if TypeOf(w, rows, id).HasArchive() { BaseHolds(w, org, rows, id); }
    }
  }

  lemma BaseIs(org: Org, types: seq<ContentType>, seg: string, ct: ContentType)
    requires GoodRegistry(types) && ct in types
    ensures TypeForBase(org, types, "/" + seg) == Some(ct)
            <==> ct.HasArchive() && IsActive(org, ct) && BaseWord(ct) == seg
  {
    var found := TypeForBase(org, types, "/" + seg);
    if found == Some(ct) { assert BaseWord(ct) == seg; }
    if ct.HasArchive() { TypeBaseHolds(org, types, ct); }
  }

  /** What it takes to find a block of `p`: the types' bases, and both rows under their slugs. */
  ghost predicate BlockMatches(w: World, org: Org, rows: Table,
                               a: string, b: string, c: string, d: string, p: nat, id: nat)
    requires Sound(w, rows) && p in rows && id in rows
  {
    var pt, ct := TypeOf(w, rows, p), TypeOf(w, rows, id);
    && PublishedSegment(a) && ct.childRoutable
    && TypeForBase(org, w.types, "/" + a) == Some(pt) && TypeForBase(org, w.types, "/" + c) == Some(ct)
    && Matches(rows, p, pt.slug, None, b) && Matches(rows, id, ct.slug, Some(p), d)
  }

  lemma ChildIsFound(w: World, org: Org, rows: Table, a: string, b: string, c: string, d: string, p: nat, id: nat)
    requires Sound(w, rows) && p in rows && id in rows && rows[id].parent == Some(p)
    ensures ChildSingle(w, org, rows, a, b, c, d) == Item(id) <==> BlockMatches(w, org, rows, a, b, c, d, p, id)
  {
    hide Normal;
    var pt, ct := TypeForBase(org, w.types, "/" + a), TypeForBase(org, w.types, "/" + c);
    if pt.Some? && ct.Some? {
      RowOfType(w, rows, p, pt.value);
      RowOfType(w, rows, id, ct.value);
      LookupIs(rows, pt.value.slug, None, b, p);
      var parent := Lookup(rows, pt.value.slug, None, b);
      LookupIs(rows, ct.value.slug, parent, d, id);
    }
  }

  lemma FourAre(address: seq<string>, a: string, b: string, c: string, d: string)
    ensures [a, b, c, d] == address
            <==> |address| == 4 && a == address[0] && b == address[1] && c == address[2] && d == address[3]
  {
  }

  lemma PublishedBase(ct: ContentType)
    requires ValidDefinition(ct) && ct.HasArchive()
    ensures PublishedSegment(BaseWord(ct)) <==> BaseWord(ct) !in RESERVED_PAGE_SLUGS
  {
  }

  lemma BlockMatchesIs(w: World, org: Org, rows: Table, a: string, b: string, c: string, d: string, p: nat, id: nat)
    requires Sound(w, rows) && p in rows && id in rows && rows[id].parent == Some(p)
    ensures BlockMatches(w, org, rows, a, b, c, d, p, id) <==> ServedAs(w, org, rows, id, [a, Normal(b), c, Normal(d)])
  {
    hide Normal, TypeOf, TypeForBase, IsActive, BaseWord, PublishedSegment, GoodStore, GoodRegistry, ValidDefinition;
    ParentHolds(w, rows, id, p);
    TypeIsKnown(w, rows, p);
    TypeIsKnown(w, rows, id);
    var pt, ct := TypeOf(w, rows, p), TypeOf(w, rows, id);
    BaseIs(org, w.types, a, pt);
    BaseIs(org, w.types, c, ct);
    if pt.HasArchive() { PublishedBase(pt); }
    if rows[p].slug.Some? && rows[id].slug.Some? {
      FourAre([BaseWord(pt), rows[p].slug.value, BaseWord(ct), rows[id].slug.value], a, Normal(b), c, Normal(d));
    }
  }

  lemma ChildSingleIs(w: World, org: Org, rows: Table, a: string, b: string, c: string, d: string, id: nat)
    requires Sound(w, rows) && PagesArePages(w.types)
    ensures ChildSingle(w, org, rows, a, b, c, d) == Item(id)
            <==> id in rows && ServedAs(w, org, rows, id, [a, Normal(b), c, Normal(d)])
  {
    hide Normal;
    if id in rows && rows[id].parent.Some? {
      var p := rows[id].parent.value;
      ParentHolds(w, rows, id, p);
      ChildIsFound(w, org, rows, a, b, c, d, p, id);
      BlockMatchesIs(w, org, rows, a, b, c, d, p, id);
    }
  }

  lemma ServedSegments(w: World, org: Org, rows: Table, id: nat, s: seq<string>)
    requires Sound(w, rows) && PagesArePages(w.types) && id in rows
    ensures ReadAt(w, org, rows, s, id) ==> |s| == 1 || |s| == 2 || |s| == 4
    ensures ReadAt(w, org, rows, s, id) ==> "" !in s && (|s| == 2 ==> s[1] != "feed" && s[1] != "feed.atom")
  {
    var address := Address(w, org, rows, id);
    ServedIs(w, org, rows, id, address);
    if ReadAt(w, org, rows, s, id) {
      AddressHolds(w, org, rows, id);
      NoBlankNamed(s, address);
      if |s| == 2 { NoFeedNamed(w, rows, id, s[1]); }
    }
  }

  lemma NoBlankNamed(s: seq<string>, address: seq<string>)
    requires Names(s, address) && Clear(address)
    ensures "" !in s
  {
    hide Normal;
    NormalFeeds();
    forall k | 0 <= k < |s| ensures s[k] != "" {
      assert NoSlash(address[k]);
    }
  }

  lemma DispatchSegmentsIs(w: World, org: Org, rows: Table, s: seq<string>, id: nat)
    requires Sound(w, rows) && PagesArePages(w.types)
    ensures DispatchSegments(w, org, rows, s) == Item(id) <==> ReadAt(w, org, rows, s, id)
  {
    hide Entry, Single, ChildSingle, ServedAs, Served, Address, Names, Normal, GoodStore, GoodRegistry;
    if id in rows { ServedSegments(w, org, rows, id, s); }
    if "" !in s && |s| == 1 {
      EntryIs(w, org, rows, s[0], id);
      NamedAs(w, org, rows, s, id, [Normal(s[0])]);
    } else if "" !in s && |s| == 2 {
      SingleIs(w, org, rows, s[0], s[1], id);
      NamedAs(w, org, rows, s, id, [s[0], Normal(s[1])]);
    } else if "" !in s && |s| == 4 {
      ChildSingleIs(w, org, rows, s[0], s[1], s[2], s[3], id);
      NamedAs(w, org, rows, s, id, [s[0], Normal(s[1]), s[2], Normal(s[3])]);
    }
  }

  /** The segments with their slugs made normal. */
  function Normalized(s: seq<string>): seq<string>
    requires |s| == 1 || |s| == 2 || |s| == 4
  {
    if |s| == 1 then [Normal(s[0])]
    else if |s| == 2 then [s[0], Normal(s[1])]
    else [s[0], Normal(s[1]), s[2], Normal(s[3])]
  }

  lemma NamedAs(w: World, org: Org, rows: Table, s: seq<string>, id: nat, address: seq<string>)
    requires Sound(w, rows) && PagesArePages(w.types) && (|s| == 1 || |s| == 2 || |s| == 4)
    requires address == Normalized(s)
    ensures ReadAt(w, org, rows, s, id) <==> id in rows && ServedAs(w, org, rows, id, address)
  {
    hide ServedAs, Served, Address, Normal, GoodStore, GoodRegistry;
    if id in rows {
      ServedIs(w, org, rows, id, address);
      NamesNormalized(s, Address(w, org, rows, id));
    }
  }

  lemma NamesNormalized(s: seq<string>, address: seq<string>)
    requires |s| == 1 || |s| == 2 || |s| == 4
    ensures Names(s, address) <==> Normalized(s) == address
  {
    if |s| == 1 {
      assert s == [s[0]];
      NamesAre(s[0], "", "", "", address);
    } else if |s| == 2 {
      assert s == [s[0], s[1]];
      NamesAre(s[0], s[1], "", "", address);
    } else {
      assert s == [s[0], s[1], s[2], s[3]];
      NamesAre(s[0], s[1], s[2], s[3], address);
    }
  }

  /** What a path leads to, exactly: a row is dispatched to if and only if it is served and the path
      is its own address, its slugs in any case and between blanks. */
  lemma ItemExactly(w: World, org: Org, rows: Table, path: string, id: nat)
    requires Sound(w, rows) && PagesArePages(w.types)
    ensures Dispatch(w, org, rows, path) == Item(id)
            <==> path != "" && path[0] == '/' && ReadAt(w, org, rows, Split(path), id)
  {
    if path != "" && path[0] == '/' { DispatchSegmentsIs(w, org, rows, Split(path), id); }
  }

  /** And an archive is shown if and only if the path is the base of an active type that keeps one. */
  lemma ArchiveExactly(w: World, org: Org, rows: Table, path: string, ct: ContentType)
    requires GoodRegistry(w.types) && ct in w.types
    ensures Dispatch(w, org, rows, path) == Archive(ct.slug)
            <==> ct.HasArchive() && IsActive(org, ct) && path == ct.base
  {
    hide Normal, Lookup;
    if ct.HasArchive() {
      TypeBaseHolds(org, w.types, ct);
      SplitOne(BaseWord(ct));
    }
    if path != "" && path[0] == '/' {
      var s := Split(path);
      PathInvertsSplit(path);
      if |s| == 1 {
        assert Path(s) == "/" + s[0];
        var found := TypeForBase(org, w.types, "/" + s[0]);
        if found.Some? && found.value.slug == ct.slug { SameSlugSameType(w.types, found.value, ct); }
      }
    }
  }

  /** A reserved word is no page's address. */
  lemma ReservedIsNoPage(w: World, org: Org, rows: Table, path: string, seg: string)
    requires Sound(w, rows) && PagesArePages(w.types) && path != "" && path[0] == '/' && Split(path) == [seg]
    requires Normal(seg) in RESERVED_PAGE_SLUGS + BaseWords(w.types)
    ensures !Dispatch(w, org, rows, path).Item?
  {
    hide Normal;
    var found := Dispatch(w, org, rows, path);
    if found.Item? {
      EntryIs(w, org, rows, seg, found.id);
      PageIsUnreserved(w, rows, found.id);
    }
  }

  lemma PageIsUnreserved(w: World, rows: Table, id: nat)
    requires Sound(w, rows) && PagesArePages(w.types) && id in rows && rows[id].typ == "page" && rows[id].parent.None?
    ensures rows[id].slug.Some? && rows[id].slug.value !in RESERVED_PAGE_SLUGS + BaseWords(w.types)
  {
    TypeIsKnown(w, rows, id);
    assert GoodRow(w, rows, rows[id]);
  }

  lemma SplitOne(word: string)
    requires Segment(word, 48)
    ensures Split("/" + word) == [word]
  {
    assert Path([word]) == "/" + word;
    SplitInvertsPath([word]);
  }

  /** The feeds and the listings by category and tag have routes of their own, whatever the segments. */
  lemma OtherRoutes(w: World, org: Org, rows: Table, a: string, word: string, b: string)
    requires NoSlash(a) && NoSlash(b)
    ensures word == "feed" || word == "feed.atom" ==> Dispatch(w, org, rows, "/" + a + "/" + word) == OtherRoute
    ensures word == "category" || word == "tag" ==> Dispatch(w, org, rows, "/" + a + "/" + word + "/" + b) == OtherRoute
  {
    hide Single, Entry, ChildSingle, Split, Path;
    if word == "feed" || word == "feed.atom" {
      ByThePath(w, org, rows, [a, word], "/" + a + "/" + word);
    } else if word == "category" || word == "tag" {
      ByThePath(w, org, rows, [a, word, b], "/" + a + "/" + word + "/" + b);
    }
  }

  lemma ByThePath(w: World, org: Org, rows: Table, s: seq<string>, path: string)
    requires 2 <= |s| <= 3 && (forall k :: 0 <= k < |s| ==> NoSlash(s[k]))
    requires path == if |s| == 2 then "/" + s[0] + "/" + s[1] else "/" + s[0] + "/" + s[1] + "/" + s[2]
    ensures Dispatch(w, org, rows, path) == DispatchSegments(w, org, rows, s)
  {
    assert Path(s[|s| - 1..]) == "/" + s[|s| - 1];
    if |s| == 3 {
      assert s[1..][1..] == s[2..];
      assert Path(s[1..]) == "/" + s[1] + Path(s[2..]);
    }
    assert Path(s) == path;
    SplitInvertsPath(s);
  }

  /** Blank as Python strips it, of what fits in ASCII. */
  ghost predicate AllBlank(s: string) {
    forall k :: 0 <= k < |s| ==> s[k] as int in {9, 10, 11, 12, 13, 28, 29, 30, 31, 32}
  }

  /** A slug is named in any case and between any blanks. */
  lemma NamedInAnyCase(before: string, text: string, after: string, slug: string)
    requires AllBlank(before) && AllBlank(after) && Segment(slug, 198) && Smaller(text, slug)
    ensures Normal(before + text + after) == slug
  {
    var s := before + text + after;
    assert !Blank(text[0]) && !Blank(text[|text| - 1]);
    assert s == before + (text + after);
    TrimLeftOf(before, text + after);
    TrimRightOf(text, after);
    SameLower(text, slug);
    LowerOf(slug);
  }

  lemma {:induction false} TrimLeftOf(blanks: string, s: string)
    requires AllBlank(blanks) && s != "" && !Blank(s[0])
    ensures TrimLeft(blanks + s) == s
  {
    if blanks == "" {
      assert blanks + s == s;
    } else {
      assert (blanks + s)[1..] == blanks[1..] + s;
      TrimLeftOf(blanks[1..], s);
    }
  }

  lemma {:induction false} TrimRightOf(s: string, blanks: string)
    requires AllBlank(blanks) && s != "" && !Blank(s[|s| - 1])
    ensures TrimRight(s + blanks) == s
  {
    if blanks == "" {
      assert s + blanks == s;
    } else {
      var n := |blanks| - 1;
      assert (s + blanks)[..|s + blanks| - 1] == s + blanks[..n];
      TrimRightOf(s, blanks[..n]);
    }
  }

  // ------------------------------------------------------------------ one permalink, one row

  /** The row a permalink is about: itself, or the parent a block is read inside. */
  function Owner(w: World, org: Org, rows: Table, id: nat): nat
    requires Sound(w, rows) && id in rows
  {
    if rows[id].parent.None? || Addressed(w, org, rows, id) then id else rows[id].parent.value
  }

  /** Two rows of types that keep no archive, in the same place and under the same slug. */
  predicate Twins(w: World, rows: Table, a: nat, b: nat)
    requires Sound(w, rows) && a in rows && b in rows
  {
    rows[a].parent == rows[b].parent && rows[a].slug == rows[b].slug
    && TypeOf(w, rows, a).kind.Page? && TypeOf(w, rows, b).kind.Page?
  }

  /** Whatever row it was asked of, a permalink leads to the row it is about exactly when that one is
      served: a block without an address sends the reader to its parent. */
  lemma OwnerIsServed(w: World, org: Org, rows: Table, id: nat)
    requires Sound(w, rows) && id in rows
    ensures var x := Owner(w, org, rows, id);
            && x in rows && Permalink(w, org, rows, x) == Permalink(w, org, rows, id)
            && (Dispatch(w, org, rows, Permalink(w, org, rows, id)) == Item(x) <==> Served(w, org, rows, x))
  {
    if rows[id].parent.None? {
      StandaloneIsServed(w, org, rows, id);
    } else if Addressed(w, org, rows, id) {
      BlockIsServed(w, org, rows, id);
    } else {
      OtherwiseTheParents(w, org, rows, id);
      ParentHolds(w, rows, id, rows[id].parent.value);
      StandaloneIsServed(w, org, rows, rows[id].parent.value);
    }
  }

  lemma OwnerHolds(w: World, org: Org, rows: Table, id: nat)
    requires Sound(w, rows) && id in rows
    ensures var x := Owner(w, org, rows, id);
            && x in rows && Address(w, org, rows, x) == Address(w, org, rows, id)
            && rows[x].slug.Some? && (rows[x].parent.Some? ==> Addressed(w, org, rows, x))
  {
    assert GoodRow(w, rows, rows[id]);
    if rows[id].parent.Some? { ParentHolds(w, rows, id, rows[id].parent.value); }
  }

  /** In one place, a post's own address is its alone and a page's is its and its twins'. */
  lemma OwnAddressIsItsOwn(w: World, rows: Table, a: nat, b: nat)
    requires Sound(w, rows) && a in rows && b in rows && rows[a].parent == rows[b].parent
    requires rows[a].slug.Some? && rows[b].slug.Some?
    ensures OwnAddress(w, rows, a) == OwnAddress(w, rows, b) <==> a == b || Twins(w, rows, a, b)
  {
    var s, t := TypeOf(w, rows, a), TypeOf(w, rows, b);
    assert GoodRow(w, rows, rows[a]) && GoodRow(w, rows, rows[b]);
    if s.HasArchive() && t.HasArchive() && OwnAddress(w, rows, a) == OwnAddress(w, rows, b) {
      SameBase(w.types, s, t);
      OneAddressOneRow(rows, a, b);
    }
  }

  lemma SameBase(types: seq<ContentType>, s: ContentType, t: ContentType)
    requires GoodRegistry(types) && s in types && t in types && s.HasArchive() && t.HasArchive()
    ensures BaseWord(s) == BaseWord(t) <==> s == t
  {
    var j :| 0 <= j < |types| && types[j] == s;
    var k :| 0 <= k < |types| && types[k] == t;
    assert ValidDefinition(types[j]) && ValidDefinition(types[k]);
    assert s.base == "/" + BaseWord(s) && t.base == "/" + BaseWord(t);
  }

  lemma AddressTells(w: World, org: Org, rows: Table, a: nat, b: nat)
    requires Sound(w, rows) && a in rows && b in rows && rows[a].slug.Some? && rows[b].slug.Some?
    requires rows[a].parent.Some? ==> Addressed(w, org, rows, a)
    requires rows[b].parent.Some? ==> Addressed(w, org, rows, b)
    ensures Address(w, org, rows, a) == Address(w, org, rows, b) <==> a == b || Twins(w, rows, a, b)
  {
    var x, y := Address(w, org, rows, a), Address(w, org, rows, b);
    if rows[a].parent.None? && rows[b].parent.None? {
      OwnAddressIsItsOwn(w, rows, a, b);
    } else if rows[a].parent.Some? && rows[b].parent.Some? {
      BlocksTell(w, org, rows, a, b, rows[a].parent.value, rows[b].parent.value);
    }
  }

  lemma BlocksTell(w: World, org: Org, rows: Table, a: nat, b: nat, p: nat, q: nat)
    requires Sound(w, rows) && a in rows && b in rows && rows[a].slug.Some? && rows[b].slug.Some?
    requires rows[a].parent == Some(p) && Addressed(w, org, rows, a)
    requires rows[b].parent == Some(q) && Addressed(w, org, rows, b)
    ensures Address(w, org, rows, a) == Address(w, org, rows, b) <==> a == b || Twins(w, rows, a, b)
  {
    ParentHolds(w, rows, a, p);
    ParentHolds(w, rows, b, q);
    var x, y := Address(w, org, rows, a), Address(w, org, rows, b);
    assert x[..2] == OwnAddress(w, rows, p) && x[2..] == OwnAddress(w, rows, a);
    assert y[..2] == OwnAddress(w, rows, q) && y[2..] == OwnAddress(w, rows, b);
    OwnAddressIsItsOwn(w, rows, p, q);
    if p == q { OwnAddressIsItsOwn(w, rows, a, b); }
  }

  /** Two rows have the same permalink exactly when it is about the same row, or about two rows
      of different archiveless types with the same slug: with pages the only such type, distinct
      standalone rows have distinct permalinks. */
  lemma PermalinksTell(w: World, org: Org, rows: Table, a: nat, b: nat)
    requires Sound(w, rows) && a in rows && b in rows
    ensures Owner(w, org, rows, a) in rows && Owner(w, org, rows, b) in rows
    ensures Permalink(w, org, rows, a) == Permalink(w, org, rows, b)
       <==> (Owner(w, org, rows, a) == Owner(w, org, rows, b)
             || Twins(w, rows, Owner(w, org, rows, a), Owner(w, org, rows, b)))
  {
    OwnerHolds(w, org, rows, a);
    OwnerHolds(w, org, rows, b);
    AddressTells(w, org, rows, Owner(w, org, rows, a), Owner(w, org, rows, b));
    AddressHolds(w, org, rows, a);
    AddressHolds(w, org, rows, b);
    SplitInvertsPath(Address(w, org, rows, a));
    SplitInvertsPath(Address(w, org, rows, b));
  }

  /** Where pages are the only archiveless type, distinct standalone rows never share one. */
  lemma DistinctLinks(w: World, org: Org, rows: Table, a: nat, b: nat)
    requires Sound(w, rows) && a in rows && b in rows && a != b && rows[a].parent.None? && rows[b].parent.None?
    requires forall ct :: ct in w.types && ct.kind.Page? ==> ct.slug == "page"
    ensures Permalink(w, org, rows, a) != Permalink(w, org, rows, b)
  {
    PermalinksTell(w, org, rows, a, b);
    assert GoodRow(w, rows, rows[a]) && GoodRow(w, rows, rows[b]);
    TwinsDifferInType(w, rows, a, b);
  }

  lemma TwinsDifferInType(w: World, rows: Table, a: nat, b: nat)
    requires Sound(w, rows) && a in rows && b in rows && a != b && rows[a].slug.Some?
    ensures Twins(w, rows, a, b) ==> rows[a].typ != rows[b].typ
  {
    if rows[a].typ == rows[b].typ && rows[a].parent == rows[b].parent { assert SameSpace(rows[a], rows[b]); }
  }

  /** A second archiveless type is where that fails: such a pair shares a permalink, and at most
      one of the two is read there. */
  lemma TwinsShareALink(w: World, org: Org, rows: Table, a: nat, b: nat)
    requires Sound(w, rows) && a in rows && b in rows && a != b && rows[a].parent.None? && rows[b].parent.None?
    requires Twins(w, rows, a, b)
    ensures Permalink(w, org, rows, a) == Permalink(w, org, rows, b)
    ensures !(Served(w, org, rows, a) && Served(w, org, rows, b))
  {
    PermalinksTell(w, org, rows, a, b);
    assert GoodRow(w, rows, rows[a]);
    TwinsDifferInType(w, rows, a, b);
  }

  /** In every table reached from an empty one by saves, deletions and moves, following a row's
      permalink leads to that row exactly when it is served there, and to the row it is about
      exactly when that one is. */
  lemma ServedAfterAnyRun(w: World, org: Org, ops: seq<Blocks.Op>, id: nat)
    requires GoodRegistry(w.types) && Blocks.Runs(w, map[], ops) && id in Blocks.Run(w, map[], ops)
    ensures Sound(w, Blocks.Run(w, map[], ops))
    ensures var rows := Blocks.Run(w, map[], ops);
            var x := Owner(w, org, rows, id);
            && (Dispatch(w, org, rows, Permalink(w, org, rows, id)) == Item(id) <==> Served(w, org, rows, id))
            && x in rows
            && (Dispatch(w, org, rows, Permalink(w, org, rows, id)) == Item(x) <==> Served(w, org, rows, x))
  {
    Blocks.RunKeepsGood(w, map[], ops);
    var rows := Blocks.Run(w, map[], ops);
    OwnerIsServed(w, org, rows, id);
    if rows[id].parent.None? { StandaloneIsServed(w, org, rows, id); } else { BlockIsServed(w, org, rows, id); }
  }
}
