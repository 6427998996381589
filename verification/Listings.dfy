/** What each listing of content shows a visitor (app/models/content.py), built on the read rule.
    A query is the clauses it filters by; orderings are left out. */
module Listings {
  import opened Access
  import opened ContentStore
  import opened ContentTypes
  import opened Tiers
  import opened Wrappers

  datatype Clause = Never | IsStandalone | IsPublished | TypeIs(t: string) | TypeIn(ts: seq<string>)
                  | VisibilityIn(vs: seq<string>) | Both(a: Clause, b: Clause) | AnyOf(cs: seq<Clause>)

  predicate Holds(c: Clause, r: Row) {
    match c
    case Never => false
    case IsStandalone => r.parent.None?
    case IsPublished => r.status.Published?
    case TypeIs(t) => r.typ == t
    case TypeIn(ts) => r.typ in ts
    case VisibilityIn(vs) => r.visibility in vs
    case Both(a, b) => Holds(a, r) && Holds(b, r)
    case AnyOf(cs) => exists k :: 0 <= k < |cs| && Holds(cs[k], r)
  }

  type Query = seq<Clause>

  predicate Lists(q: Query, r: Row) {
    q == [] || (Holds(q[0], r) && Lists(q[1..], r))
  }

  /** One request: the installation's types, the organization, its ladder and who is asking. */
  datatype Site = Site(types: seq<ContentType>, org: Org, ladder: seq<Tier>, viewer: Viewer)

  // ------------------------------------------------------------------ sections

  /** Who may read a whole section: a hand-edited value that is no level is public. */
  function TypeVisibility(org: Org, slug: string): string {
    var chosen := Chosen(TypeSettings(org, slug), VISIBILITY);
    if chosen.None? || !chosen.value.Text? then PUBLIC
    else if chosen.value.s == PUBLIC || chosen.value.s == MEMBERS || TIER_PREFIX <= chosen.value.s then chosen.value.s
    else PUBLIC
  }

  predicate Teases(org: Org, slug: Option<string>) {
    if slug.None? then org.teases else Answer(TypeSettings(org, slug.value), TEASE, org.teases)
  }

  predicate SectionReadable(site: Site, slug: string) {
    CanRead(site.viewer, site.ladder, TypeVisibility(site.org, slug))
  }

  predicate VisibleToVisitor(site: Site, r: Row) {
    SectionReadable(site, r.typ) && CanRead(site.viewer, site.ladder, r.visibility)
  }

  // ------------------------------------------------------------------ the queries

  function SlugsOf(types: seq<ContentType>): (r: seq<string>)
    ensures |r| == |types|
    ensures forall s :: s in r <==> exists ct :: ct in types && ct.slug == s
  {
    if types == [] then [] else [types[0].slug] + SlugsOf(types[1..])
  }

  function PublishedQuery(site: Site, slug: Option<string>): Query {
    var active := SlugsOf(ActiveTypes(site.org, site.types));
    if slug.Some? && slug.value != "" then
      if slug.value !in active then [IsStandalone, IsPublished, Never]
      else [IsStandalone, IsPublished, TypeIs(slug.value)]
    else [IsStandalone, IsPublished, TypeIn(active)]
  }

  function VisibleQuery(site: Site, slug: Option<string>): Query {
    var query, readable := PublishedQuery(site, slug), ReadableVisibilities(site.viewer, site.ladder);
    if Teases(site.org, slug) || readable.None? then query else query + [VisibilityIn(readable.value)]
  }

  function ListableClause(site: Site, slug: string): Clause {
    var readable := ReadableVisibilities(site.viewer, site.ladder);
    if readable.None? || Teases(site.org, Some(slug)) then TypeIs(slug)
    else Both(TypeIs(slug), VisibilityIn(readable.value))
  }

  function ListableClauses(site: Site, slugs: seq<string>): (r: seq<Clause>)
    ensures |r| == |slugs| && forall k :: 0 <= k < |r| ==> r[k] == ListableClause(site, slugs[k])
  {
    if slugs == [] then [] else [ListableClause(site, slugs[0])] + ListableClauses(site, slugs[1..])
  }

  /** The feed types whose section the reader may enter. */
  function ReadableFeeds(site: Site, types: seq<ContentType>): (r: seq<string>)
    ensures forall s :: s in r <==> exists ct :: ct in types && ct.slug == s && SectionReadable(site, s)
  {
    if types == [] then []
    else (if SectionReadable(site, types[0].slug) then [types[0].slug] else []) + ReadableFeeds(site, types[1..])
  }

  function SyndicationQuery(site: Site, slug: Option<string>): Query {
    var readable := ReadableFeeds(site, FeedTypes(site.org, site.types));
    if slug.Some? then if slug.value !in readable then [Never] else VisibleQuery(site, slug)
    else if readable == [] then [Never]
    else PublishedQuery(site, None) + [AnyOf(ListableClauses(site, readable))]
  }

  function PublicArchiveTypes(org: Org, types: seq<ContentType>): (r: seq<string>)
    ensures forall s :: s in r <==> exists ct :: ct in types && ct.slug == s && TypeVisibility(org, s) == PUBLIC
  {
    if types == [] then []
    else (if TypeVisibility(org, types[0].slug) == PUBLIC then [types[0].slug] else [])
         + PublicArchiveTypes(org, types[1..])
  }

  function PublicQuery(site: Site, slug: string): Query {
    if slug !in PublicArchiveTypes(site.org, FeedTypes(site.org, site.types)) then [Never]
    else PublishedQuery(site, Some(slug)) + [VisibilityIn([PUBLIC])]
  }

  // ------------------------------------------------------------------ what an organization decides

  /** A section is public unless a level is stored for it: `members`, or a tier's. Anything else in
      the blob leaves it public. */
  lemma SectionLevels(org: Org, slug: string)
    ensures TypeVisibility(org, slug) != "public" <==>
            && slug in org.settings && "visibility" in org.settings[slug] && org.settings[slug]["visibility"].Text?
            && (org.settings[slug]["visibility"].s == "members" || "tier:" <= org.settings[slug]["visibility"].s)
    ensures TypeVisibility(org, slug) != "public" ==> TypeVisibility(org, slug) == org.settings[slug]["visibility"].s
  {
    assert PUBLIC[0] == 'p' && MEMBERS[0] == 'm' && TIER_PREFIX[0] == 't';
  }

  /** A type teases as decided for it, or else as the organization does. */
  lemma TeasesAsDecided(org: Org, slug: string, on: bool)
    ensures Teases(org, None) == org.teases
    ensures Undecided(org, slug, "tease") ==> Teases(org, Some(slug)) == org.teases
    ensures StoredAs(org, slug, "tease", Flag(on)) ==> Teases(org, Some(slug)) == on
  {
    AnswerIs(TypeSettings(org, slug), TEASE, org.teases, on);
  }

  /** A plain member opens an item exactly when their tier ranks no lower than the section's and no
      lower than the item's own. */
  lemma OpensByBothRanks(site: Site, r: Row, role: Role, h: nat, j: nat, k: nat)
    requires NamedLadder(site.ladder) && role != Owner && role != Admin
    requires h < |site.ladder| && j < |site.ladder| && k < |site.ladder|
    requires site.viewer == Visitor(false, Some(Membership(role, Some(h))))
    requires TypeVisibility(site.org, r.typ) == "tier:" + site.ladder[j].slug
    requires r.visibility == "tier:" + site.ladder[k].slug
    ensures VisibleToVisitor(site, r)
            <==> site.ladder[h].rank >= site.ladder[j].rank && site.ladder[h].rank >= site.ladder[k].rank
  {
    TierReadsByRank(site.ladder, role, h, j);
    TierReadsByRank(site.ladder, role, h, k);
  }

  // ------------------------------------------------------------------ what they list

  /** A published item standing on its own, of a type the organization publishes. */
  ghost predicate Standing(site: Site, r: Row) {
    r.parent.None? && r.status.Published? && exists ct :: ct in site.types && ct.slug == r.typ && IsActive(site.org, ct)
  }

  lemma {:induction false} ListsJoin(a: Query, b: Query, r: Row)
    ensures Lists(a + b, r) <==> Lists(a, r) && Lists(b, r)
  {
    if a == [] {
      assert a + b == b;
    } else {
      assert (a + b)[1..] == a[1..] + b;
      ListsJoin(a[1..], b, r);
    }
  }

  lemma ListsThree(a: Clause, b: Clause, c: Clause, r: Row)
    ensures Lists([a, b, c], r) <==> Holds(a, r) && Holds(b, r) && Holds(c, r)
  {
    ListsOne(c, r);
    assert [b, c][1..] == [c];
    assert Lists([b, c], r) == (Holds(b, r) && Lists([c], r));
    assert [a, b, c][1..] == [b, c];
  }

  lemma ListsOne(c: Clause, r: Row)
    ensures Lists([c], r) <==> Holds(c, r)
  {
    assert [c][1..] == [];
  }

  lemma PublishedLists(site: Site, slug: Option<string>, r: Row)
    requires slug != Some("")
    ensures Lists(PublishedQuery(site, slug), r) <==> Standing(site, r) && (slug.Some? ==> r.typ == slug.value)
  {
    var active := SlugsOf(ActiveTypes(site.org, site.types));
    if slug.None? {
      ListsThree(IsStandalone, IsPublished, TypeIn(active), r);
    } else if slug.value !in active {
      ListsThree(IsStandalone, IsPublished, Never, r);
    } else {
      ListsThree(IsStandalone, IsPublished, TypeIs(slug.value), r);
    }
  }

  /** What a listing of one type shows: every published item of it, less those the visitor may
      not read where the type does not tease. */
  lemma VisibleLists(site: Site, slug: string, r: Row)
    requires NamedLadder(site.ladder) && slug != ""
    ensures Lists(VisibleQuery(site, Some(slug)), r)
       <==> (Standing(site, r) && r.typ == slug
             && (Teases(site.org, Some(slug)) || CanRead(site.viewer, site.ladder, r.visibility)))
  {
    PublishedLists(site, Some(slug), r);
    EnumerationAgrees(site.viewer, site.ladder, r.visibility);
    var readable := ReadableVisibilities(site.viewer, site.ladder);
    if readable.Some? {
      ListsJoin(PublishedQuery(site, Some(slug)), [VisibilityIn(readable.value)], r);
      ListsOne(VisibilityIn(readable.value), r);
    }
  }

  /** With teasing off the listing of a section the visitor may enter and the items the visitor
      may open are the same items. */
  lemma ListedIsWhatOpens(site: Site, slug: string, r: Row)
    requires NamedLadder(site.ladder) && slug != "" && !Teases(site.org, Some(slug))
    ensures Lists(VisibleQuery(site, Some(slug)), r) && SectionReadable(site, slug)
       <==> Standing(site, r) && r.typ == slug && VisibleToVisitor(site, r)
  {
    VisibleLists(site, slug, r);
  }

  lemma ListableHolds(site: Site, slug: string, r: Row)
    requires NamedLadder(site.ladder)
    ensures Holds(ListableClause(site, slug), r)
       <==> r.typ == slug && (Teases(site.org, Some(slug)) || CanRead(site.viewer, site.ladder, r.visibility))
  {
    EnumerationAgrees(site.viewer, site.ladder, r.visibility);
  }

  /** The OR-ed feed of everything is the union, over the feed types whose section the reader
      may enter, of each one's own listing. */
  lemma SyndicationIsTheUnion(site: Site, r: Row)
    requires GoodRegistry(site.types) && NamedLadder(site.ladder)
    ensures Lists(SyndicationQuery(site, None), r)
       <==> exists slug :: slug in ReadableFeeds(site, FeedTypes(site.org, site.types))
                           && Lists(VisibleQuery(site, Some(slug)), r)
  {
    var readable := ReadableFeeds(site, FeedTypes(site.org, site.types));
    var clauses := ListableClauses(site, readable);
    PublishedLists(site, None, r);
    ListsJoin(PublishedQuery(site, None), [AnyOf(clauses)], r);
    ListsOne(AnyOf(clauses), r);
    ListsOne(Never, r);
    forall slug | slug in readable
      ensures Lists(VisibleQuery(site, Some(slug)), r) <==> Standing(site, r) && Holds(ListableClause(site, slug), r)
    {
      SlugIsNotEmpty(site, slug);
      VisibleLists(site, slug, r);
      ListableHolds(site, slug, r);
    }
    AnyListable(site, readable, r);
  }

  lemma AnyListable(site: Site, slugs: seq<string>, r: Row)
    ensures Holds(AnyOf(ListableClauses(site, slugs)), r)
            <==> exists slug :: slug in slugs && Holds(ListableClause(site, slug), r)
  {
    var clauses := ListableClauses(site, slugs);
    if slug :| slug in slugs && Holds(ListableClause(site, slug), r) {
      var k :| 0 <= k < |slugs| && slugs[k] == slug;
      assert Holds(clauses[k], r);
    }
    if Holds(AnyOf(clauses), r) {
      var k :| 0 <= k < |clauses| && Holds(clauses[k], r);
      assert slugs[k] in slugs;
    }
  }

  lemma SlugIsNotEmpty(site: Site, slug: string)
    requires GoodRegistry(site.types) && slug in ReadableFeeds(site, FeedTypes(site.org, site.types))
    ensures slug != ""
  {
    NamedTypeIsNotEmpty(site, slug);
  }

  /** So an item is in the feed of everything exactly when it is in its own type's feed, and no
      feed names an item of a section the reader may not enter. */
  lemma SyndicationByType(site: Site, r: Row)
    requires GoodRegistry(site.types) && NamedLadder(site.ladder)
    ensures Lists(SyndicationQuery(site, None), r) <==> Lists(SyndicationQuery(site, Some(r.typ)), r)
    ensures Lists(SyndicationQuery(site, None), r) ==> Standing(site, r) && SectionReadable(site, r.typ)
  {
    var readable := ReadableFeeds(site, FeedTypes(site.org, site.types));
    SyndicationIsTheUnion(site, r);
    ListsOne(Never, r);
    forall slug | slug in readable
      ensures Lists(VisibleQuery(site, Some(slug)), r) ==> r.typ == slug && Standing(site, r)
    {
      SlugIsNotEmpty(site, slug);
      VisibleLists(site, slug, r);
    }
  }

  /** The feed of everything in full: the published standing items of the active types that keep an
      archive, of sections the reader may enter, each readable unless its type teases. */
  lemma SyndicationListsExactly(site: Site, r: Row)
    requires GoodRegistry(site.types) && NamedLadder(site.ladder)
    ensures Lists(SyndicationQuery(site, None), r) <==>
            && r.parent.None? && r.status.Published?
            && (exists ct :: ct in site.types && ct.slug == r.typ && ct.HasArchive() && IsActive(site.org, ct))
            && SectionReadable(site, r.typ)
            && (Teases(site.org, Some(r.typ)) || CanRead(site.viewer, site.ladder, r.visibility))
  {
    hide IsActive, TypeVisibility, CanRead, GoodRegistry, Lists, VisibleQuery, SyndicationQuery, SectionReadable;
    var readable := ReadableFeeds(site, FeedTypes(site.org, site.types));
    SyndicationIsTheUnion(site, r);
    forall slug | slug in readable ensures Lists(VisibleQuery(site, Some(slug)), r)
        <==> Standing(site, r) && r.typ == slug
             && (Teases(site.org, Some(slug)) || CanRead(site.viewer, site.ladder, r.visibility))
    {
      SlugIsNotEmpty(site, slug);
      VisibleLists(site, slug, r);
    }
    assert r.typ in readable <==> exists ct :: ct in FeedTypes(site.org, site.types) && ct.slug == r.typ
                                               && SectionReadable(site, r.typ);
  }

  /** On every ladder the administrators can have made, from none at all, the feeds agree and a
      section that does not tease lists what opens. */
  lemma FeedsAgreeOnAnyLadder(site: Site, states: seq<seq<Tier>>, ops: seq<Tiers.Op>, r: Row)
    requires GoodRegistry(site.types) && r.typ != "" && |states| == |ops| + 1
    requires states[0] == [] && site.ladder == states[|ops|]
    requires forall k :: 0 <= k < |ops| ==> Tiers.Steps(states[k], states[k + 1], ops[k])
    ensures Lists(SyndicationQuery(site, None), r) <==> Lists(SyndicationQuery(site, Some(r.typ)), r)
    ensures !Teases(site.org, Some(r.typ)) ==>
              (Lists(VisibleQuery(site, Some(r.typ)), r) && SectionReadable(site, r.typ)
               <==> Standing(site, r) && VisibleToVisitor(site, r))
  {
    hide *;
    StartsGood();
    Tiers.RunKeepsGood(states, ops);
    GoodIsNamed(site.ladder);
    SyndicationByType(site, r);
    if !Teases(site.org, Some(r.typ)) { ListedIsWhatOpens(site, r.typ, r); }
  }

  lemma StartsGood()
    ensures Tiers.GoodLadder([])
  {
  }

  // ------------------------------------------------------------------ the sitemap

  /** A value anybody with no account may read is public, and what is public everybody reads. */
  lemma PublicIsForAll(ladder: seq<Tier>, value: string, viewer: Viewer)
    ensures CanRead(Visitor(false, None), ladder, value) <==> value == PUBLIC
    ensures value == PUBLIC ==> CanRead(viewer, ladder, value)
  {
  }

  /** The sitemap of a feed type lists exactly the published items a stranger may open, and
      everybody may open those. */
  lemma SitemapIsForStrangers(site: Site, slug: string, r: Row, anybody: Viewer)
    requires GoodRegistry(site.types)
    ensures Lists(PublicQuery(site, slug), r)
       <==> (slug in SlugsOf(FeedTypes(site.org, site.types)) && Standing(site, r) && r.typ == slug
             && VisibleToVisitor(site.(viewer := Visitor(false, None)), r))
    ensures Lists(PublicQuery(site, slug), r) ==> VisibleToVisitor(site.(viewer := anybody), r)
  {
    PublicLists(site, slug, r);
    PublicIsForAll(site.ladder, TypeVisibility(site.org, slug), anybody);
    PublicIsForAll(site.ladder, r.visibility, anybody);
  }

  lemma PublicLists(site: Site, slug: string, r: Row)
    requires GoodRegistry(site.types)
    ensures Lists(PublicQuery(site, slug), r)
       <==> (slug in SlugsOf(FeedTypes(site.org, site.types)) && TypeVisibility(site.org, slug) == PUBLIC
             && Standing(site, r) && r.typ == slug && r.visibility == PUBLIC)
  {
    hide Standing, PublishedQuery, GoodRegistry, TypeVisibility, Lists, SlugsOf, FeedTypes, PublicArchiveTypes;
    ListsOne(Never, r);
    if slug in PublicArchiveTypes(site.org, FeedTypes(site.org, site.types)) {
      NamedTypeIsNotEmpty(site, slug);
      PublishedLists(site, Some(slug), r);
      ListsJoin(PublishedQuery(site, Some(slug)), [VisibilityIn([PUBLIC])], r);
      ListsOne(VisibilityIn([PUBLIC]), r);
    }
  }

  lemma NamedTypeIsNotEmpty(site: Site, slug: string)
    requires GoodRegistry(site.types) && slug in SlugsOf(FeedTypes(site.org, site.types))
    ensures slug != ""
  {
    var ct :| ct in FeedTypes(site.org, site.types) && ct.slug == slug;
    var k :| 0 <= k < |site.types| && site.types[k] == ct;
    assert ValidDefinition(site.types[k]);
  }

  /** A type turned off is in no listing. */
  lemma OffIsNowhere(site: Site, ct: ContentType, r: Row, slug: Option<string>)
    requires GoodRegistry(site.types) && NamedLadder(site.ladder)
    requires ct in site.types && !IsActive(site.org, ct) && r.typ == ct.slug && slug != Some("")
    ensures !Lists(PublishedQuery(site, slug), r) && !Lists(SyndicationQuery(site, slug), r)
  {
    SlugFindsItsType(site.types, ct);
    PublishedLists(site, slug, r);
    assert !Standing(site, r) by {
      forall other | other in site.types && other.slug == r.typ
        ensures other == ct
      {
        SlugFindsItsType(site.types, other);
      }
    }
    SyndicationByType(site, r);
    ListsOne(Never, r);
    if slug.Some? { VisibleLists(site, slug.value, r); }
  }
}
