/** The order the front page shows its sections in, and the form it is chosen on
    (app/platform/content_types.py). */
module FrontPage {
  import opened Access
  import opened ContentTypes
  import opened Listings
  import opened Ordering
  import opened Sections
  import opened Wrappers

  // ------------------------------------------------------------------ lists of types

  function At(types: seq<ContentType>, ids: seq<nat>): (r: seq<ContentType>)
    requires forall k :: 0 <= k < |ids| ==> ids[k] < |types|
    ensures |r| == |ids| && forall k :: 0 <= k < |ids| ==> r[k] == types[ids[k]]
  {
    if ids == [] then [] else [types[ids[0]]] + At(types, ids[1..])
  }

  /** The places below n of the types whose slug is in `slugs`. */
  function Where(types: seq<ContentType>, slugs: set<string>, n: nat): (ids: seq<nat>)
    requires n <= |types|
    ensures forall i: nat :: i in ids <==> i < n && types[i].slug in slugs
    ensures forall k :: 0 <= k < |ids| ==> ids[k] < n
    ensures forall j, k :: 0 <= j < k < |ids| ==> ids[j] < ids[k]
  {
    if n == 0 then []
    else
      var ids := Where(types, slugs, n - 1);
      assert forall k :: 0 <= k < |ids| ==> ids[k] in ids;
      if types[n - 1].slug in slugs then ids + [n - 1] else ids
  }

  lemma {:induction false} SlugsAt(types: seq<ContentType>, k: nat)
    requires k < |types|
    ensures SlugsOf(types)[k] == types[k].slug
    decreases |types|
  {
    if |types| > 1 { SlugsAt(types[1..], if k > 0 then k - 1 else 0); }
  }

  // ------------------------------------------------------------------ the front page

  predicate Advertised(site: Site, ct: ContentType) {
    SiteEntry(site.org, ct) && ct.HasArchive() && SectionReadable(site, ct.slug)
  }

  function AdvertisedSlugs(site: Site, active: seq<ContentType>): set<string> {
    set ct | ct in active && Advertised(site, ct) :: ct.slug
  }

  function Positions(site: Site, active: seq<ContentType>, n: nat): Keys
    requires n <= |active|
  {
    map i: nat | i < n :: Position(site.org, active[i], i)
  }

  function SiteEntryTypes(site: Site): seq<ContentType> {
    var active := ActiveTypes(site.org, site.types);
    At(active, Sort(Positions(site, active, |active|), Where(active, AdvertisedSlugs(site, active), |active|)))
  }

  method ListSiteEntries(site: Site) returns (r: seq<ContentType>)
    requires GoodRegistry(site.types)
    ensures r == SiteEntryTypes(site)
  {
    var active := ActiveTypes(site.org, site.types);
    ActiveIsDistinct(site.org, site.types);
    var entries, keys := CollectEntries(site, active);
    r := At(active, Sort(keys, entries));
  }

  /** The loop over the active types that collects what to show, before it is sorted. */
  method CollectEntries(site: Site, active: seq<ContentType>) returns (entries: seq<nat>, keys: Keys)
    requires DistinctTypes(active)
    ensures entries == Where(active, AdvertisedSlugs(site, active), |active|)
    ensures keys == Positions(site, active, |active|)
  {
    ghost var slugs := AdvertisedSlugs(site, active);
    entries, keys := [], map[];
    var position := 0;
    while position < |active|
      invariant 0 <= position <= |active|
      invariant entries == Where(active, slugs, position) && keys == Positions(site, active, position)
    {
      var ct := active[position];
      OneMorePosition(site, active, position);
      AdvertisedTells(site, active, position);
      OneMoreEntry(active, slugs, position);
      keys := keys[position := Position(site.org, ct, position)];
      if SiteEntry(site.org, ct) && ct.HasArchive() && SectionReadable(site, ct.slug) {
        entries := entries + [position];
      }
      position := position + 1;
    }
  }

  lemma OneMoreEntry(active: seq<ContentType>, slugs: set<string>, n: nat)
    requires n < |active|
    ensures Where(active, slugs, n + 1) == Where(active, slugs, n) + if active[n].slug in slugs then [n] else []
  {
    if active[n].slug !in slugs { assert Where(active, slugs, n) + [] == Where(active, slugs, n); }
  }

  lemma OneMorePosition(site: Site, active: seq<ContentType>, n: nat)
    requires n < |active|
    ensures Positions(site, active, n + 1) == Positions(site, active, n)[n := Position(site.org, active[n], n)]
  {
  }

  lemma {:induction false} ActiveIsDistinct(org: Org, types: seq<ContentType>)
    requires DistinctTypes(types)
    ensures DistinctTypes(ActiveTypes(org, types))
  {
    if types != [] {
      ActiveIsDistinct(org, types[1..]);
      var rest := ActiveTypes(org, types[1..]);
      forall k | 0 <= k < |rest| ensures rest[k].slug != types[0].slug {
        assert rest[k] in types[1..];
      }
    }
  }

  lemma AdvertisedTells(site: Site, active: seq<ContentType>, k: nat)
    requires DistinctTypes(active) && k < |active|
    ensures active[k].slug in AdvertisedSlugs(site, active) <==> Advertised(site, active[k])
  {
    forall ct | ct in active && ct.slug == active[k].slug ensures ct == active[k] {
      var j :| 0 <= j < |active| && active[j] == ct;
    }
  }

  function Shown(site: Site): seq<string> {
    SlugsOf(SiteEntryTypes(site))
  }

  // ------------------------------------------------------------------ the form

  function ArchiveSlugs(active: seq<ContentType>): set<string> {
    set ct | ct in active && ct.HasArchive() :: ct.slug
  }

  function FormKeys(active: seq<ContentType>, chosen: seq<string>): Keys {
    map i: nat | i < |active| :: if active[i].slug in chosen then IndexOf(chosen, active[i].slug) else |chosen|
  }

  /** Every type with an archive, the ones shown first and in their order. */
  function OfferableSections(site: Site): seq<ContentType> {
    var active := ActiveTypes(site.org, site.types);
    At(active, Sort(FormKeys(active, Shown(site)), Where(active, ArchiveSlugs(active), |active|)))
  }

  /** The offered slugs of a submission, each where it comes first. */
  function Asked(wanted: seq<string>, offered: set<string>): seq<string> {
    if wanted == [] then []
    else
      var n := |wanted| - 1;
      Asked(wanted[..n], offered) + if wanted[n] in offered && wanted[n] !in wanted[..n] then [wanted[n]] else []
  }

  lemma {:induction false} IndexInPrefix(s: seq<string>, n: nat, x: string)
    requires n <= |s| && x in s[..n]
    ensures x in s && IndexOf(s, x) == IndexOf(s[..n], x) < n
  {
    if s[0] != x {
      assert s[..n][1..] == s[1..][..n - 1];
      IndexInPrefix(s[1..], n - 1, x);
    }
  }

  lemma IndexOfNew(s: seq<string>, n: nat)
    requires n < |s| && s[n] !in s[..n]
    ensures IndexOf(s, s[n]) == n
  {
    assert forall j :: 0 <= j < n ==> s[..n][j] == s[j];
  }

  lemma {:induction false} AskedAre(wanted: seq<string>, offered: set<string>)
    ensures forall s :: s in Asked(wanted, offered) <==> s in wanted && s in offered
  {
    if wanted != [] {
      var n := |wanted| - 1;
      AskedAre(wanted[..n], offered);
      assert forall s :: s in wanted <==> s in wanted[..n] || s == wanted[n];
    }
  }

  /** In the order the form sent them. */
  lemma {:induction false} AskedHolds(wanted: seq<string>, offered: set<string>)
    ensures forall s :: s in Asked(wanted, offered) <==> s in wanted && s in offered
    ensures forall j, k :: 0 <= j < k < |Asked(wanted, offered)| ==>
              IndexOf(wanted, Asked(wanted, offered)[j]) < IndexOf(wanted, Asked(wanted, offered)[k])
  {
    AskedAre(wanted, offered);
    if wanted != [] {
      var n := |wanted| - 1;
      var rest := Asked(wanted[..n], offered);
      AskedHolds(wanted[..n], offered);
      forall k | 0 <= k < |rest|
        ensures rest[k] in wanted[..n] && IndexOf(wanted, rest[k]) == IndexOf(wanted[..n], rest[k]) < n
      {
        assert rest[k] in rest;
        IndexInPrefix(wanted, n, rest[k]);
      }
      if wanted[n] !in wanted[..n] { IndexOfNew(wanted, n); }
    }
  }

  // ------------------------------------------------------------------ round trip

  function Resubmitted(site: Site, offerable: seq<ContentType>, wanted: seq<string>): Site {
    site.(org := site.org.(settings := After(site.org.settings, offerable, wanted)))
  }

  /** `offerable` is the active types with an archive, in some order. */
  ghost predicate Offers(site: Site, offerable: seq<ContentType>) {
    DistinctTypes(offerable)
    && forall ct :: ct in offerable <==> ct in ActiveTypes(site.org, site.types) && ct.HasArchive()
  }

  lemma SettingsAfter(site: Site, offerable: seq<ContentType>, wanted: seq<string>, ct: ContentType)
    requires Offers(site, offerable) && GoodRegistry(site.types) && ct in site.types
    ensures TypeSettings(Resubmitted(site, offerable, wanted).org, ct.slug)
         == if ct in offerable then Decided(TypeSettings(site.org, ct.slug), ct, wanted)
            else TypeSettings(site.org, ct.slug)
  {
    AfterAt(site.org.settings, offerable, wanted, ct.slug);
    var found := Find(offerable, ct.slug);
    if found.Some? { SameSlugSameType(site.types, ct, found.value); }
  }

  /** The form decides nothing about whether a type is on or who may read it. */
  lemma OtherAnswersStand(site: Site, offerable: seq<ContentType>, wanted: seq<string>, ct: ContentType)
    requires Offers(site, offerable) && GoodRegistry(site.types) && ct in site.types
    ensures var after := Resubmitted(site, offerable, wanted);
            && IsActive(after.org, ct) == IsActive(site.org, ct)
            && TypeVisibility(after.org, ct.slug) == TypeVisibility(site.org, ct.slug)
            && Teases(after.org, Some(ct.slug)) == Teases(site.org, Some(ct.slug))
  {
    SettingsAfter(site, offerable, wanted, ct);
    var entry := TypeSettings(site.org, ct.slug);
    DecisionReadsBack(entry, ct, wanted, ENABLED);
    DecisionReadsBack(entry, ct, wanted, VISIBILITY);
    DecisionReadsBack(entry, ct, wanted, TEASE);
    assert ENABLED[0] == 'e' && VISIBILITY[0] == 'v' && TEASE[0] == 't'
           && SITE_ENTRY[0] == SITE_ENTRY_POSITION[0] == 's';
  }

  lemma {:induction false} SameActive(a: Org, b: Org, types: seq<ContentType>)
    requires forall ct :: ct in types ==> IsActive(a, ct) == IsActive(b, ct)
    ensures ActiveTypes(a, types) == ActiveTypes(b, types)
  {
    if types != [] { SameActive(a, b, types[1..]); }
  }

  function PlacesIn(names: seq<string>, slugs: seq<string>): (r: seq<nat>)
    requires forall k :: 0 <= k < |slugs| ==> slugs[k] in names
    ensures |r| == |slugs| && forall k :: 0 <= k < |slugs| ==> r[k] == IndexOf(names, slugs[k])
  {
    if slugs == [] then [] else [IndexOf(names, slugs[0])] + PlacesIn(names, slugs[1..])
  }

  function PlacesOf(active: seq<ContentType>, slugs: seq<string>): (r: seq<nat>)
    requires forall k :: 0 <= k < |slugs| ==> slugs[k] in SlugsOf(active)
    ensures |r| == |slugs| && forall k :: 0 <= k < |slugs| ==> r[k] == IndexOf(SlugsOf(active), slugs[k])
  {
    PlacesIn(SlugsOf(active), slugs)
  }

  lemma PlaceHolds(active: seq<ContentType>, slug: string)
    requires DistinctTypes(active) && slug in SlugsOf(active)
    ensures var k := IndexOf(SlugsOf(active), slug);
            k < |active| && active[k].slug == slug && forall i :: 0 <= i < |active| && active[i].slug == slug ==> i == k
  {
    forall i: nat | i < |active| ensures SlugsOf(active)[i] == active[i].slug { SlugsAt(active, i); }
  }

  /** The types of `slugs` in their order, where the keys ascend along it. */
  lemma SortGives(active: seq<ContentType>, keys: Keys, slugs: seq<string>, chosen: set<string>)
    requires DistinctTypes(active) && forall i: nat :: i in keys <==> i < |active|
    requires forall s :: s in slugs <==> s in chosen && s in SlugsOf(active)
    requires Sorted(keys, PlacesOf(active, slugs))
    ensures SlugsOf(At(active, Sort(keys, Where(active, chosen, |active|)))) == slugs
  {
    var ids, want := Where(active, chosen, |active|), PlacesOf(active, slugs);
    forall i: nat ensures i in want <==> i in ids { SamePlaces(active, slugs, chosen, i); }
    SortIs(keys, ids, want);
    SlugsAtPlaces(active, slugs, want);
  }

  lemma SortIs(keys: Keys, ids: seq<nat>, want: seq<nat>)
    requires Distinct(ids) && forall k :: 0 <= k < |ids| ==> ids[k] in keys
    requires Sorted(keys, want) && forall i :: i in want <==> i in ids
    ensures Sort(keys, ids) == want
  {
    SortedIsUnique(keys, Sort(keys, ids), want);
  }

  lemma SamePlaces(active: seq<ContentType>, slugs: seq<string>, chosen: set<string>, i: nat)
    requires DistinctTypes(active) && forall s :: s in slugs <==> s in chosen && s in SlugsOf(active)
    ensures i in PlacesOf(active, slugs) <==> i < |active| && active[i].slug in chosen
  {
    var want := PlacesOf(active, slugs);
    if i in want {
      var k :| 0 <= k < |want| && want[k] == i;
      PlaceHolds(active, slugs[k]);
      assert slugs[k] in slugs;
    }
    if i < |active| && active[i].slug in chosen {
      SlugsAt(active, i);
      assert active[i].slug in slugs;
      var k :| 0 <= k < |slugs| && slugs[k] == active[i].slug;
      PlaceHolds(active, slugs[k]);
      assert want[k] == i;
    }
  }

  lemma SlugsAtPlaces(active: seq<ContentType>, slugs: seq<string>, ids: seq<nat>)
    requires DistinctTypes(active) && forall k :: 0 <= k < |slugs| ==> slugs[k] in SlugsOf(active)
    requires ids == PlacesOf(active, slugs) && forall k :: 0 <= k < |ids| ==> ids[k] < |active|
    ensures SlugsOf(At(active, ids)) == slugs
  {
    var r := At(active, ids);
    forall k: nat | k < |slugs| ensures SlugsOf(r)[k] == slugs[k] {
      SlugsAt(r, k);
      PlaceHolds(active, slugs[k]);
    }
  }

  /** A front page's sections come back from the form: after it, whoever may read them all is
      shown exactly the offered slugs that were asked for, each where it first came. */
  lemma SectionsRoundTrip(site: Site, offerable: seq<ContentType>, wanted: seq<string>)
    requires GoodRegistry(site.types) && Offers(site, offerable)
    requires forall ct :: ct in site.types ==> SectionReadable(site, ct.slug)
    ensures Shown(Resubmitted(site, offerable, wanted))
         == Asked(wanted, ArchiveSlugs(ActiveTypes(site.org, site.types)))
  {
    var after, active := Resubmitted(site, offerable, wanted), ActiveTypes(site.org, site.types);
    var asked, shown := Asked(wanted, ArchiveSlugs(active)), AdvertisedSlugs(after, active);
    ActiveIsDistinct(site.org, site.types);
    ActiveAfter(site, offerable, wanted);
    forall s ensures s in asked <==> s in shown && s in SlugsOf(active) {
      AskedHolds(wanted, ArchiveSlugs(active));
      AdvertisedAfter(site, offerable, wanted, s);
    }
    AskedAscends(site, offerable, wanted);
    SortGives(active, Positions(after, active, |active|), asked, shown);
  }

  lemma AskedAscends(site: Site, offerable: seq<ContentType>, wanted: seq<string>)
    requires GoodRegistry(site.types) && Offers(site, offerable)
    ensures var active := ActiveTypes(site.org, site.types);
            var asked := Asked(wanted, ArchiveSlugs(active));
            && (forall k :: 0 <= k < |asked| ==> asked[k] in SlugsOf(active))
            && Sorted(Positions(Resubmitted(site, offerable, wanted), active, |active|), PlacesOf(active, asked))
  {
    var after, active := Resubmitted(site, offerable, wanted), ActiveTypes(site.org, site.types);
    var asked := Asked(wanted, ArchiveSlugs(active));
    var keys := Positions(after, active, |active|);
    AskedHolds(wanted, ArchiveSlugs(active));
    forall slug | slug in asked ensures PlacedAt(active, keys, slug, wanted) {
      PositionAfter(site, offerable, wanted, slug);
    }
    Ascending(active, keys, asked, wanted);
  }

  predicate PlacedAt(active: seq<ContentType>, keys: Keys, slug: string, wanted: seq<string>) {
    && slug in wanted && slug in SlugsOf(active) && IndexOf(SlugsOf(active), slug) in keys
    && keys[IndexOf(SlugsOf(active), slug)] == IndexOf(wanted, slug)
  }

  lemma Ascending(active: seq<ContentType>, keys: Keys, asked: seq<string>, wanted: seq<string>)
    requires forall slug :: slug in asked ==> PlacedAt(active, keys, slug, wanted)
    requires forall k :: 0 <= k < |asked| ==> asked[k] in wanted
    requires forall j, k :: 0 <= j < k < |asked| ==> IndexOf(wanted, asked[j]) < IndexOf(wanted, asked[k])
    ensures forall k :: 0 <= k < |asked| ==> asked[k] in SlugsOf(active)
    ensures Sorted(keys, PlacesOf(active, asked))
  {
    assert forall k :: 0 <= k < |asked| ==> PlacedAt(active, keys, asked[k], wanted);
    RanksSort(keys, PlacesOf(active, asked), PlacesIn(wanted, asked));
  }

  lemma RanksSort(keys: Keys, ids: seq<nat>, ranks: seq<int>)
    requires |ids| == |ranks| && forall k :: 0 <= k < |ids| ==> ids[k] in keys && keys[ids[k]] == ranks[k]
    requires forall j, k :: 0 <= j < k < |ranks| ==> ranks[j] < ranks[k]
    ensures Sorted(keys, ids)
  {
  }

  lemma ActiveAfter(site: Site, offerable: seq<ContentType>, wanted: seq<string>)
    requires GoodRegistry(site.types) && Offers(site, offerable)
    ensures ActiveTypes(Resubmitted(site, offerable, wanted).org, site.types) == ActiveTypes(site.org, site.types)
  {
    var after := Resubmitted(site, offerable, wanted);
    forall ct | ct in site.types ensures IsActive(after.org, ct) == IsActive(site.org, ct) {
      OtherAnswersStand(site, offerable, wanted, ct);
    }
    SameActive(after.org, site.org, site.types);
  }

  /** Shown after the form are the active types with an archive it asked for. */
  lemma AdvertisedAfter(site: Site, offerable: seq<ContentType>, wanted: seq<string>, slug: string)
    requires GoodRegistry(site.types) && Offers(site, offerable)
    requires forall ct :: ct in site.types ==> SectionReadable(site, ct.slug)
    ensures var active := ActiveTypes(site.org, site.types);
            && (slug in AdvertisedSlugs(Resubmitted(site, offerable, wanted), active)
                <==> slug in wanted && slug in ArchiveSlugs(active))
            && (slug in ArchiveSlugs(active) ==> slug in SlugsOf(active))
  {
    var after, active := Resubmitted(site, offerable, wanted), ActiveTypes(site.org, site.types);
    forall ct | ct in active ensures Advertised(after, ct) <==> ct.HasArchive() && ct.slug in wanted {
      OtherAnswersStand(site, offerable, wanted, ct);
      SettingsAfter(site, offerable, wanted, ct);
      DecisionReadsBack(TypeSettings(site.org, ct.slug), ct, wanted, SITE_ENTRY);
    }
  }

  lemma PositionAfter(site: Site, offerable: seq<ContentType>, wanted: seq<string>, slug: string)
    requires GoodRegistry(site.types) && Offers(site, offerable)
    requires slug in wanted && slug in ArchiveSlugs(ActiveTypes(site.org, site.types))
    ensures var active := ActiveTypes(site.org, site.types);
            && slug in SlugsOf(active) && IndexOf(SlugsOf(active), slug) < |active|
            && Positions(Resubmitted(site, offerable, wanted), active, |active|)[IndexOf(SlugsOf(active), slug)]
               == IndexOf(wanted, slug)
  {
    var active := ActiveTypes(site.org, site.types);
    ActiveIsDistinct(site.org, site.types);
    PlaceHolds(active, slug);
    var ct := active[IndexOf(SlugsOf(active), slug)];
    assert ct.HasArchive() by {
      var other :| other in active && other.HasArchive() && other.slug == slug;
      SameSlugSameType(site.types, ct, other);
    }
    SettingsAfter(site, offerable, wanted, ct);
    DecisionReadsBack(TypeSettings(site.org, slug), ct, wanted, SITE_ENTRY_POSITION);
  }

  // ------------------------------------------------------------------ the form as it is listed

  lemma ShownHolds(site: Site)
    requires GoodRegistry(site.types)
    ensures var active := ActiveTypes(site.org, site.types);
            && DistinctTypes(SiteEntryTypes(site))
            && (forall s :: s in Shown(site) ==> s in SlugsOf(active) && s in ArchiveSlugs(active))
  {
    var active := ActiveTypes(site.org, site.types);
    ActiveIsDistinct(site.org, site.types);
    ListedTypes(active, Positions(site, active, |active|), AdvertisedSlugs(site, active));
    forall s | s in Shown(site) ensures s in SlugsOf(active) && s in ArchiveSlugs(active) {
      var ct :| ct in SiteEntryTypes(site) && ct.slug == s;
      ShownIsArchive(site, active, ct);
    }
  }

  /** What the front page shows a viewer: the active types with an archive that are advertised, by what
      was decided or else by what the type ships with, and whose section the viewer may read. */
  lemma ShowsExactly(site: Site, ct: ContentType)
    requires GoodRegistry(site.types) && ct in site.types
    ensures ct in SiteEntryTypes(site) <==>
            && IsActive(site.org, ct) && ct.HasArchive() && SiteEntry(site.org, ct)
            && CanRead(site.viewer, site.ladder, TypeVisibility(site.org, ct.slug))
  {
    var active := ActiveTypes(site.org, site.types);
    ActiveIsDistinct(site.org, site.types);
    ListedTypes(active, Positions(site, active, |active|), AdvertisedSlugs(site, active));
    if ct.slug in AdvertisedSlugs(site, active) {
      var other :| other in active && Advertised(site, other) && other.slug == ct.slug;
      SameSlugSameType(site.types, ct, other);
    }
  }

  lemma ShownIsArchive(site: Site, active: seq<ContentType>, ct: ContentType)
    requires ct in active && ct.slug in AdvertisedSlugs(site, active)
    ensures ct.slug in SlugsOf(active) && ct.slug in ArchiveSlugs(active)
  {
  }

  /** A sorted choice among the active types is a choice of distinct ones. */
  lemma ListedTypes(active: seq<ContentType>, keys: Keys, chosen: set<string>)
    requires DistinctTypes(active) && forall i: nat :: i in keys <==> i < |active|
    ensures var r := At(active, Sort(keys, Where(active, chosen, |active|)));
            DistinctTypes(r) && forall ct :: ct in r <==> ct in active && ct.slug in chosen
  {
    var ids := Sort(keys, Where(active, chosen, |active|));
    var r := At(active, ids);
    SortedIsDistinct(keys, ids);
    forall j, k | 0 <= j < k < |r| ensures r[j].slug != r[k].slug {
      assert ids[j] != ids[k];
    }
    forall ct ensures ct in r <==> ct in active && ct.slug in chosen { ListedAt(active, ids, chosen, ct); }
  }

  lemma ListedAt(active: seq<ContentType>, ids: seq<nat>, chosen: set<string>, ct: ContentType)
    requires forall i: nat :: i in ids <==> i < |active| && active[i].slug in chosen
    requires forall k :: 0 <= k < |ids| ==> ids[k] < |active|
    ensures ct in At(active, ids) <==> ct in active && ct.slug in chosen
  {
    var r := At(active, ids);
    if ct in r {
      var k :| 0 <= k < |r| && r[k] == ct;
      assert ids[k] in ids;
    }
    if ct in active && ct.slug in chosen {
      var i: nat :| i < |active| && active[i] == ct;
      assert i in ids;
      var k :| 0 <= k < |ids| && ids[k] == i;
      assert r[k] == ct;
    }
  }

  /** The form offers every active type with an archive, once. */
  lemma OffersAll(site: Site)
    requires GoodRegistry(site.types)
    ensures Offers(site, OfferableSections(site))
  {
    var active := ActiveTypes(site.org, site.types);
    ActiveIsDistinct(site.org, site.types);
    ListedTypes(active, FormKeys(active, Shown(site)), ArchiveSlugs(active));
    forall ct | ct in active && ct.slug in ArchiveSlugs(active) ensures ct.HasArchive() {
      var other :| other in active && other.HasArchive() && other.slug == ct.slug;
      SameSlugSameType(site.types, ct, other);
    }
  }

  lemma {:induction false} AskedOfDistinct(slugs: seq<string>, offered: set<string>)
    requires Distinct(slugs) && forall s :: s in slugs ==> s in offered
    ensures Asked(slugs, offered) == slugs
  {
    if slugs != [] {
      var n := |slugs| - 1;
      AskedOfDistinct(slugs[..n], offered);
      assert slugs[..n] + [slugs[n]] == slugs;
    }
  }

  lemma ShownIsDistinct(site: Site)
    requires GoodRegistry(site.types)
    ensures Distinct(Shown(site))
  {
    ShownHolds(site);
    var types := SiteEntryTypes(site);
    forall j: nat, k: nat | j < k < |types| ensures Shown(site)[j] != Shown(site)[k] {
      SlugsAt(types, j);
      SlugsAt(types, k);
    }
  }

  /** The site once the form is sent back with what is shown, as it is listed. */
  function SentBack(site: Site): Site {
    Resubmitted(site, OfferableSections(site), Shown(site))
  }

  /** Sending the form back as it is listed changes nothing the front page shows or the form
      lists, and sending the form listed then back again stores nothing new: after the first
      time the settings are at rest. */
  lemma ResubmittingIsAFixpoint(site: Site)
    requires GoodRegistry(site.types) && forall ct :: ct in site.types ==> SectionReadable(site, ct.slug)
    ensures Shown(SentBack(site)) == Shown(site) && OfferableSections(SentBack(site)) == OfferableSections(site)
    ensures SentBack(SentBack(site)) == SentBack(site)
  {
    OffersAll(site);
    ShownHolds(site);
    ShownIsDistinct(site);
    SectionsRoundTrip(site, OfferableSections(site), Shown(site));
    AskedOfDistinct(Shown(site), ArchiveSlugs(ActiveTypes(site.org, site.types)));
    ActiveAfter(site, OfferableSections(site), Shown(site));
    DecidingAgain(site.org.settings, OfferableSections(site), Shown(site));
  }

  // ------------------------------------------------------------------ chosen ones first

  lemma IndexOfDistinct(slugs: seq<string>, k: nat)
    requires Distinct(slugs) && k < |slugs|
    ensures IndexOf(slugs, slugs[k]) == k
  {
  }

  /** The archives that are not shown, in the order of the registry. */
  function Unshown(active: seq<ContentType>, shown: seq<string>): (r: seq<string>)
    ensures |r| == |Where(active, ArchiveSlugs(active) - SetOf(shown), |active|)|
  {
    SlugsOf(At(active, Where(active, ArchiveSlugs(active) - SetOf(shown), |active|)))
  }

  function SetOf(slugs: seq<string>): set<string> {
    set s | s in slugs
  }

  lemma UnshownAt(active: seq<ContentType>, shown: seq<string>, k: nat)
    requires DistinctTypes(active) && k < |Unshown(active, shown)|
    ensures var slug, i := Unshown(active, shown)[k], Where(active, ArchiveSlugs(active) - SetOf(shown), |active|)[k];
            slug in SlugsOf(active) && slug !in shown && slug in ArchiveSlugs(active)
            && IndexOf(SlugsOf(active), slug) == i
  {
    var ids := Where(active, ArchiveSlugs(active) - SetOf(shown), |active|);
    SlugsAt(At(active, ids), k);
    SlugsAt(active, ids[k]);
    assert ids[k] in ids;
    PlaceHolds(active, active[ids[k]].slug);
  }

  /** The form lists the sections shown, in their order, and then the rest as registered: what is
      checked on it comes back in the order the page shows. */
  lemma FormListsShownFirst(site: Site)
    requires GoodRegistry(site.types)
    ensures SlugsOf(OfferableSections(site)) == Shown(site) + Unshown(ActiveTypes(site.org, site.types), Shown(site))
  {
    var active, shown := ActiveTypes(site.org, site.types), Shown(site);
    var listed, keys := shown + Unshown(active, shown), FormKeys(active, shown);
    ActiveIsDistinct(site.org, site.types);
    ShownHolds(site);
    ShownIsDistinct(site);
    forall s ensures s in listed <==> s in ArchiveSlugs(active) && s in SlugsOf(active) { ListedIs(active, shown, s); }
    ListedAscends(active, shown);
    SortGives(active, keys, listed, ArchiveSlugs(active));
  }

  lemma ListedIs(active: seq<ContentType>, shown: seq<string>, s: string)
    requires DistinctTypes(active) && forall x :: x in shown ==> x in SlugsOf(active) && x in ArchiveSlugs(active)
    ensures s in shown + Unshown(active, shown) <==> s in ArchiveSlugs(active) && s in SlugsOf(active)
  {
    var rest, ids := Unshown(active, shown), Where(active, ArchiveSlugs(active) - SetOf(shown), |active|);
    if s in rest {
      var k: nat :| k < |rest| && rest[k] == s;
      UnshownAt(active, shown, k);
    }
    if s in ArchiveSlugs(active) && s !in shown && s in SlugsOf(active) {
      PlaceHolds(active, s);
      var i := IndexOf(SlugsOf(active), s);
      assert i in ids;
      var k: nat :| k < |ids| && ids[k] == i;
      SlugsAt(At(active, ids), k);
      assert rest[k] == s;
    }
  }

  lemma ListedAscends(active: seq<ContentType>, shown: seq<string>)
    requires DistinctTypes(active) && Distinct(shown)
    requires forall x :: x in shown ==> x in SlugsOf(active) && x in ArchiveSlugs(active)
    ensures var listed := shown + Unshown(active, shown);
            && (forall k :: 0 <= k < |listed| ==> listed[k] in SlugsOf(active))
            && Sorted(FormKeys(active, shown), PlacesOf(active, listed))
  {
    var rest := Unshown(active, shown);
    AllKeyed(active, shown, shown + rest);
    RestAscends(active, shown, rest);
    TwoParts(SlugsOf(active), FormKeys(active, shown), shown, rest);
  }

  lemma AllKeyed(active: seq<ContentType>, shown: seq<string>, listed: seq<string>)
    requires DistinctTypes(active) && Distinct(shown) && listed == shown + Unshown(active, shown)
    requires forall x :: x in shown ==> x in SlugsOf(active)
    ensures forall k: nat :: k < |listed| ==> Keyed(SlugsOf(active), FormKeys(active, shown), listed, |shown|, k)
  {
    forall k: nat | k < |listed| ensures Keyed(SlugsOf(active), FormKeys(active, shown), listed, |shown|, k) {
      KeyHolds(active, shown, k);
    }
  }

  lemma RestAscends(active: seq<ContentType>, shown: seq<string>, rest: seq<string>)
    requires DistinctTypes(active) && rest == Unshown(active, shown)
    ensures forall j: nat, k: nat :: j < k < |rest| ==> Follows(SlugsOf(active), rest[j], rest[k])
  {
    forall j: nat, k: nat | j < k < |rest| ensures Follows(SlugsOf(active), rest[j], rest[k]) {
      UnshownFollows(active, shown, j, k);
    }
  }

  lemma UnshownFollows(active: seq<ContentType>, shown: seq<string>, j: nat, k: nat)
    requires DistinctTypes(active) && j < k < |Unshown(active, shown)|
    ensures Follows(SlugsOf(active), Unshown(active, shown)[j], Unshown(active, shown)[k])
  {
    UnshownAt(active, shown, j);
    UnshownAt(active, shown, k);
  }

  predicate Follows(names: seq<string>, a: string, b: string) {
    a in names && b in names && IndexOf(names, a) < IndexOf(names, b)
  }

  /** The k-th of the names has k for its key, or n from the n-th on. */
  predicate Keyed(names: seq<string>, keys: Keys, listed: seq<string>, n: nat, k: nat) {
    && k < |listed| && listed[k] in names && IndexOf(names, listed[k]) in keys
    && keys[IndexOf(names, listed[k])] == if k < n then k else n
  }

  lemma KeyHolds(active: seq<ContentType>, shown: seq<string>, k: nat)
    requires DistinctTypes(active) && Distinct(shown) && k < |shown + Unshown(active, shown)|
    requires forall x :: x in shown ==> x in SlugsOf(active)
    ensures Keyed(SlugsOf(active), FormKeys(active, shown), shown + Unshown(active, shown), |shown|, k)
  {
    if k < |shown| {
      PlaceHolds(active, shown[k]);
      IndexOfDistinct(shown, k);
    } else {
      UnshownAt(active, shown, k - |shown|);
      PlaceHolds(active, Unshown(active, shown)[k - |shown|]);
    }
  }

  lemma TwoParts(names: seq<string>, keys: Keys, first: seq<string>, rest: seq<string>)
    requires forall k: nat :: k < |first + rest| ==> Keyed(names, keys, first + rest, |first|, k)
    requires forall j: nat, k: nat :: j < k < |rest| ==> Follows(names, rest[j], rest[k])
    ensures forall k :: 0 <= k < |first + rest| ==> (first + rest)[k] in names
    ensures Sorted(keys, PlacesIn(names, first + rest))
  {
    var listed := first + rest;
    forall k: nat | k < |listed| ensures listed[k] in names && IndexOf(names, listed[k]) in keys {
      assert Keyed(names, keys, listed, |first|, k);
    }
    forall j: nat, k: nat | j < k < |listed|
      ensures PlacesIn(names, listed)[j] in keys && PlacesIn(names, listed)[k] in keys
              && Before(keys, PlacesIn(names, listed)[j], PlacesIn(names, listed)[k])
    {
      PairSorts(names, keys, first, rest, j, k);
    }
  }

  lemma PairSorts(names: seq<string>, keys: Keys, first: seq<string>, rest: seq<string>, j: nat, k: nat)
    requires j < k < |first + rest|
    requires Keyed(names, keys, first + rest, |first|, j) && Keyed(names, keys, first + rest, |first|, k)
    requires j >= |first| ==> Follows(names, rest[j - |first|], rest[k - |first|])
    ensures Before(keys, IndexOf(names, (first + rest)[j]), IndexOf(names, (first + rest)[k]))
  {
    if j >= |first| { assert (first + rest)[j] == rest[j - |first|] && (first + rest)[k] == rest[k - |first|]; }
  }
}
