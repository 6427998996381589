/** The sections the front page advertises and the form that chooses them
    (app/models/organization.py, app/platform/content_types.py). */
module Sections {
  import opened ContentTypes
  import opened Listings
  import opened Ordering
  import opened Wrappers

  // ------------------------------------------------------------------ what is stored

  predicate SiteEntry(org: Org, ct: ContentType) {
    Answer(TypeSettings(org, ct.slug), SITE_ENTRY, ct.siteEntry)
  }

  /** A stored position, unless it is not a number: True is not position one. */
  function Position(org: Org, ct: ContentType, default: int): int {
    var chosen := Chosen(TypeSettings(org, ct.slug), SITE_ENTRY_POSITION);
    if chosen.Some? && chosen.value.Number? then chosen.value.n else default
  }

  function WithoutNulls(entry: Entry): Entry {
    map key | key in entry && !entry[key].Null? :: entry[key]
  }

  /** One type's entry after the form came in: only a decision that differs from the type's own
      is written, and a place only where it is shown. */
  function Decided(entry: Entry, ct: ContentType, wanted: seq<string>): Entry {
    var on := ct.slug in wanted;
    WithoutNulls(entry[SITE_ENTRY := if on == ct.siteEntry then Null else Flag(on)]
                      [SITE_ENTRY_POSITION := if on then Number(IndexOf(wanted, ct.slug)) else Null])
  }

  function Stored(settings: Settings, slug: string): Entry {
    if slug in settings then settings[slug] else map[]
  }

  function After(settings: Settings, offerable: seq<ContentType>, wanted: seq<string>): Settings {
    map slug | slug in settings.Keys + (set ct | ct in offerable :: ct.slug) ::
      var ct := Find(offerable, slug);
      if ct.Some? then Decided(Stored(settings, slug), ct.value, wanted) else settings[slug]
  }

  ghost predicate DistinctTypes(types: seq<ContentType>) {
    forall j, k :: 0 <= j < k < |types| ==> types[j].slug != types[k].slug
  }

  class Organization {
    var settings: Settings

    method SetSiteEntries(wanted: seq<string>, offerable: seq<ContentType>)
      requires DistinctTypes(offerable)
      modifies this
      ensures settings == After(old(settings), offerable, wanted)
    {
      var store := settings;
      var k := 0;
      while k < |offerable|
        invariant 0 <= k <= |offerable|
        invariant settings == old(settings) && store == After(settings, offerable[..k], wanted)
      {
        var ct := offerable[k];
        var on := ct.slug in wanted;
        var entry := Stored(store, ct.slug);
        entry := entry[SITE_ENTRY := if on == ct.siteEntry then Null else Flag(on)];
        entry := entry[SITE_ENTRY_POSITION := if on then Number(IndexOf(wanted, ct.slug)) else Null];
        AfterOneMore(settings, offerable, wanted, k);
        store := store[ct.slug := WithoutNulls(entry)];
        k := k + 1;
      }
      assert offerable[..k] == offerable;
      settings := store;
    }
  }

  lemma {:induction false} FindEarlier(types: seq<ContentType>, last: ContentType, slug: string)
    ensures Find(types + [last], slug)
         == if Find(types, slug).Some? then Find(types, slug) else if last.slug == slug then Some(last) else None
  {
    if types == [] {
      assert [last][1..] == [];
    } else {
      assert (types + [last])[1..] == types[1..] + [last];
      FindEarlier(types[1..], last, slug);
    }
  }

  lemma AfterAt(settings: Settings, offerable: seq<ContentType>, wanted: seq<string>, slug: string)
    ensures var after, ct := After(settings, offerable, wanted), Find(offerable, slug);
            && (slug in after <==> slug in settings || ct.Some?)
            && (ct.Some? ==> after[slug] == Decided(Stored(settings, slug), ct.value, wanted))
            && (ct.None? && slug in settings ==> after[slug] == settings[slug])
  {
  }

  function OneMore(store: Settings, ct: ContentType, wanted: seq<string>): Settings {
    store[ct.slug := Decided(Stored(store, ct.slug), ct, wanted)]
  }

  lemma AfterOneMore(settings: Settings, offerable: seq<ContentType>, wanted: seq<string>, k: nat)
    requires DistinctTypes(offerable) && k < |offerable|
    ensures After(settings, offerable[..k + 1], wanted)
            == OneMore(After(settings, offerable[..k], wanted), offerable[k], wanted)
  {
    assert offerable[..k + 1] == offerable[..k] + [offerable[k]];
    assert Find(offerable[..k], offerable[k].slug).None?;
    var before, after := After(settings, offerable[..k], wanted), After(settings, offerable[..k + 1], wanted);
    var expected := OneMore(before, offerable[k], wanted);
    forall slug ensures slug in after <==> slug in expected
    {
      OneMoreAt(settings, offerable[..k], offerable[k], wanted, slug);
    }
    forall slug | slug in after ensures after[slug] == expected[slug] {
      OneMoreAt(settings, offerable[..k], offerable[k], wanted, slug);
    }
  }

  lemma OneMoreAt(settings: Settings, before: seq<ContentType>, ct: ContentType, wanted: seq<string>, slug: string)
    requires Find(before, ct.slug).None?
    ensures var after, expected := After(settings, before + [ct], wanted),
                                   OneMore(After(settings, before, wanted), ct, wanted);
            && (slug in after <==> slug in expected)
            && (slug in after ==> after[slug] == expected[slug])
  {
    AfterAt(settings, before, wanted, slug);
    AfterAt(settings, before + [ct], wanted, slug);
    FindEarlier(before, ct, slug);
  }

  // ------------------------------------------------------------------ what a decision says

  /** Every other answer of the entry stands, the choice reads back, and it is written only where
      it differs from the type's own. */
  lemma DecisionReadsBack(entry: Entry, ct: ContentType, wanted: seq<string>, key: string)
    ensures var after := Decided(entry, ct, wanted);
            && (key != SITE_ENTRY && key != SITE_ENTRY_POSITION ==> Chosen(after, key) == Chosen(entry, key))
            && (Answer(after, SITE_ENTRY, ct.siteEntry) <==> ct.slug in wanted)
            && (SITE_ENTRY in after <==> (ct.slug in wanted) != ct.siteEntry)
            && (ct.slug in wanted ==> Chosen(after, SITE_ENTRY_POSITION) == Some(Number(IndexOf(wanted, ct.slug))))
            && (ct.slug !in wanted ==> SITE_ENTRY_POSITION !in after)
  {
    assert SITE_ENTRY != SITE_ENTRY_POSITION;
  }

  /** Where a section is decided to go: the number stored for it, and where none is, or something that
      is no number, its place among the types. */
  lemma PlacedAsDecided(org: Org, ct: ContentType, place: int, n: int)
    ensures StoredAs(org, ct.slug, "site_entry_position", Number(n)) ==> Position(org, ct, place) == n
    ensures (forall m :: !StoredAs(org, ct.slug, "site_entry_position", Number(m))) ==>
              Position(org, ct, place) == place
    ensures Undecided(org, ct.slug, "site_entry") ==> SiteEntry(org, ct) == ct.siteEntry
  {
    AnswerIs(TypeSettings(org, ct.slug), SITE_ENTRY, ct.siteEntry, true);
    var chosen := Chosen(TypeSettings(org, ct.slug), SITE_ENTRY_POSITION);
    if chosen.Some? && chosen.value.Number? {
      assert StoredAs(org, ct.slug, "site_entry_position", Number(chosen.value.n));
    }
  }

  /** Coming in twice, the form changes nothing the second time. */
  lemma DecidingAgain(settings: Settings, offerable: seq<ContentType>, wanted: seq<string>)
    ensures After(After(settings, offerable, wanted), offerable, wanted) == After(settings, offerable, wanted)
  {
    var once := After(settings, offerable, wanted);
    var twice := After(once, offerable, wanted);
    forall slug ensures slug in once <==> slug in twice {
      AfterAt(settings, offerable, wanted, slug);
      AfterAt(once, offerable, wanted, slug);
    }
    forall slug | slug in once ensures twice[slug] == once[slug] {
      AfterAt(settings, offerable, wanted, slug);
      AfterAt(once, offerable, wanted, slug);
      var ct := Find(offerable, slug);
      if ct.Some? { DecidedTwice(Stored(settings, slug), ct.value, wanted); }
    }
  }

  lemma DecidedTwice(entry: Entry, ct: ContentType, wanted: seq<string>)
    ensures Decided(Decided(entry, ct, wanted), ct, wanted) == Decided(entry, ct, wanted)
  {
  }
}
