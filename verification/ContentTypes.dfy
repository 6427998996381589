/** The registry of content types and what an organization has said about each
    (app/platform/content_types.py, app/models/organization.py). A request is under way and an
    organization is in force. */
module ContentTypes {
  import opened Slugs
  import opened Wrappers

  datatype Kind = Page | Post

  datatype ContentType = ContentType(slug: string, kind: Kind, base: string, siteEntry: bool, childRoutable: bool,
                                     essential: bool, enabledByDefault: bool, plugin: Option<string>)
  {
    predicate HasArchive() { kind.Post? }
  }

  /** One answer in the settings map, a blob that can be edited by hand. */
  datatype Value = Flag(on: bool) | Number(n: int) | Text(s: string) | Null

  type Entry = map<string, Value>
  type Settings = map<string, Entry>

  datatype Org = Org(settings: Settings, teases: bool, installed: set<string>)

  const ENABLED := "enabled"
  const VISIBILITY := "visibility"
  const TEASE := "tease"
  const SITE_ENTRY := "site_entry"
  const SITE_ENTRY_POSITION := "site_entry_position"

  // ------------------------------------------------------------------ the registry

  predicate ValidBase(base: string) {
    base != "" && base[0] == '/' && Segment(base[1..], 48)
  }

  predicate ValidTypeSlug(slug: string) {
    && 1 <= |slug| <= 50 && 'a' <= slug[0] <= 'z'
    && forall k :: 0 <= k < |slug| ==> Alnum(slug[k]) || slug[k] == '_'
  }

  predicate ValidDefinition(ct: ContentType) {
    ValidTypeSlug(ct.slug) && (if ct.HasArchive() then ValidBase(ct.base) else ct.base == "")
  }

  ghost predicate GoodRegistry(types: seq<ContentType>) {
    && (forall k :: 0 <= k < |types| ==> ValidDefinition(types[k]))
    && (forall j, k :: 0 <= j < k < |types| ==> types[j].slug != types[k].slug)
    && (forall j, k :: 0 <= j < k < |types| && types[j].base != "" ==> types[j].base != types[k].base)
  }

  function Find(types: seq<ContentType>, slug: string): (r: Option<ContentType>)
    ensures r.Some? ==> r.value in types && r.value.slug == slug
    ensures r.None? ==> forall ct :: ct in types ==> ct.slug != slug
  {
    if types == [] then None
    else if types[0].slug == slug then Some(types[0])
    else Find(types[1..], slug)
  }

  datatype Refusal = BadDefinition | AlreadyRegistered | BaseUsed

  class Registry {
    var types: seq<ContentType>

    constructor ()
      ensures types == [] && GoodRegistry(types)
    {
      types := [];
    }

    method Register(ct: ContentType) returns (r: Result<ContentType, Refusal>)
      requires GoodRegistry(types)
      modifies this
      ensures GoodRegistry(types)
      ensures r == Ok(ct) ==> types == old(types) + [ct]
      ensures r != Ok(ct) ==> types == old(types)
      ensures r == Ok(ct) <==> ValidDefinition(ct) && Find(old(types), ct.slug).None?
                               && (ct.base != "" ==> forall other :: other in old(types) ==> other.base != ct.base)
    {
      if !ValidDefinition(ct) {
        return Err(BadDefinition);
      }
      if Find(types, ct.slug).Some? {
        return Err(AlreadyRegistered);
      }
      if ct.base != "" {
        var k := 0;
        while k < |types|
          invariant 0 <= k <= |types|
          invariant forall j :: 0 <= j < k ==> types[j].base != ct.base
        {
          if types[k].base != "" && types[k].base == ct.base {
            return Err(BaseUsed);
          }
          k := k + 1;
        }
      }
      types := types + [ct];
      r := Ok(ct);
    }
  }

  // ------------------------------------------------------------------ what an organization says

  function TypeSettings(org: Org, slug: string): Entry {
    if slug in org.settings then org.settings[slug] else map[]
  }

  /** An answer, where there is one: a stored null is no opinion. */
  function Chosen(entry: Entry, key: string): Option<Value> {
    if key in entry && !entry[key].Null? then Some(entry[key]) else None
  }

  predicate Truthy(v: Value) {
    match v
    case Flag(on) => on
    case Number(n) => n != 0
    case Text(s) => s != ""
    case Null => false
  }

  predicate Answer(entry: Entry, key: string, default: bool) {
    var chosen := Chosen(entry, key);
    if chosen.None? then default else Truthy(chosen.value)
  }

  predicate TypeEnabled(org: Org, ct: ContentType) {
    ct.essential || Answer(TypeSettings(org, ct.slug), ENABLED, ct.plugin.Some? || ct.enabledByDefault)
  }

  predicate IsActive(org: Org, ct: ContentType) {
    (ct.plugin.Some? ==> ct.plugin.value in org.installed) && TypeEnabled(org, ct)
  }

  function ActiveTypes(org: Org, types: seq<ContentType>): (r: seq<ContentType>)
    ensures forall ct :: ct in r <==> ct in types && IsActive(org, ct)
  {
    if types == [] then [] else (if IsActive(org, types[0]) then [types[0]] else []) + ActiveTypes(org, types[1..])
  }

  function FeedTypes(org: Org, types: seq<ContentType>): (r: seq<ContentType>)
    ensures forall ct :: ct in r <==> ct in types && ct.HasArchive() && IsActive(org, ct)
  {
    if types == [] then []
    else (if types[0].HasArchive() && IsActive(org, types[0]) then [types[0]] else []) + FeedTypes(org, types[1..])
  }

  function TypeForBase(org: Org, types: seq<ContentType>, base: string): (r: Option<ContentType>)
    ensures r.Some? ==> r.value in types && r.value.HasArchive() && r.value.base == base && IsActive(org, r.value)
    ensures r.None? ==> forall ct :: ct in types && ct.HasArchive() && ct.base == base ==> !IsActive(org, ct)
  {
    if types == [] then None
    else if types[0].HasArchive() && types[0].base == base && IsActive(org, types[0]) then Some(types[0])
    else TypeForBase(org, types[1..], base)
  }

  /** What a stored answer decides: a flag says itself, and where nothing is stored or a null is, the
      default stands. */
  lemma AnswerIs(entry: Entry, key: string, default: bool, on: bool)
    ensures key !in entry || entry[key] == Null ==> Answer(entry, key, default) == default
    ensures key in entry && entry[key] == Flag(on) ==> Answer(entry, key, default) == on
    ensures key in entry && entry[key].Number? ==> (Answer(entry, key, default) <==> entry[key].n != 0)
    ensures key in entry && entry[key].Text? ==> (Answer(entry, key, default) <==> entry[key].s != "")
  {
  }

  /** Which definitions a registry takes: a slug of at most fifty letters, digits and underscores, a
      letter first, and for a type with an archive a base of one segment of at most forty-nine. */
  lemma ValidExactly(ct: ContentType)
    ensures ValidDefinition(ct) <==>
            && 1 <= |ct.slug| <= 50 && 'a' <= ct.slug[0] <= 'z'
            && (forall k :: 0 <= k < |ct.slug| ==>
                  ct.slug[k] == '_' || 'a' <= ct.slug[k] <= 'z' || '0' <= ct.slug[k] <= '9')
            && (ct.kind.Page? ==> ct.base == "")
            && (ct.kind.Post? ==>
                  && 2 <= |ct.base| <= 50 && ct.base[0] == '/' && ct.base[1] != '-'
                  && forall k :: 1 <= k < |ct.base| ==>
                       ct.base[k] == '-' || 'a' <= ct.base[k] <= 'z' || '0' <= ct.base[k] <= '9')
  {
    assert ct.base != "" ==> forall k :: 0 <= k < |ct.base[1..]| ==> ct.base[1..][k] == ct.base[k + 1];
  }

  /** Which types are on: one from a plugin only while that is installed; an essential one always
      otherwise; and any other as the organization last decided, or else as it ships, a plugin's own
      being on. */
  lemma ActiveExactly(org: Org, ct: ContentType, on: bool)
    ensures ct.plugin.Some? && ct.plugin.value !in org.installed ==> !IsActive(org, ct)
    ensures (ct.plugin.Some? ==> ct.plugin.value in org.installed) ==>
              && (ct.essential ==> IsActive(org, ct))
              && (!ct.essential && Undecided(org, ct.slug, "enabled") ==>
                    (IsActive(org, ct) <==> ct.plugin.Some? || ct.enabledByDefault))
              && (!ct.essential && StoredAs(org, ct.slug, "enabled", Flag(on)) ==> (IsActive(org, ct) <==> on))
  {
    AnswerIs(TypeSettings(org, ct.slug), ENABLED, ct.plugin.Some? || ct.enabledByDefault, on);
  }

  predicate StoredAs(org: Org, slug: string, key: string, v: Value) {
    slug in org.settings && key in org.settings[slug] && org.settings[slug][key] == v
  }

  /** The organization has stored no answer, or a null, under the key. */
  predicate Undecided(org: Org, slug: string, key: string) {
    slug in org.settings && key in org.settings[slug] ==> org.settings[slug][key] == Null
  }

  /** In a registry a base is one type's alone, so the lookup finds that one. */
  lemma BaseFindsItsType(org: Org, types: seq<ContentType>, ct: ContentType)
    requires GoodRegistry(types) && ct in types && ct.HasArchive()
    ensures TypeForBase(org, types, ct.base) == if IsActive(org, ct) then Some(ct) else None
  {
    var found := TypeForBase(org, types, ct.base);
    if found.Some? {
      var j :| 0 <= j < |types| && types[j] == found.value;
      var k :| 0 <= k < |types| && types[k] == ct;
      assert types[j].base == types[k].base != "";
    }
  }

  lemma SlugFindsItsType(types: seq<ContentType>, ct: ContentType)
    requires GoodRegistry(types) && ct in types
    ensures Find(types, ct.slug) == Some(ct)
  {
    var found := Find(types, ct.slug).value;
    var j :| 0 <= j < |types| && types[j] == found;
    var k :| 0 <= k < |types| && types[k] == ct;
    assert types[j].slug == types[k].slug;
  }

  lemma SameSlugSameType(types: seq<ContentType>, a: ContentType, b: ContentType)
    requires GoodRegistry(types) && a in types && b in types && a.slug == b.slug
    ensures a == b
  {
    SlugFindsItsType(types, a);
    SlugFindsItsType(types, b);
  }
}
