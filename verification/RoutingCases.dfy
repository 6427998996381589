/** Two registries the checks accept, and stores two saves make in them, where a permalink does not
    lead back to its row. */
module RoutingCases {
  import opened Blocks
  import opened ContentStore
  import opened ContentTypes
  import opened Routing
  import opened Slugs
  import opened Wrappers

  function Type(slug: string, kind: Kind, base: string, childRoutable: bool): ContentType {
    ContentType(slug, kind, base, false, childRoutable, true, true, None)
  }

  /** A published public row titled and addressed "a". */
  function Titled(typ: string, parent: Option<nat>, position: Option<int>): Row {
    Row(typ, "a", Some("a"), parent, position, Published, "public")
  }

  const PLAIN := Org(map[], true, {})

  lemma ShortSlugIsFree(types: seq<ContentType>, typ: string)
    requires forall ct :: ct in types ==> BaseWord(ct) != "a"
    ensures "a" !in Reserved(types, typ)
  {
    NoReservedLetter("a");
    assert "a" !in BaseWords(types);
  }

  lemma NoReservedLetter(slug: string)
    requires |slug| == 1
    ensures slug !in RESERVED_PAGE_SLUGS && slug !in RESERVED_ITEM_SLUGS
  {
  }

  /** A save of such a row, with the address free, stores it as it is. */
  lemma Saves(w: World, rows: Table, id: nat, d: Row)
    requires d == Titled(d.typ, d.parent, d.position) && d.typ != "" && Find(w.types, d.typ).Some?
    requires forall ct :: ct in w.types ==> BaseWord(ct) != "a"
    requires "a" !in Used(rows, id, d.typ, d.parent)
    requires if d.parent.None? then d.position.None?
             else d.position.Some? && WantsAddress(w.types, d.typ) && ChildRefusal(rows, id, d.parent.value).None?
    ensures Validated(w, rows, id, d, []) == Ok(d)
  {
    ShortSlugIsFree(w.types, d.typ);
    assert Prepared(w, rows, id, d, []) == Ok(d);
    PassesFields(w, d);
  }

  lemma PassesFields(w: World, d: Row)
    requires d == Titled(d.typ, d.parent, d.position) && Find(w.types, d.typ).Some?
    ensures FieldRefusal(w, d).None?
  {
    assert |d.title| == 1 && d.title[0] == 'a';
    assert Segment("a", 198);
  }

  lemma RunOfTwo(w: World, a: Op, b: Op)
    requires !a.Move? && !b.Move?
    ensures Runs(w, map[], [a, b]) && Run(w, map[], [a, b]) == Step(w, Step(w, map[], a), b)
  {
    assert [a, b][1..] == [b] && [b][1..] == [];
    assert Run(w, Step(w, map[], a), [b]) == Step(w, Step(w, map[], a), b);
  }

  // ------------------------------------------------------------------ two archiveless types

  const PAGES := [Type("page", Page, "", false), Type("landing", Page, "", false)]

  lemma PagesRegister()
    ensures GoodRegistry(PAGES) && Find(PAGES, "page") == Some(PAGES[0]) && Find(PAGES, "landing") == Some(PAGES[1])
    ensures forall ct :: ct in PAGES ==> BaseWord(ct) != "a"
  {
    assert |"page"| == 4 && |"landing"| == 7;
    assert PAGES[1..] == [PAGES[1]];
  }

  /** With a second archiveless type registered two saves make two rows that share a permalink:
      it leads to the page, and to the other row never. */
  lemma TwoPagesShareALink()
    ensures var ops := [Op.Save(0, Titled("page", None, None), []), Op.Save(1, Titled("landing", None, None), [])];
            && Runs(World(PAGES, []), map[], ops)
            && Run(World(PAGES, []), map[], ops)
               == map[0 := Titled("page", None, None), 1 := Titled("landing", None, None)]
    ensures var w, rows := World(PAGES, []), map[0 := Titled("page", None, None), 1 := Titled("landing", None, None)];
            && Sound(w, rows) && Twins(w, rows, 0, 1)
            && Permalink(w, PLAIN, rows, 0) == Permalink(w, PLAIN, rows, 1)
            && Dispatch(w, PLAIN, rows, Permalink(w, PLAIN, rows, 1)) == Item(0)
  {
    var w := World(PAGES, []);
    var a, b := Titled("page", None, None), Titled("landing", None, None);
    var ops := [Op.Save(0, a, []), Op.Save(1, b, [])];
    PagesRegister();
    RunOfTwo(w, ops[0], ops[1]);
    Saves(w, map[], 0, a);
    Saves(w, map[0 := a], 1, b);
    RunKeepsGood(w, map[], ops);
    var rows := map[0 := a, 1 := b];
    assert map[][0 := a][1 := b] == rows;
    TwinsShareALink(w, PLAIN, rows, 0, 1);
    StandaloneIsServed(w, PLAIN, rows, 0);
  }

  // ------------------------------------------------------------------ an archiveless block

  const CARDS := [Type("post", Post, "/posts", false), Type("card", Page, "", true)]

  lemma CardsRegister()
    ensures GoodRegistry(CARDS) && Find(CARDS, "post") == Some(CARDS[0]) && Find(CARDS, "card") == Some(CARDS[1])
    ensures forall ct :: ct in CARDS ==> BaseWord(ct) != "a"
  {
    assert CARDS[0].slug[0] == 'p' && CARDS[1].slug[0] == 'c';
    assert CARDS[1..] == [CARDS[1]];
    assert CARDS[0].base[1..] == "posts" && |"posts"| == 5;
  }

  function OneCard(): Table {
    map[0 := Titled("post", None, None), 1 := Titled("card", Some(0), Some(0))]
  }

  lemma CardIsStored()
    ensures var ops := [Op.Save(0, Titled("post", None, None), []), Op.Save(1, Titled("card", Some(0), Some(0)), [])];
            Runs(World(CARDS, []), map[], ops) && Run(World(CARDS, []), map[], ops) == OneCard()
    ensures Sound(World(CARDS, []), OneCard())
  {
    var w := World(CARDS, []);
    var a, b := Titled("post", None, None), Titled("card", Some(0), Some(0));
    var ops := [Op.Save(0, a, []), Op.Save(1, b, [])];
    CardsRegister();
    RunOfTwo(w, ops[0], ops[1]);
    Saves(w, map[], 0, a);
    Saves(w, map[0 := a], 1, b);
    assert map[][0 := a][1 := b] == OneCard();
    RunKeepsGood(w, map[], ops);
  }

  lemma CardsLink()
    requires Sound(World(CARDS, []), OneCard())
    ensures Addressed(World(CARDS, []), PLAIN, OneCard(), 1)
    ensures Permalink(World(CARDS, []), PLAIN, OneCard(), 1) == "/posts/a/a"
  {
    hide FieldsGood, UniqueAddresses;
    CardsRegister();
    assert IsActive(PLAIN, CARDS[1]);
    assert StandaloneLink(World(CARDS, []), OneCard(), 0) == "/posts" + "/" + "a";
  }

  /** A block of a type that wants addresses and keeps no archive gets one nothing serves. */
  lemma CardIsNotServed()
    ensures var ops := [Op.Save(0, Titled("post", None, None), []), Op.Save(1, Titled("card", Some(0), Some(0)), [])];
            Runs(World(CARDS, []), map[], ops) && Run(World(CARDS, []), map[], ops) == OneCard()
    ensures var w, rows := World(CARDS, []), OneCard();
            && Sound(w, rows) && Addressed(w, PLAIN, rows, 1) && Permalink(w, PLAIN, rows, 1) == "/posts/a/a"
            && Dispatch(w, PLAIN, rows, "/posts/a/a") != Item(1)
  {
    CardIsStored();
    CardsLink();
    CardsRegister();
    BlockIsServed(World(CARDS, []), PLAIN, OneCard(), 1);
  }
}
