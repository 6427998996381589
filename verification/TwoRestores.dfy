/** One body with both kinds of marker: the videos are restored first and the figures then, on the
    text the first restore left (app/platform/content.py). */
module TwoRestores {
  import opened Markers
  import opened Markup
  import opened Numerals
  import opened Stash

  /** A rendered body seen as text with marker words of both families in it. */
  datatype Part = Plain(t: string) | Video(index: nat, para: bool) | Image(index: nat, para: bool)

  function TextOf(part: Part, v: string, i: string): string {
    match part
    case Plain(t) => t
    case Video(k, para) => Pattern(v, k, para)
    case Image(k, para) => Pattern(i, k, para)
  }

  function BlockAt(blocks: seq<string>, k: nat): string {
    if k < |blocks| then blocks[k] else ""
  }

  /** The text before any restore. */
  function Rendered(doc: seq<Part>, v: string, i: string): string {
    if doc == [] then "" else TextOf(doc[0], v, i) + Rendered(doc[1..], v, i)
  }

  /** The text between the two restores. */
  function HalfWay(doc: seq<Part>, videos: seq<string>, i: string): string {
    if doc == [] then ""
    else (if doc[0].Video? then BlockAt(videos, doc[0].index) else TextOf(doc[0], "", i)) + HalfWay(doc[1..], videos, i)
  }

  /** Every word's own block in its place and all else as it was. */
  function Restored2(doc: seq<Part>, videos: seq<string>, figures: seq<string>): string {
    if doc == [] then ""
    else (match doc[0]
          case Plain(t) => t
          case Video(k, _) => BlockAt(videos, k)
          case Image(k, _) => BlockAt(figures, k)) + Restored2(doc[1..], videos, figures)
  }

  // ------------------------------------------------------------------ what one restore sees

  /** The body as one of the two restores sees it: what was written between the words, what stands
      in the place of the other family's words, and the words of its own family. */
  datatype Item = Loose(t: string) | Fixed(m: string) | Own(index: nat, para: bool)

  /** The first restore sees figures' words as text. */
  function First(doc: seq<Part>, i: string): seq<Item> {
    if doc == [] then [] else [FirstItem(doc[0], i)] + First(doc[1..], i)
  }

  function FirstItem(part: Part, i: string): Item {
    match part
    case Plain(t) => Loose(t)
    case Video(k, para) => Own(k, para)
    case Image(k, para) => Fixed(Pattern(i, k, para))
  }

  /** The second sees the frames put back as text. */
  function Second(doc: seq<Part>, videos: seq<string>): seq<Item> {
    if doc == [] then [] else [SecondItem(doc[0], videos)] + Second(doc[1..], videos)
  }

  function SecondItem(part: Part, videos: seq<string>): Item {
    match part
    case Plain(t) => Loose(t)
    case Video(k, _) => Fixed(BlockAt(videos, k))
    case Image(k, para) => Own(k, para)
  }

  function Flat(stem: string, items: seq<Item>): string {
    if items == [] then ""
    else (match items[0]
          case Loose(t) => t
          case Fixed(m) => m
          case Own(k, para) => Pattern(stem, k, para)) + Flat(stem, items[1..])
  }

  function PutBack(blocks: seq<string>, items: seq<Item>): string {
    if items == [] then ""
    else (match items[0]
          case Loose(t) => t
          case Fixed(m) => m
          case Own(k, _) => BlockAt(blocks, k)) + PutBack(blocks, items[1..])
  }

  /** Split at the words of its own family; `acc` is text not yet closed off by one. */
  function View(items: seq<Item>, acc: string): seq<Piece> {
    if items == [] then [Text(acc)]
    else match items[0]
      case Loose(t) => View(items[1..], acc + t)
      case Fixed(m) => View(items[1..], acc + m)
      case Own(k, para) => [Text(acc), Word(k, para)] + View(items[1..], "")
  }

  lemma {:induction false} FirstHolds(doc: seq<Part>, v: string, i: string, videos: seq<string>)
    ensures Flat(v, First(doc, i)) == Rendered(doc, v, i) && PutBack(videos, First(doc, i)) == HalfWay(doc, videos, i)
  {
    if doc != [] { FirstHolds(doc[1..], v, i, videos); }
  }

  lemma {:induction false} SecondHolds(doc: seq<Part>, i: string, videos: seq<string>, figures: seq<string>)
    ensures Flat(i, Second(doc, videos)) == HalfWay(doc, videos, i)
    ensures PutBack(figures, Second(doc, videos)) == Restored2(doc, videos, figures)
  {
    if doc != [] { SecondHolds(doc[1..], i, videos, figures); }
  }

  lemma TwoPieces(stem: string, blocks: seq<string>, acc: string, k: nat, para: bool, rest: seq<Piece>)
    ensures var doc := [Text(acc), Word(k, para)] + rest;
            && Render(stem, doc) == acc + (Pattern(stem, k, para) + Render(stem, rest))
            && Expand(blocks, doc) == acc + (BlockAt(blocks, k) + Expand(blocks, rest))
  {
    var doc := [Text(acc), Word(k, para)] + rest;
    assert doc[1..] == [Word(k, para)] + rest && doc[1..][1..] == rest;
  }

  lemma OneText(stem: string, blocks: seq<string>, acc: string)
    ensures Render(stem, [Text(acc)]) == acc + "" && Expand(blocks, [Text(acc)]) == acc + ""
  {
    assert [Text(acc)][1..] == [];
  }

  lemma {:induction false} ViewHolds(stem: string, blocks: seq<string>, items: seq<Item>, acc: string)
    ensures Render(stem, View(items, acc)) == acc + Flat(stem, items)
    ensures Expand(blocks, View(items, acc)) == acc + PutBack(blocks, items)
  {
    if items == [] {
      OneText(stem, blocks, acc);
    } else if items[0].Own? {
      ViewHolds(stem, blocks, items[1..], "");
      TwoPieces(stem, blocks, acc, items[0].index, items[0].para, View(items[1..], ""));
      Unit(Flat(stem, items[1..]));
      Unit(PutBack(blocks, items[1..]));
    } else {
      var t := if items[0].Loose? then items[0].t else items[0].m;
      ViewHolds(stem, blocks, items[1..], acc + t);
      Assoc(acc, t, Flat(stem, items[1..]));
      Assoc(acc, t, PutBack(blocks, items[1..]));
    }
  }

  /** What a stash leaves of its blocks: nothing where there are none, else the token last. */
  function Holders(blocks: seq<string>, token: string): seq<string> {
    if blocks == [] then [] else blocks + [token]
  }

  lemma RestoreOne(word: string, token: string, blocks: seq<string>, doc: seq<Piece>)
    requires GoodBlocks(Stem(word, token), blocks) && Intact(Stem(word, token), |blocks|, doc)
    ensures Restored(Render(Stem(word, token), doc), Holders(blocks, token), word) == Expand(blocks, doc)
  {
    RestorePutsBlocksBack(word, token, blocks, doc);
    if blocks == [] { NoBlocks(Render(Stem(word, token), doc), token, word); }
  }

  /** Both restores, one after the other on one body, put every frame and every figure where its
      word stands and change nothing else. All that is asked is that each family's words are
      intact in the text its restore is given. */
  lemma BothRestoresPutBlocksBack(doc: seq<Part>, videoToken: string, imageToken: string, videos: seq<string>,
                                  figures: seq<string>)
    requires GoodBlocks(Stem("video", videoToken), videos) && GoodBlocks(Stem("image", imageToken), figures)
    requires Intact(Stem("video", videoToken), |videos|, View(First(doc, Stem("image", imageToken)), ""))
    requires Intact(Stem("image", imageToken), |figures|, View(Second(doc, videos), ""))
    ensures var html := Rendered(doc, Stem("video", videoToken), Stem("image", imageToken));
            var first := Restored(html, Holders(videos, videoToken), "video");
            Restored(first, Holders(figures, imageToken), "image") == Restored2(doc, videos, figures)
  {
    var v, i := Stem("video", videoToken), Stem("image", imageToken);
    FirstHolds(doc, v, i, videos);
    SecondHolds(doc, i, videos, figures);
    ViewHolds(v, videos, First(doc, i), "");
    ViewHolds(i, figures, Second(doc, videos), "");
    Unit(Rendered(doc, v, i));
    Unit(HalfWay(doc, videos, i));
    Unit(Restored2(doc, videos, figures));
    RestoreOne("video", videoToken, videos, View(First(doc, i), ""));
    RestoreOne("image", imageToken, figures, View(Second(doc, videos), ""));
  }

  // ------------------------------------------------------------------ from the text alone

  /** What is put between two texts cannot help them make up a stem, an opening or a closing tag. */
  ghost predicate Plug(stem: string, m: string) {
    && m != "" && (m[0] == 's' || m[0] == '<') && (m[|m| - 1] == '>' || IsDigit(m[|m| - 1]))
    && !EndsWith(m, "<p>")
    && (forall x: string :: !("</p>" <= m + x))
    && (forall x: string, j: nat :: j < |m| ==> !(stem <= (m + x)[j..]))
  }

  lemma CharDiffers(q: string, s: string, x: nat)
    requires x < |q| && (x >= |s| || s[x] != q[x])
    ensures !(q <= s)
  {
  }

  lemma OpenTagAt(s: string)
    ensures EndsWith(s, "<p>") <==> |s| >= 3 && s[|s| - 3] == '<' && s[|s| - 2] == 'p' && s[|s| - 1] == '>'
  {
    if |s| >= 3 {
      assert s[|s| - 3..] == [s[|s| - 3], s[|s| - 2], s[|s| - 1]];
    }
  }

  lemma CloseTagAt(s: string)
    ensures "</p>" <= s <==> |s| >= 4 && s[0] == '<' && s[1] == '/' && s[2] == 'p' && s[3] == '>'
  {
    if |s| >= 4 { assert s[..4] == [s[0], s[1], s[2], s[3]]; }
  }

  lemma OccursIsPrefix(p: string, s: string, j: nat)
    requires j <= |s|
    ensures OccursAt(p, s, j) <==> p <= s[j..]
  {
  }

  lemma OccursInside(p: string, b: string, x: string, j: nat)
    requires j + |p| <= |b|
    ensures p <= (b + x)[j..] <==> OccursAt(p, b, j)
  {
    assert (b + x)[j..][..|p|] == b[j..j + |p|];
  }

  /** The other stem would have to start at the one 's' of the marker and agree with its stem. */
  lemma NotInMarker(other: string, stem: string, k: nat, para: bool, x: string, j: nat)
    requires GoodStem(other) && GoodStem(stem) && |other| > 9 && |stem| > 9 && other[9] != stem[9]
    requires j < |Pattern(stem, k, para)|
    ensures !(other <= (Pattern(stem, k, para) + x)[j..])
  {
    var p := Pattern(stem, k, para);
    var start := if para then 3 else 0;
    if para { PatternShape(stem, k, j); }
    if start <= j < start + |Bare(stem, k)| {
      assert p[j] == Bare(stem, k)[j - start];
      BareShape(stem, k, j - start);
    }
    assert p[start + 9] == Bare(stem, k)[9] == stem[9];
    CharDiffers(other, (p + x)[j..], if p[j] == 's' then 9 else 0);
  }

  lemma MarkerEnds(stem: string, k: nat, para: bool)
    requires GoodStem(stem)
    ensures var p := Pattern(stem, k, para);
            && p != "" && p[0] == (if para then '<' else 's') && (para ==> p[1] == 'p')
            && if para then p[|p| - 1] == '>' && p[|p| - 3] == '/' else IsDigit(p[|p| - 1])
  {
    var p := Pattern(stem, k, para);
    if para {
      PatternShape(stem, k, 0);
      assert p[..3] == "<p>" && p[|p| - 4..] == "</p>";
      assert p[1] == p[..3][1] && p[|p| - 3] == p[|p| - 4..][1];
    } else {
      assert p[|p| - 1] == Dec(k)[|Dec(k)| - 1];
    }
  }

  lemma MarkerIsPlug(other: string, stem: string, k: nat, para: bool)
    requires GoodStem(other) && GoodStem(stem) && |other| > 9 && |stem| > 9 && other[9] != stem[9]
    ensures Plug(other, Pattern(stem, k, para))
  {
    var p := Pattern(stem, k, para);
    MarkerEnds(stem, k, para);
    OpenTagAt(p);
    forall x: string ensures !("</p>" <= p + x) {
      CloseTagAt(p + x);
    }
    forall x: string, j: nat | j < |p| ensures !(other <= (p + x)[j..]) {
      NotInMarker(other, stem, k, para, x, j);
    }
  }

  lemma BlockIsPlug(stem: string, own: string, b: string)
    requires GoodStem(stem) && GoodBlock(own, b) && !Contains(b, stem)
    ensures Plug(stem, b)
  {
    assert GoodBlock(stem, b);
    forall x: string ensures !("</p>" <= b + x) {
      BlockIsNoCloseTag(stem, b, x);
    }
    forall x: string, j: nat | j < |b| ensures !(stem <= (b + x)[j..]) {
      if j + |stem| <= |b| {
        OccursInside(stem, b, x, j);
      } else {
        CharDiffers(stem, (b + x)[j..], |b| - 1 - j);
      }
    }
  }

  /** Text free of a stem stays free of it around a plug. */
  lemma PlugKeepsFree(stem: string, a: string, m: string, b: string)
    requires GoodStem(stem) && Plug(stem, m) && !Contains(a, stem) && !Contains(b, stem)
    ensures !Contains(a + m + b, stem)
  {
    forall j: nat ensures !OccursAt(stem, a + m + b, j) {
      NoneAround(stem, a, m, b, j);
    }
  }

  lemma NoneAround(stem: string, a: string, m: string, b: string, j: nat)
    requires GoodStem(stem) && Plug(stem, m) && !OccursAt(stem, a, j)
    requires j >= |a| + |m| ==> !OccursAt(stem, b, j - |a| - |m|)
    ensures !OccursAt(stem, a + m + b, j)
  {
    var s := a + m + b;
    if j + |stem| <= |s| {
      OccursIsPrefix(stem, s, j);
      if j + |stem| <= |a| {
        assert s == a + (m + b);
        OccursInside(stem, a, m + b, j);
      } else if j < |a| {
        assert s[j..][|a| - j] == s[|a|] == m[0];
        CharDiffers(stem, s[j..], |a| - j);
      } else if j < |a| + |m| {
        assert s[j..] == (m + b)[j - |a|..];
      } else {
        assert s[j..] == b[j - |a| - |m|..];
        OccursIsPrefix(stem, b, j - |a| - |m|);
      }
    }
  }

  /** The two families can never be read for one another, whatever the tokens: text without a stem
      of one stays without it when a marker of the other, wrapped or bare, is put into it. */
  lemma FamiliesAreApart(videoToken: string, imageToken: string, k: nat, para: bool, a: string, b: string)
    requires Hexadecimal(videoToken) && Hexadecimal(imageToken)
    ensures var v, i := Stem("video", videoToken), Stem("image", imageToken);
            && (!Contains(a, v) && !Contains(b, v) ==> !Contains(a + Pattern(i, k, para) + b, v))
            && (!Contains(a, i) && !Contains(b, i) ==> !Contains(a + Pattern(v, k, para) + b, i))
  {
    var v, i := Stem("video", videoToken), Stem("image", imageToken);
    StemsPart(videoToken, imageToken);
    MarkerIsPlug(v, i, k, para);
    MarkerIsPlug(i, v, k, para);
    if !Contains(a, v) && !Contains(b, v) { PlugKeepsFree(v, a, Pattern(i, k, para), b); }
    if !Contains(a, i) && !Contains(b, i) { PlugKeepsFree(i, a, Pattern(v, k, para), b); }
  }

  lemma StemsPart(videoToken: string, imageToken: string)
    requires Hexadecimal(videoToken) && Hexadecimal(imageToken)
    ensures var v, i := Stem("video", videoToken), Stem("image", imageToken);
            GoodStem(v) && GoodStem(i) && |v| > 9 && |i| > 9 && v[9] == 'v' && i[9] == 'i'
  {
    StemIsGood("video", videoToken);
    StemIsGood("image", imageToken);
    assert |"supremely"| == 9;
  }

  /** What is asked of the items, each by itself and with its neighbours. */
  ghost predicate GoodItems(stem: string, n: nat, items: seq<Item>) {
    items == [] ||
    (GoodItems(stem, n, items[1..]) &&
     match items[0]
     case Loose(t) => !Contains(t, stem) && (|items| > 1 ==> !items[1].Loose?) && !Alone(items)
     case Fixed(m) => Plug(stem, m)
     case Own(k, para) => k < n && (para || |items| == 1 || !items[1].Loose? || !StartsWithDigit(items[1].t)))
  }

  /** A bare word that is in truth alone in its paragraph. */
  predicate Alone(items: seq<Item>) {
    && |items| > 2 && items[0].Loose? && items[1].Own? && !items[1].para && items[2].Loose?
    && EndsWith(items[0].t, "<p>") && "</p>" <= items[2].t
  }

  /** An item that is not written text opens with '<' or 's', and closes no paragraph. */
  lemma OpensWell(stem: string, n: nat, items: seq<Item>)
    requires GoodStem(stem) && GoodItems(stem, n, items) && items != [] && !items[0].Loose?
    ensures var r := Flat(stem, items); r != "" && (r[0] == 's' || r[0] == '<') && !("</p>" <= r)
  {
    if items[0].Own? {
      var r := Flat(stem, items);
      MarkerEnds(stem, items[0].index, items[0].para);
      CloseTagAt(r);
    }
  }

  lemma NoDigitNext(stem: string, n: nat, items: seq<Item>)
    requires GoodStem(stem) && GoodItems(stem, n, items)
    requires items == [] || !items[0].Loose? || !StartsWithDigit(items[0].t)
    ensures !StartsWithDigit(Flat(stem, items))
  {
    if items != [] && !items[0].Loose? {
      OpensWell(stem, n, items);
    } else if |items| > 1 {
      OpensWell(stem, n, items[1..]);
    }
  }

  lemma NoCloseNext(stem: string, n: nat, items: seq<Item>)
    requires GoodStem(stem) && GoodItems(stem, n, items)
    requires items == [] || !items[0].Loose? || !("</p>" <= items[0].t)
    ensures !("</p>" <= Flat(stem, items))
  {
    if items != [] && !items[0].Loose? {
      OpensWell(stem, n, items);
    } else if |items| > 1 {
      OpensWell(stem, n, items[1..]);
      NoCloseAcross(items[0].t, Flat(stem, items[1..]));
    } else if items != [] {
      Unit(items[0].t);
    }
  }

  lemma NoCloseAcross(t: string, r: string)
    requires r != "" && (r[0] == 's' || r[0] == '<') && !("</p>" <= r) && !("</p>" <= t)
    ensures !("</p>" <= t + r)
  {
    CloseTagAt(t + r);
    CloseTagAt(t);
    CloseTagAt(r);
  }

  /** Written text put after `acc` makes up no stem and no opening tag with it. */
  ghost predicate Joins(stem: string, acc: string) {
    forall x: string :: !Contains(x, stem)
      ==> !Contains(acc + x, stem) && (EndsWith(acc + x, "<p>") ==> EndsWith(x, "<p>"))
  }

  /** What the view needs of the text gathered before `items`. */
  ghost predicate Gathered(stem: string, items: seq<Item>, acc: string) {
    && !Contains(acc, stem)
    && (items != [] && items[0].Loose? ==> Joins(stem, acc))
    && (items != [] && items[0].Own? && !items[0].para && EndsWith(acc, "<p>") ==> !("</p>" <= Flat(stem, items[1..])))
  }

  lemma NothingGathered(stem: string, items: seq<Item>)
    requires GoodStem(stem)
    ensures Gathered(stem, items, "")
  {
    forall x: string ensures "" + x == x { Unit(x); }
  }

  lemma LooseGathered(stem: string, n: nat, items: seq<Item>, acc: string)
    requires GoodStem(stem) && GoodItems(stem, n, items) && items != [] && items[0].Loose? && Gathered(stem, items, acc)
    ensures Gathered(stem, items[1..], acc + items[0].t)
  {
    var rest := items[1..];
    if rest != [] && rest[0].Own? && !rest[0].para && EndsWith(acc + items[0].t, "<p>") {
      NoCloseNext(stem, n, rest[1..]);
    }
  }

  lemma FixedGathered(stem: string, items: seq<Item>, acc: string, m: string)
    requires GoodStem(stem) && Plug(stem, m) && !Contains(acc, stem)
    ensures Gathered(stem, items, acc + m)
  {
    forall x: string | !Contains(x, stem)
      ensures !Contains(acc + m + x, stem) && (EndsWith(acc + m + x, "<p>") ==> EndsWith(x, "<p>"))
    {
      PlugKeepsFree(stem, acc, m, x);
      PlugEnds(stem, acc, m, x);
    }
    assert !Contains("", stem);
    Unit(acc + m);
  }

  lemma PlugEnds(stem: string, a: string, m: string, x: string)
    requires Plug(stem, m)
    ensures EndsWith(a + m + x, "<p>") ==> EndsWith(x, "<p>")
  {
    var s := a + m + x;
    OpenTagAt(s);
    OpenTagAt(x);
    OpenTagAt(m);
    if |x| < 3 {
      assert |x| > 0 ==> s[|s| - 1 - |x|] == m[|m| - 1];
    }
  }

  /** From good items every word of the family is intact. */
  lemma {:induction false} ViewIsIntact(stem: string, n: nat, items: seq<Item>, acc: string)
    requires GoodStem(stem) && GoodItems(stem, n, items) && Gathered(stem, items, acc)
    ensures Intact(stem, n, View(items, acc))
  {
    if items == [] {
      TextIsIntact(stem, n, acc);
    } else if items[0].Own? {
      NothingGathered(stem, items[1..]);
      ViewIsIntact(stem, n, items[1..], "");
      if !items[0].para { NoDigitNext(stem, n, items[1..]); }
      ViewHolds(stem, [], items[1..], "");
      Unit(Flat(stem, items[1..]));
      WordThenText(stem, n, acc, items[0].index, items[0].para, View(items[1..], ""));
    } else if items[0].Loose? {
      LooseGathered(stem, n, items, acc);
      ViewIsIntact(stem, n, items[1..], acc + items[0].t);
    } else {
      FixedGathered(stem, items[1..], acc, items[0].m);
      ViewIsIntact(stem, n, items[1..], acc + items[0].m);
    }
  }

  lemma WordThenText(stem: string, n: nat, acc: string, k: nat, para: bool, rest: seq<Piece>)
    requires Intact(stem, n, rest) && k < n && !Contains(acc, stem)
    requires para || !StartsWithDigit(Render(stem, rest))
    requires !para && EndsWith(acc, "<p>") ==> !("</p>" <= Render(stem, rest))
    ensures Intact(stem, n, [Text(acc), Word(k, para)] + rest)
  {
    var doc := [Text(acc), Word(k, para)] + rest;
    assert doc[1..] == [Word(k, para)] + rest && doc[1..][1..] == rest == doc[2..];
    assert Intact(stem, n, doc[1..]);
  }

  /** The rendered body, read off its parts: written text between two words holds neither stem,
      each word has its block, no digit runs on after a bare word and none is in truth alone in its
      paragraph. */
  ghost predicate GoodDoc(doc: seq<Part>, v: string, i: string, videos: nat, figures: nat) {
    doc == [] ||
    (GoodDoc(doc[1..], v, i, videos, figures) &&
     match doc[0]
     case Plain(t) => !Contains(t, v) && !Contains(t, i) && (|doc| > 1 ==> !doc[1].Plain?) && !LoneWord(doc)
     case Video(k, para) => k < videos && (para || NoDigitFirst(doc[1..]))
     case Image(k, para) => k < figures && (para || NoDigitFirst(doc[1..])))
  }

  predicate NoDigitFirst(doc: seq<Part>) {
    doc == [] || !doc[0].Plain? || !StartsWithDigit(doc[0].t)
  }

  predicate LoneWord(doc: seq<Part>) {
    && |doc| > 2 && doc[0].Plain? && !doc[1].Plain? && !doc[1].para && doc[2].Plain?
    && EndsWith(doc[0].t, "<p>") && "</p>" <= doc[2].t
  }

  lemma {:induction false} FirstAt(doc: seq<Part>, i: string)
    ensures |First(doc, i)| == |doc| && forall k :: 0 <= k < |doc| ==> First(doc, i)[k] == FirstItem(doc[k], i)
  {
    if doc != [] { FirstAt(doc[1..], i); }
  }

  lemma {:induction false} SecondAt(doc: seq<Part>, videos: seq<string>)
    ensures |Second(doc, videos)| == |doc|
    ensures forall k :: 0 <= k < |doc| ==> Second(doc, videos)[k] == SecondItem(doc[k], videos)
  {
    if doc != [] { SecondAt(doc[1..], videos); }
  }

  lemma {:induction false} FirstIsGood(doc: seq<Part>, v: string, i: string, videos: nat, figures: nat)
    requires GoodStem(v) && GoodStem(i) && |v| > 9 && |i| > 9 && v[9] != i[9]
    requires GoodDoc(doc, v, i, videos, figures)
    ensures GoodItems(v, videos, First(doc, i))
  {
    if doc != [] {
      FirstAt(doc, i);
      FirstIsGood(doc[1..], v, i, videos, figures);
      assert First(doc, i)[1..] == First(doc[1..], i);
      if doc[0].Image? { MarkerIsPlug(v, i, doc[0].index, doc[0].para); }
    }
  }

  lemma {:induction false} SecondIsGood(doc: seq<Part>, v: string, i: string, videos: seq<string>, figures: nat)
    requires GoodStem(i) && GoodBlocks(v, videos) && NoneHolds(videos, i)
    requires GoodDoc(doc, v, i, |videos|, figures)
    ensures GoodItems(i, figures, Second(doc, videos))
  {
    if doc != [] {
      SecondAt(doc, videos);
      SecondIsGood(doc[1..], v, i, videos, figures);
      assert Second(doc, videos)[1..] == Second(doc[1..], videos);
      if doc[0].Video? { BlockIsPlug(i, v, videos[doc[0].index]); }
    }
  }

  ghost predicate NoneHolds(blocks: seq<string>, stem: string) {
    forall k :: 0 <= k < |blocks| ==> !Contains(blocks[k], stem)
  }

  /** The same from the text alone, for any hexadecimal tokens: where what was written holds neither
      stem, no frame holds the figures', no digit runs on after a bare word and none is alone in its
      paragraph, the two restores put everything back. */
  lemma PlainTextIsEnough(doc: seq<Part>, videoToken: string, imageToken: string, videos: seq<string>,
                          figures: seq<string>)
    requires Hexadecimal(videoToken) && Hexadecimal(imageToken)
    requires GoodBlocks(Stem("video", videoToken), videos) && GoodBlocks(Stem("image", imageToken), figures)
    requires NoneHolds(videos, Stem("image", imageToken))
    requires GoodDoc(doc, Stem("video", videoToken), Stem("image", imageToken), |videos|, |figures|)
    ensures var html := Rendered(doc, Stem("video", videoToken), Stem("image", imageToken));
            var first := Restored(html, Holders(videos, videoToken), "video");
            Restored(first, Holders(figures, imageToken), "image") == Restored2(doc, videos, figures)
  {
    var v, i := Stem("video", videoToken), Stem("image", imageToken);
    StemsPart(videoToken, imageToken);
    FirstIsGood(doc, v, i, |videos|, |figures|);
    SecondIsGood(doc, v, i, videos, |figures|);
    NothingGathered(v, First(doc, i));
    NothingGathered(i, Second(doc, videos));
    ViewIsIntact(v, |videos|, First(doc, i), "");
    ViewIsIntact(i, |figures|, Second(doc, videos), "");
    BothRestoresPutBlocksBack(doc, videoToken, imageToken, videos, figures);
  }
}
