/** Stashing a body's directives, and the round trip through markers (app/platform/content.py).

    The directive patterns, the Markdown library and the sanitiser are not modelled: a body
    arrives split into the lines a pattern matched and the text between them, and what the
    renderer does to the stashed text is any document that keeps the marker words intact. */
module Stash {
  import opened Numerals
  import opened Wrappers
  import opened Markers
  import Sets

  // ------------------------------------------------------------------ documents with markers

  /** A rendered document seen as text with marker words in it, `para` ones alone in a
      paragraph. */
  datatype Piece = Text(t: string) | Word(index: nat, para: bool)

  function Render(stem: string, doc: seq<Piece>): string {
    if doc == [] then ""
    else (match doc[0]
          case Text(t) => t
          case Word(i, para) => Pattern(stem, i, para)) + Render(stem, doc[1..])
  }

  function Expand(blocks: seq<string>, doc: seq<Piece>): string {
    if doc == [] then ""
    else (match doc[0]
          case Text(t) => t
          case Word(i, _) => if i < |blocks| then blocks[i] else "") + Expand(blocks, doc[1..])
  }

  predicate StartsWithDigit(s: string) {
    s != "" && IsDigit(s[0])
  }

  predicate EndsWith(s: string, e: string) {
    |e| <= |s| && s[|s| - |e|..] == e
  }

  /** The marker words are intact: text is split only at them and holds no stem, no digit
      runs on after a bare word, and no bare word is in truth alone in its paragraph. */
  ghost predicate Intact(stem: string, n: nat, doc: seq<Piece>) {
    doc == [] ||
    (Intact(stem, n, doc[1..]) &&
     match doc[0]
     case Text(t) =>
       && !Contains(t, stem)
       && (|doc| > 1 ==> doc[1].Word?)
       && (EndsWith(t, "<p>") && |doc| > 1 && !doc[1].para ==> !("</p>" <= Render(stem, doc[2..])))
     case Word(i, para) =>
       i < n && (para || !StartsWithDigit(Render(stem, doc[1..]))))
  }

  lemma WrappedIsLongest(stem: string, w: nat, i: nat, rest: string)
    requires Wrapped(stem, w) <= Wrapped(stem, i) + rest
    ensures w <= i
  {
    var s := Wrapped(stem, i) + rest;
    assert s[3..] == Bare(stem, i) + ("</p>" + rest);
    assert Wrapped(stem, w)[3..] == Bare(stem, w) + "</p>";
    assert Bare(stem, w) <= Bare(stem, w) + "</p>" <= s[3..];
    NumeralsAgree(stem, w, i, "</p>" + rest);
  }

  /** A marker word is read as itself wherever it stands. */
  lemma FindWord(stem: string, n: nat, i: nat, para: bool, rest: string)
    requires GoodStem(stem) && i < n && (para || !StartsWithDigit(rest))
    ensures Find(stem, n, Pattern(stem, i, para) + rest, 0, 0) == Marker(i, |Pattern(stem, i, para)|)
  {
    if para { FindWrappedWord(stem, n, i, rest); } else { FindBareWord(stem, n, i, rest); }
  }

  lemma FindWrappedWord(stem: string, n: nat, i: nat, rest: string)
    requires i < n
    ensures Find(stem, n, Wrapped(stem, i) + rest, 0, 0) == Marker(i, |Wrapped(stem, i)|)
  {
    var s := Wrapped(stem, i) + rest;
    assert Wrapped(stem, i) <= s;
    WrappedIsLongest(stem, WrappedAt(stem, s, 0, n), i, rest);
  }

  lemma FindBareWord(stem: string, n: nat, i: nat, rest: string)
    requires GoodStem(stem) && i < n && !StartsWithDigit(rest)
    ensures Find(stem, n, Bare(stem, i) + rest, 0, 0) == Marker(i, |Bare(stem, i)|)
  {
    var s := Bare(stem, i) + rest;
    assert Bare(stem, i) <= s;
    NoneWrapped(stem, s, 0, n);
    NumeralsAgree(stem, BareAt(stem, s, 0, n), i, rest);
  }

  lemma WordStart(stem: string, doc: seq<Piece>)
    requires GoodStem(stem) && doc != [] && doc[0].Word?
    ensures var r := Render(stem, doc); r != "" && r[0] == if doc[0].para then '<' else 's'
  {
  }

  /** Nothing is found in the text before a marker word. */
  lemma FindInText(stem: string, n: nat, doc: seq<Piece>, j: nat)
    requires GoodStem(stem) && Intact(stem, n, doc) && doc != [] && doc[0].Text? && j < |doc[0].t|
    ensures Find(stem, n, (doc[0].t + Render(stem, doc[1..]))[j..], 0, 0).Miss?
  {
    var s := (doc[0].t + Render(stem, doc[1..]))[j..];
    var w, b := WrappedAt(stem, s, 0, n), BareAt(stem, s, 0, n);
    if b >= 0 { NoBareInText(stem, n, doc, j, b); }
    if w >= 0 { NoWrappedInText(stem, n, doc, j, w); }
  }

  lemma NoBareInText(stem: string, n: nat, doc: seq<Piece>, j: nat, b: nat)
    requires GoodStem(stem) && Intact(stem, n, doc) && doc != [] && doc[0].Text? && j < |doc[0].t|
    ensures !(Bare(stem, b) <= (doc[0].t + Render(stem, doc[1..]))[j..])
  {
    var t, rest := doc[0].t, Render(stem, doc[1..]);
    if |doc| > 1 { WordStart(stem, doc[1..]); }
    if Bare(stem, b) <= (t + rest)[j..] {
      assert stem <= Bare(stem, b) <= (t + rest)[j..];
      StemInText(stem, t, rest, j);
    }
  }

  lemma NoWrappedInText(stem: string, n: nat, doc: seq<Piece>, j: nat, w: nat)
    requires GoodStem(stem) && Intact(stem, n, doc) && doc != [] && doc[0].Text? && j < |doc[0].t|
    ensures !(Wrapped(stem, w) <= (doc[0].t + Render(stem, doc[1..]))[j..])
  {
    var t, rest := doc[0].t, Render(stem, doc[1..]);
    if |doc| > 1 { WordStart(stem, doc[1..]); }
    if Wrapped(stem, w) <= (t + rest)[j..] {
      WrappedAcross(stem, t, rest, j, w);
      LooseWord(stem, n, doc, w);
    }
  }

  /** A wrapped marker can only start in such a text by its paragraph tag closing it. */
  lemma WrappedAcross(stem: string, t: string, rest: string, j: nat, w: nat)
    requires GoodStem(stem) && j < |t| && !Contains(t, stem)
    requires rest != "" ==> rest[0] == 's' || rest[0] == '<'
    requires Wrapped(stem, w) <= (t + rest)[j..]
    ensures EndsWith(t, "<p>") && Bare(stem, w) + "</p>" <= rest
  {
    var s, p := (t + rest)[j..], Wrapped(stem, w);
    var tail := Bare(stem, w) + "</p>";
    assert p == "<p>" + tail;
    if j + 3 > |t| {
      PrefixChar(p, s, |t| - j);
    } else {
      assert (t + rest)[j + 3..] == s[3..];
      assert tail <= s[3..];
      if j + 3 < |t| {
        assert stem <= Bare(stem, w) <= tail;
        StemInText(stem, t, rest, j + 3);
      } else {
        assert s[3..] == rest;
        PrefixInside(t, rest, j, "<p>");
      }
    }
  }

  lemma StemInText(stem: string, t: string, rest: string, j: nat)
    requires GoodStem(stem) && j < |t| && stem <= (t + rest)[j..]
    requires rest != "" ==> rest[0] == 's' || rest[0] == '<'
    ensures Contains(t, stem)
  {
    if j + |stem| <= |t| {
      PrefixInside(t, rest, j, stem);
    } else {
      PrefixChar(stem, (t + rest)[j..], |t| - j);
    }
  }

  lemma LooseWord(stem: string, n: nat, doc: seq<Piece>, w: nat)
    requires GoodStem(stem) && Intact(stem, n, doc) && doc != [] && doc[0].Text?
    requires EndsWith(doc[0].t, "<p>")
    ensures !(Bare(stem, w) + "</p>" <= Render(stem, doc[1..]))
  {
    hide Dec;
    var rest := Render(stem, doc[1..]);
    if Bare(stem, w) + "</p>" <= rest {
      PrefixChar(Bare(stem, w) + "</p>", rest, 0);
      WordStart(stem, doc[1..]);
      var i, after := doc[1].index, Render(stem, doc[1..][1..]);
      assert doc[1..][1..] == doc[2..];
      assert rest == Bare(stem, i) + after;
      var a, c := Dec(w), Dec(i);
      assert a + "</p>" <= c + after by {
        assert rest[|stem|..] == c + after;
        assert (Bare(stem, w) + "</p>")[|stem|..] == a + "</p>";
      }
      if |a| < |c| {
        PrefixChar(a + "</p>", c + after, |a|);
      } else if |a| > |c| {
        PrefixChar(a + "</p>", c + after, |c|);
      } else {
        TailPrefix(a, "</p>", c, after);
      }
    }
  }

  lemma TailPrefix(a: string, x: string, c: string, y: string)
    requires |a| == |c| && a + x <= c + y
    ensures x <= y
  {
    assert (c + y)[|c|..] == y && (a + x)[|a|..] == x;
  }

  /** On a document whose marker words are intact the single pass puts exactly each word's
      own block in its place. */
  lemma {:induction false} OnePassExpands(stem: string, blocks: seq<string>, doc: seq<Piece>)
    requires GoodStem(stem) && Intact(stem, |blocks|, doc)
    ensures OnePass(stem, blocks, Render(stem, doc), 0, 0) == Expand(blocks, doc)
  {
    if doc != [] {
      var rest := Render(stem, doc[1..]);
      OnePassExpands(stem, blocks, doc[1..]);
      match doc[0]
      case Text(t) =>
        forall j | 0 <= j < |t| ensures Find(stem, |blocks|, (t + rest)[j..], 0, 0).Miss? {
          FindInText(stem, |blocks|, doc, j);
        }
        OnePassSkip(stem, blocks, t, rest, 0, 0);
      case Word(i, para) =>
        var p := Pattern(stem, i, para);
        FindWord(stem, |blocks|, i, para, rest);
        assert (p + rest)[|p|..] == rest;
    }
  }

  /** Restore puts every block back where its marker is and changes nothing else, for any
      number of blocks and any document the renderer may have made around the markers. */
  lemma RestorePutsBlocksBack(word: string, token: string, blocks: seq<string>, doc: seq<Piece>)
    requires GoodBlocks(Stem(word, token), blocks) && Intact(Stem(word, token), |blocks|, doc)
    ensures Restored(Render(Stem(word, token), doc), blocks + [token], word) == Expand(blocks, doc)
  {
    RestoreIsSimultaneous(Render(Stem(word, token), doc), blocks, token, word);
    OnePassExpands(Stem(word, token), blocks, doc);
  }

  // ------------------------------------------------------------------ stashing

  /** A body split at the lines one directive pattern matched. */
  datatype Chunk<D> = Prose(text: string) | Directive(raw: string, ask: D)

  datatype ImageAsk = ImageAsk(id: nat, word: PlacementWord)

  /** What becomes of a chunk: kept as written, removed, or shown as a block of markup. */
  datatype Fate = Kept(text: string) | Gone | Shown(block: string)

  /** A marker stands between blank lines, so that Markdown sees a paragraph of its own. */
  const GAP: string := "\n\n"

  const MAX_IMAGES := 50

  datatype Placement = Center | Left | Right | Wide

  /** The word after the id: none, a placement, or a word that is no placement. */
  datatype PlacementWord = Unsaid | Known(placement: Placement) | Unknown

  /** None says the line was never a directive. */
  function PlacementOf(ask: ImageAsk): Option<Placement> {
    match ask.word
    case Unsaid => Some(Center)
    case Known(p) => Some(p)
    case Unknown => None
  }

  /** A library picture, as the figure it becomes in each placement. */
  datatype Upload = Upload(figure: Placement -> string)

  function VideoFate(chunk: Chunk<string>, embed: string -> Option<string>): Fate {
    match chunk
    case Prose(t) => Kept(t)
    case Directive(raw, url) => if embed(url).None? then Kept(raw) else Shown(embed(url).value)
  }

  function VideoFates(chunks: seq<Chunk<string>>, embed: string -> Option<string>): seq<Fate> {
    if chunks == [] then [] else [VideoFate(chunks[0], embed)] + VideoFates(chunks[1..], embed)
  }

  function ImageFate(chunk: Chunk<ImageAsk>, uploads: map<nat, Upload>, used: nat): Fate {
    match chunk
    case Prose(t) => Kept(t)
    case Directive(raw, ask) =>
      if PlacementOf(ask).None? then Kept(raw)
      else if ask.id !in uploads || used >= MAX_IMAGES then Gone
      else Shown(uploads[ask.id].figure(PlacementOf(ask).value))
  }

  function ImageFates(chunks: seq<Chunk<ImageAsk>>, uploads: map<nat, Upload>,
                      used: nat): seq<Fate> {
    if chunks == [] then []
    else
      var fate := ImageFate(chunks[0], uploads, used);
      [fate] + ImageFates(chunks[1..], uploads, used + |BlockOf(fate)|)
  }

  function Emit(fate: Fate, stem: string, i: nat): string {
    match fate
    case Kept(t) => t
    case Gone => ""
    case Shown(_) => GAP + Bare(stem, i) + GAP
  }

  function BlockOf(fate: Fate): seq<string> {
    if fate.Shown? then [fate.block] else []
  }

  /** The stashed text: every shown block a numbered marker between blank lines. */
  function Stashed(fates: seq<Fate>, stem: string, i: nat): string {
    if fates == [] then ""
    else Emit(fates[0], stem, i) + Stashed(fates[1..], stem, i + |BlockOf(fates[0])|)
  }

  function Blocks(fates: seq<Fate>): seq<string> {
    if fates == [] then [] else BlockOf(fates[0]) + Blocks(fates[1..])
  }

  function Placeholders(fates: seq<Fate>, token: string): seq<string> {
    if Blocks(fates) == [] then [] else Blocks(fates) + [token]
  }

  /** The body an author meant: every shown block where its directive stood. */
  function InPlace(fates: seq<Fate>): string {
    if fates == [] then ""
    else (match fates[0]
          case Kept(t) => t
          case Gone => ""
          case Shown(b) => GAP + b + GAP) + InPlace(fates[1..])
  }

  lemma {:induction false} BlocksSnoc(fates: seq<Fate>, fate: Fate)
    ensures Blocks(fates + [fate]) == Blocks(fates) + BlockOf(fate)
  {
    if fates == [] {
      assert [] + [fate] == [fate] && [fate][1..] == [];
      Unit(BlockOf(fate));
    } else {
      assert (fates + [fate])[1..] == fates[1..] + [fate];
      BlocksSnoc(fates[1..], fate);
      Assoc(BlockOf(fates[0]), Blocks(fates[1..]), BlockOf(fate));
    }
  }

  lemma {:induction false} StashedSnoc(fates: seq<Fate>, fate: Fate, stem: string, i: nat)
    ensures Stashed(fates + [fate], stem, i) == Stashed(fates, stem, i) + Emit(fate, stem, i + |Blocks(fates)|)
  {
    hide *;
    if fates == [] {
      StashedOne(fates, fate, stem, i);
    } else {
      StashedSnoc(fates[1..], fate, stem, i + |BlockOf(fates[0])|);
      StashedCons(fates, fate, stem, i);
    }
  }

  lemma StashedOne(fates: seq<Fate>, fate: Fate, stem: string, i: nat)
    requires fates == []
    ensures Stashed(fates + [fate], stem, i) == Stashed(fates, stem, i) + Emit(fate, stem, i + |Blocks(fates)|)
  {
    assert fates + [fate] == [fate] && [fate][1..] == [];
    Unit(Emit(fate, stem, i));
  }

  lemma StashedCons(fates: seq<Fate>, fate: Fate, stem: string, i: nat)
    requires fates != []
    requires var rest, j := fates[1..], i + |BlockOf(fates[0])|;
             Stashed(rest + [fate], stem, j) == Stashed(rest, stem, j) + Emit(fate, stem, j + |Blocks(rest)|)
    ensures Stashed(fates + [fate], stem, i) == Stashed(fates, stem, i) + Emit(fate, stem, i + |Blocks(fates)|)
  {
    hide *;
    StashedStep(fates, stem, i);
    StashedStep(fates + [fate], stem, i);
    var rest, j := fates[1..], i + |BlockOf(fates[0])|;
    assert (fates + [fate])[0] == fates[0] && (fates + [fate])[1..] == rest + [fate];
    Assoc(Emit(fates[0], stem, i), Stashed(rest, stem, j), Emit(fate, stem, j + |Blocks(rest)|));
  }

  lemma StashedStep(fates: seq<Fate>, stem: string, i: nat)
    requires fates != []
    ensures Stashed(fates, stem, i) == Emit(fates[0], stem, i) + Stashed(fates[1..], stem, i + |BlockOf(fates[0])|)
    ensures |Blocks(fates)| == |BlockOf(fates[0])| + |Blocks(fates[1..])|
  {
  }

  lemma Assoc<T>(a: seq<T>, b: seq<T>, c: seq<T>)
    ensures a + (b + c) == (a + b) + c
  {
  }

  lemma Unit<T>(a: seq<T>)
    ensures a + [] == a && [] + a == a
  {
  }

  lemma StashedNext(fates: seq<Fate>, k: nat, stem: string)
    requires k < |fates|
    ensures Blocks(fates[..k + 1]) == Blocks(fates[..k]) + BlockOf(fates[k])
    ensures Stashed(fates[..k + 1], stem, 0)
            == Stashed(fates[..k], stem, 0) + Emit(fates[k], stem, |Blocks(fates[..k])|)
  {
    assert fates[..k + 1] == fates[..k] + [fates[k]];
    BlocksSnoc(fates[..k], fates[k]);
    StashedSnoc(fates[..k], fates[k], stem, 0);
  }

  lemma {:induction false} VideoFatesAt(chunks: seq<Chunk<string>>, embed: string -> Option<string>)
    ensures |VideoFates(chunks, embed)| == |chunks|
    ensures forall k :: 0 <= k < |chunks| ==> VideoFates(chunks, embed)[k] == VideoFate(chunks[k], embed)
  {
    if chunks != [] { VideoFatesAt(chunks[1..], embed); }
  }

  lemma TakeThenDrop<T>(s: seq<T>, k: nat)
    requires 0 < k <= |s|
    ensures s[..k][1..] == s[1..][..k - 1] && s[..k] != [] && s[..k][0] == s[0]
  {
  }

  lemma BlocksTake(fates: seq<Fate>, k: nat)
    requires 0 < k <= |fates|
    ensures Blocks(fates[..k]) == BlockOf(fates[0]) + Blocks(fates[1..][..k - 1])
  {
    TakeThenDrop(fates, k);
  }

  lemma {:induction false} ImageFatesAt(chunks: seq<Chunk<ImageAsk>>, uploads: map<nat, Upload>, used: nat, k: nat)
    requires k < |chunks|
    ensures var fates := ImageFates(chunks, uploads, used);
            && |fates| == |chunks|
            && fates[k] == ImageFate(chunks[k], uploads, used + |Blocks(fates[..k])|)
  {
    hide ImageFate;
    var fates := ImageFates(chunks, uploads, used);
    ImageFatesLength(chunks, uploads, used);
    if k > 0 {
      var next := used + |BlockOf(fates[0])|;
      ImageFatesAt(chunks[1..], uploads, next, k - 1);
      assert fates[1..] == ImageFates(chunks[1..], uploads, next);
      BlocksTake(fates, k);
    }
  }

  lemma {:induction false} ImageFatesLength(chunks: seq<Chunk<ImageAsk>>, uploads: map<nat, Upload>, used: nat)
    ensures |ImageFates(chunks, uploads, used)| == |chunks|
  {
    if chunks != [] {
      ImageFatesLength(chunks[1..], uploads, used + |BlockOf(ImageFate(chunks[0], uploads, used))|);
    }
  }

  /** The substitution callback: appends to the placeholders and answers the marker. */
  method SwapVideo(chunk: Chunk<string>, embed: string -> Option<string>, stem: string, blocks: seq<string>)
    returns (text: string, placeholders: seq<string>)
    ensures text == Emit(VideoFate(chunk, embed), stem, |blocks|)
    ensures placeholders == blocks + BlockOf(VideoFate(chunk, embed))
  {
    placeholders := blocks;
    match chunk {
      case Prose(t) => text := t;
      case Directive(raw, url) =>
        var src := embed(url);
        if src.None? {
          text := raw;
        } else {
          placeholders := placeholders + [src.value];
          text := GAP + Bare(stem, |placeholders| - 1) + GAP;
        }
    }
  }

  method StashVideos(chunks: seq<Chunk<string>>, embed: string -> Option<string>, token: string)
    returns (swapped: string, placeholders: seq<string>)
    ensures swapped == Stashed(VideoFates(chunks, embed), Stem("video", token), 0)
    ensures placeholders == Placeholders(VideoFates(chunks, embed), token)
  {
    swapped, placeholders := SwapVideos(chunks, embed, Stem("video", token));
    if |placeholders| > 0 {
      placeholders := placeholders + [token];
    }
  }

  method SwapVideos(chunks: seq<Chunk<string>>, embed: string -> Option<string>, stem: string)
    returns (swapped: string, blocks: seq<string>)
    ensures swapped == Stashed(VideoFates(chunks, embed), stem, 0) && blocks == Blocks(VideoFates(chunks, embed))
  {
    swapped, blocks := "", [];
    ghost var fates := VideoFates(chunks, embed);
    VideoFatesAt(chunks, embed);
    var k := 0;
    while k < |chunks|
      invariant 0 <= k <= |chunks|
      invariant swapped == Stashed(fates[..k], stem, 0) && blocks == Blocks(fates[..k])
    {
      StashedNext(fates, k, stem);
      var text;
      text, blocks := SwapVideo(chunks[k], embed, stem, blocks);
      swapped := swapped + text;
      k := k + 1;
    }
    assert fates[..k] == fates;
  }

  /** The files the chunks ask for, in placements that are known. */
  function Asked(chunks: seq<Chunk<ImageAsk>>): set<nat> {
    if chunks == [] then {}
    else
      var last := chunks[|chunks| - 1];
      Asked(chunks[..|chunks| - 1]) + if last.Directive? && PlacementOf(last.ask).Some? then {last.ask.id} else {}
  }

  /** The first fifty distinct files asked for: everything some prefix asks for, cut short
      only at fifty. */
  ghost predicate FirstAsked(chunks: seq<Chunk<ImageAsk>>, wanted: set<nat>) {
    |wanted| <= MAX_IMAGES &&
    exists k :: 0 <= k <= |chunks| && wanted == Asked(chunks[..k]) && (k < |chunks| ==> |wanted| == MAX_IMAGES)
  }

  method WantedIds(chunks: seq<Chunk<ImageAsk>>) returns (wanted: set<nat>)
    ensures FirstAsked(chunks, wanted)
  {
    wanted := {};
    var k := 0;
    while k < |chunks|
      invariant 0 <= k <= |chunks|
      invariant wanted == Asked(chunks[..k]) && |wanted| < MAX_IMAGES
    {
      assert chunks[..k + 1][..k] == chunks[..k];
      var chunk := chunks[k];
      k := k + 1;
      if chunk.Directive? && PlacementOf(chunk.ask).Some? {
        wanted := wanted + {chunk.ask.id};
        if |wanted| >= MAX_IMAGES { break; }
      }
    }
  }

  /** Of these files, the pictures in the library this reader may be shown. */
  function ReadableImages(library: map<nat, Upload>, ids: set<nat>): map<nat, Upload> {
    map id | id in ids && id in library :: library[id]
  }

  method SwapImage(chunk: Chunk<ImageAsk>, uploads: map<nat, Upload>, stem: string, blocks: seq<string>)
    returns (text: string, placeholders: seq<string>)
    ensures text == Emit(ImageFate(chunk, uploads, |blocks|), stem, |blocks|)
    ensures placeholders == blocks + BlockOf(ImageFate(chunk, uploads, |blocks|))
  {
    placeholders := blocks;
    match chunk {
      case Prose(t) => text := t;
      case Directive(raw, ask) =>
        var placement := PlacementOf(ask);
        if placement.None? {
          text := raw;
        } else if ask.id !in uploads || |placeholders| >= MAX_IMAGES {
          text := "";
        } else {
          placeholders := placeholders + [uploads[ask.id].figure(placement.value)];
          text := GAP + Bare(stem, |placeholders| - 1) + GAP;
        }
    }
  }

  lemma NextImage(chunks: seq<Chunk<ImageAsk>>, uploads: map<nat, Upload>, k: nat, stem: string)
    requires k < |chunks|
    ensures var fates := ImageFates(chunks, uploads, 0);
            && |fates| == |chunks|
            && var fate, used := ImageFate(chunks[k], uploads, |Blocks(fates[..k])|), |Blocks(fates[..k])|;
            && Blocks(fates[..k + 1]) == Blocks(fates[..k]) + BlockOf(fate)
            && Stashed(fates[..k + 1], stem, 0) == Stashed(fates[..k], stem, 0) + Emit(fate, stem, used)
  {
    hide *;
    ImageFatesAt(chunks, uploads, 0, k);
    StashedNext(ImageFates(chunks, uploads, 0), k, stem);
  }

  method SwapImages(chunks: seq<Chunk<ImageAsk>>, uploads: map<nat, Upload>, stem: string)
    returns (swapped: string, blocks: seq<string>)
    ensures var fates := ImageFates(chunks, uploads, 0);
            swapped == Stashed(fates, stem, 0) && blocks == Blocks(fates)
  {
    swapped, blocks := "", [];
    ghost var fates := ImageFates(chunks, uploads, 0);
    ImageFatesLength(chunks, uploads, 0);
    var k := 0;
    while k < |chunks|
      invariant 0 <= k <= |chunks|
      invariant swapped == Stashed(fates[..k], stem, 0) && blocks == Blocks(fates[..k])
    {
      NextImage(chunks, uploads, k, stem);
      var text;
      text, blocks := SwapImage(chunks[k], uploads, stem, blocks);
      swapped := swapped + text;
      k := k + 1;
    }
    assert fates[..k] == fates;
  }

  /** Two passes: the ids are read first so that their files are fetched in one query. */
  method StashImages(chunks: seq<Chunk<ImageAsk>>, library: map<nat, Upload>, token: string)
    returns (swapped: string, placeholders: seq<string>, wanted: set<nat>)
    ensures FirstAsked(chunks, wanted)
    ensures var fates := ImageFates(chunks, ReadableImages(library, wanted), 0);
            swapped == Stashed(fates, Stem("image", token), 0) && placeholders == Placeholders(fates, token)
  {
    wanted := WantedIds(chunks);
    swapped, placeholders := SwapImages(chunks, ReadableImages(library, wanted), Stem("image", token));
    if |placeholders| > 0 {
      placeholders := placeholders + [token];
    }
  }

  // ------------------------------------------------------------------ the round trip

  /** The stashed text as a document, `acc` being text not yet closed off by a marker. */
  ghost function Doc(fates: seq<Fate>, acc: string, i: nat): seq<Piece> {
    if fates == [] then [Text(acc)]
    else match fates[0]
      case Kept(t) => Doc(fates[1..], acc + t, i)
      case Gone => Doc(fates[1..], acc, i)
      case Shown(_) => [Text(acc + GAP), Word(i, false)] + Doc(fates[1..], GAP, i + 1)
  }

  ghost predicate StemFree(stem: string, doc: seq<Piece>) {
    forall p :: p in doc && p.Text? ==> !Contains(p.t, stem)
  }

  /** The token is not in what the author wrote. */
  ghost predicate Fresh(stem: string, fates: seq<Fate>) {
    StemFree(stem, Doc(fates, "", 0))
  }

  lemma DocTwo(stem: string, blocks: seq<string>, t: string, i: nat, rest: seq<Piece>)
    ensures var doc := [Text(t), Word(i, false)] + rest;
            && Render(stem, doc) == t + (Bare(stem, i) + Render(stem, rest))
            && (i < |blocks| ==> Expand(blocks, doc) == t + (blocks[i] + Expand(blocks, rest)))
  {
    var doc := [Text(t), Word(i, false)] + rest;
    assert doc[1..] == [Word(i, false)] + rest && doc[1..][1..] == rest;
  }

  lemma Regroup(acc: string, gap: string, b: string, r: string)
    ensures (acc + gap) + (b + (gap + r)) == acc + ((gap + b + gap) + r)
  {
  }

  lemma NextBlock(blocks: seq<string>, i: nat, b: string, rest: seq<string>)
    requires i <= |blocks| && blocks[i..] == [b] + rest
    ensures i < |blocks| && blocks[i] == b && blocks[i + 1..] == rest
  {
    assert |blocks[i..]| == 1 + |rest|;
    assert blocks[i] == blocks[i..][0];
    assert blocks[i + 1..] == blocks[i..][1..];
  }

  /** A chunk that is no block adds its text and takes no number. */
  lemma NoBlockHere(fates: seq<Fate>, stem: string, i: nat)
    requires fates != [] && !fates[0].Shown?
    ensures Blocks(fates) == Blocks(fates[1..])
    ensures var t := if fates[0].Kept? then fates[0].text else "";
            Stashed(fates, stem, i) == t + Stashed(fates[1..], stem, i) && InPlace(fates) == t + InPlace(fates[1..])
  {
    Unit(Blocks(fates[1..]));
  }

  lemma {:induction false} DocRenders(stem: string, fates: seq<Fate>, acc: string, i: nat)
    ensures Render(stem, Doc(fates, acc, i)) == acc + Stashed(fates, stem, i)
  {
    if fates == [] {
      RenderText(stem, acc);
    } else if fates[0].Shown? {
      DocRenders(stem, fates[1..], GAP, i + 1);
      DocRendersWord(stem, fates, acc, i);
    } else {
      var t := if fates[0].Kept? then fates[0].text else "";
      NoBlockHere(fates, stem, i);
      Unit(acc);
      DocRenders(stem, fates[1..], acc + t, i);
      Assoc(acc, t, Stashed(fates[1..], stem, i));
    }
  }

  lemma RenderText(stem: string, acc: string)
    ensures Render(stem, [Text(acc)]) == acc + Stashed([], stem, 0)
  {
    assert Render(stem, [Text(acc)]) == acc + Render(stem, []);
  }

  lemma DocRendersWord(stem: string, fates: seq<Fate>, acc: string, i: nat)
    requires fates != [] && fates[0].Shown?
    requires Render(stem, Doc(fates[1..], GAP, i + 1)) == GAP + Stashed(fates[1..], stem, i + 1)
    ensures Render(stem, Doc(fates, acc, i)) == acc + Stashed(fates, stem, i)
  {
    DocTwo(stem, [], acc + GAP, i, Doc(fates[1..], GAP, i + 1));
    Regroup(acc, GAP, Bare(stem, i), Stashed(fates[1..], stem, i + 1));
  }

  lemma {:induction false} DocExpands(blocks: seq<string>, fates: seq<Fate>, acc: string, i: nat)
    requires i <= |blocks| && blocks[i..] == Blocks(fates)
    ensures Expand(blocks, Doc(fates, acc, i)) == acc + InPlace(fates)
  {
    if fates == [] {
      assert Expand(blocks, [Text(acc)]) == acc + Expand(blocks, []);
    } else if fates[0].Shown? {
      NextBlock(blocks, i, fates[0].block, Blocks(fates[1..]));
      DocExpands(blocks, fates[1..], GAP, i + 1);
      DocExpandsWord(blocks, fates, acc, i);
    } else {
      var t := if fates[0].Kept? then fates[0].text else "";
      NoBlockHere(fates, "", i);
      Unit(acc);
      DocExpands(blocks, fates[1..], acc + t, i);
      Assoc(acc, t, InPlace(fates[1..]));
    }
  }

  lemma DocExpandsWord(blocks: seq<string>, fates: seq<Fate>, acc: string, i: nat)
    requires fates != [] && fates[0].Shown? && i < |blocks| && blocks[i] == fates[0].block
    requires Expand(blocks, Doc(fates[1..], GAP, i + 1)) == GAP + InPlace(fates[1..])
    ensures Expand(blocks, Doc(fates, acc, i)) == acc + InPlace(fates)
  {
    DocTwo("", blocks, acc + GAP, i, Doc(fates[1..], GAP, i + 1));
    Regroup(acc, GAP, blocks[i], InPlace(fates[1..]));
  }

  lemma {:induction false} DocIsIntact(stem: string, fates: seq<Fate>, acc: string, i: nat, n: nat)
    requires i + |Blocks(fates)| <= n && StemFree(stem, Doc(fates, acc, i))
    ensures Intact(stem, n, Doc(fates, acc, i))
  {
    hide Intact, StemFree, Render, Stashed;
    if fates == [] {
      TextIsIntact(stem, n, acc);
    } else if fates[0].Shown? {
      DocHolds(stem, fates, acc, i);
      DocIsIntact(stem, fates[1..], GAP, i + 1, n);
      DocRenders(stem, fates[1..], GAP, i + 1);
      IntactTwo(stem, n, acc, i, Doc(fates[1..], GAP, i + 1), Stashed(fates[1..], stem, i + 1));
    } else {
      Unit(Blocks(fates[1..]));
      DocIsIntact(stem, fates[1..], if fates[0].Kept? then acc + fates[0].text else acc, i, n);
    }
  }

  lemma TextIsIntact(stem: string, n: nat, t: string)
    requires StemFree(stem, [Text(t)])
    ensures Intact(stem, n, [Text(t)])
  {
    assert Text(t) in [Text(t)];
    assert [Text(t)][1..] == [];
  }

  lemma DocHolds(stem: string, fates: seq<Fate>, acc: string, i: nat)
    requires fates != [] && fates[0].Shown? && StemFree(stem, Doc(fates, acc, i))
    ensures !Contains(acc + GAP, stem) && StemFree(stem, Doc(fates[1..], GAP, i + 1))
  {
    var rest := Doc(fates[1..], GAP, i + 1);
    var doc := [Text(acc + GAP), Word(i, false)] + rest;
    assert doc == Doc(fates, acc, i) && doc[0] in doc;
    forall p | p in rest ensures p in doc {
      var j :| 0 <= j < |rest| && rest[j] == p;
      assert doc[j + 2] == p;
    }
  }

  lemma IntactTwo(stem: string, n: nat, acc: string, i: nat, rest: seq<Piece>, tail: string)
    requires Intact(stem, n, rest) && i < n && !Contains(acc + GAP, stem)
    requires Render(stem, rest) == GAP + tail
    ensures Intact(stem, n, [Text(acc + GAP), Word(i, false)] + rest)
  {
    var doc := [Text(acc + GAP), Word(i, false)] + rest;
    assert doc[1..] == [Word(i, false)] + rest && doc[1..][1..] == rest;
    assert Render(stem, rest)[0] == '\n';
    assert Intact(stem, n, doc[1..]);
    var t := acc + GAP;
    assert t[|t| - 1] == '\n';
    assert |t| >= 3 ==> t[|t| - 3..][2] == '\n';
  }

  lemma NoBlocks(html: string, token: string, word: string)
    ensures Restored(html, [] + [token], word) == html
  {
    assert [] + [token] == [token] && [token][..0] == [];
  }

  /** Stash then restore: whatever the body and however many directives it has, each honoured
      directive ends as its own block where it stood and the rest of the text is untouched. */
  lemma StashThenRestore(fates: seq<Fate>, word: string, token: string)
    requires GoodBlocks(Stem(word, token), Blocks(fates)) && Fresh(Stem(word, token), fates)
    ensures Restored(Stashed(fates, Stem(word, token), 0), Placeholders(fates, token), word) == InPlace(fates)
  {
    var stem, blocks, doc := Stem(word, token), Blocks(fates), Doc(fates, "", 0);
    DocRenders(stem, fates, "", 0);
    DocExpands(blocks, fates, "", 0);
    DocIsIntact(stem, fates, "", 0, |blocks|);
    assert "" + Stashed(fates, stem, 0) == Stashed(fates, stem, 0) && "" + InPlace(fates) == InPlace(fates);
    RestorePutsBlocksBack(word, token, blocks, doc);
    if blocks == [] { NoBlocks(Render(stem, doc), token, word); }
  }

  // ------------------------------------------------------------------ what becomes of a directive

  /** A picture that can be shown is shown in the placement asked for, centred where none is; a word
      that is no placement leaves the line as typed, and a missing file takes it away. */
  lemma DirectiveMeans(raw: string, id: nat, p: Placement, uploads: map<nat, Upload>, used: nat)
    ensures used < 50 && id in uploads ==>
              && ImageFate(Directive(raw, ImageAsk(id, Known(p))), uploads, used) == Shown(uploads[id].figure(p))
              && ImageFate(Directive(raw, ImageAsk(id, Unsaid)), uploads, used) == Shown(uploads[id].figure(Center))
    ensures used >= 50 || id !in uploads ==>
              && ImageFate(Directive(raw, ImageAsk(id, Known(p))), uploads, used) == Gone
              && ImageFate(Directive(raw, ImageAsk(id, Unsaid)), uploads, used) == Gone
    ensures ImageFate(Directive(raw, ImageAsk(id, Unknown)), uploads, used) == Kept(raw)
    ensures ImageFate(Prose(raw), uploads, used) == Kept(raw)
  {
  }

  /** A link that is recognised becomes its frame, and any other stays as typed. */
  lemma VideoMeans(raw: string, url: string, embed: string -> Option<string>)
    ensures embed(url).Some? ==> VideoFate(Directive(raw, url), embed) == Shown(embed(url).value)
    ensures embed(url).None? ==> VideoFate(Directive(raw, url), embed) == Kept(raw)
    ensures VideoFate(Prose(raw), embed) == Kept(raw)
  {
  }

  /** How many directives of the body ask for a picture that can be shown. */
  function Showable(chunks: seq<Chunk<ImageAsk>>, uploads: map<nat, Upload>): nat {
    if chunks == [] then 0
    else (if chunks[0].Directive? && !chunks[0].ask.word.Unknown? && chunks[0].ask.id in uploads then 1 else 0)
         + Showable(chunks[1..], uploads)
  }

  /** The first fifty of them are shown and no more. */
  lemma {:induction false} ShowsFifty(chunks: seq<Chunk<ImageAsk>>, uploads: map<nat, Upload>, used: nat)
    requires used <= 50
    ensures var room, n := 50 - used, Showable(chunks, uploads);
            |Blocks(ImageFates(chunks, uploads, used))| == if n <= room then n else room
  {
    if chunks != [] {
      ShowsFifty(chunks[1..], uploads, used + |BlockOf(ImageFate(chunks[0], uploads, used))|);
    }
  }

  // ------------------------------------------------------------------ the prefetch cut

  lemma {:induction false} AskedGrows(chunks: seq<Chunk<ImageAsk>>, k: nat, m: nat)
    requires k <= m <= |chunks|
    ensures Asked(chunks[..k]) <= Asked(chunks[..m])
    decreases m
  {
    if k < m {
      assert chunks[..m][..m - 1] == chunks[..m - 1];
      AskedGrows(chunks, k, m - 1);
    }
  }

  /** The cut changes what becomes of no chunk: an id past it is asked for only when fifty
      pictures are already shown. */
  lemma CutChangesNoFate(chunks: seq<Chunk<ImageAsk>>, end: nat, library: map<nat, Upload>, k: nat, used: nat)
    requires end <= |chunks| && (end < |chunks| ==> |Asked(chunks[..end])| == MAX_IMAGES)
    requires k < |chunks| && Asked(chunks[..end]) <= library.Keys
    requires used >= MAX_IMAGES || |Asked(chunks[..k])| <= used
    ensures var wanted := Asked(chunks[..end]);
            var now := ImageFate(chunks[k], ReadableImages(library, wanted), used);
            && now == ImageFate(chunks[k], library, used)
            && (used >= MAX_IMAGES || |Asked(chunks[..k + 1])| <= used + |BlockOf(now)|)
  {
    assert chunks[..k + 1][..k] == chunks[..k];
    if used < MAX_IMAGES {
      if k < end {
        AskedGrows(chunks, k + 1, end);
      } else {
        AskedGrows(chunks, end, k);
        Sets.SubsetIsSmaller(Asked(chunks[..end]), Asked(chunks[..k]));
      }
    }
  }

  lemma ImageStep(chunks: seq<Chunk<ImageAsk>>, k: nat, uploads: map<nat, Upload>, used: nat)
    requires k < |chunks|
    ensures ImageFates(chunks[k..], uploads, used)
         == [ImageFate(chunks[k], uploads, used)]
            + ImageFates(chunks[k + 1..], uploads, used + |BlockOf(ImageFate(chunks[k], uploads, used))|)
  {
    assert chunks[k..][1..] == chunks[k + 1..];
  }

  lemma SameFates(chunks: seq<Chunk<ImageAsk>>, k: nat, few: map<nat, Upload>, all: map<nat, Upload>, used: nat)
    requires k < |chunks| && ImageFate(chunks[k], few, used) == ImageFate(chunks[k], all, used)
    requires SameFrom(chunks, k + 1, few, all, used + |BlockOf(ImageFate(chunks[k], few, used))|)
    ensures SameFrom(chunks, k, few, all, used)
  {
    ImageStep(chunks, k, few, used);
    ImageStep(chunks, k, all, used);
  }

  lemma SameAtEnd(chunks: seq<Chunk<ImageAsk>>, few: map<nat, Upload>, all: map<nat, Upload>, used: nat)
    ensures SameFrom(chunks, |chunks|, few, all, used)
  {
  }

  lemma {:induction false} CutFrom(chunks: seq<Chunk<ImageAsk>>, end: nat, library: map<nat, Upload>, k: nat, used: nat)
    requires end <= |chunks| && (end < |chunks| ==> |Asked(chunks[..end])| == MAX_IMAGES)
    requires k <= |chunks| && Asked(chunks[..end]) <= library.Keys
    requires used >= MAX_IMAGES || |Asked(chunks[..k])| <= used
    ensures SameFrom(chunks, k, ReadableImages(library, Asked(chunks[..end])), library, used)
    decreases |chunks| - k
  {
    hide *;
    var few := ReadableImages(library, Asked(chunks[..end]));
    if k < |chunks| {
      CutChangesNoFate(chunks, end, library, k, used);
      CutFrom(chunks, end, library, k + 1, used + |BlockOf(ImageFate(chunks[k], few, used))|);
      SameFates(chunks, k, few, library, used);
    } else {
      SameAtEnd(chunks, few, library, used);
    }
  }

  ghost predicate SameFrom(chunks: seq<Chunk<ImageAsk>>, k: nat, few: map<nat, Upload>,
                           all: map<nat, Upload>, used: nat)
    requires k <= |chunks|
  {
    ImageFates(chunks[k..], few, used) == ImageFates(chunks[k..], all, used)
  }

  /** Fetching only the first fifty files asked for shows exactly what fetching all of them
      would, provided every one of those fifty can be shown. */
  lemma CutIsInvisible(chunks: seq<Chunk<ImageAsk>>, wanted: set<nat>, library: map<nat, Upload>)
    requires FirstAsked(chunks, wanted) && wanted <= library.Keys
    ensures ImageFates(chunks, ReadableImages(library, wanted), 0)
         == ImageFates(chunks, library, 0)
  {
    assert chunks[0..] == chunks;
    var end :| 0 <= end <= |chunks| && wanted == Asked(chunks[..end]) && (end < |chunks| ==> |wanted| == MAX_IMAGES);
    CutFrom(chunks, end, library, 0, 0);
    assert SameFrom(chunks, 0, ReadableImages(library, wanted), library, 0);
  }

  /** At the k-th chunk a picture that can be shown is asked for, its file was not fetched, and
      there is still room. */
  predicate Missed(chunks: seq<Chunk<ImageAsk>>, wanted: set<nat>, library: map<nat, Upload>, k: nat)
    requires |ImageFates(chunks, library, 0)| == |chunks|
  {
    && k < |chunks| && chunks[k].Directive? && PlacementOf(chunks[k].ask).Some?
    && chunks[k].ask.id in library && chunks[k].ask.id !in wanted
    && |Blocks(ImageFates(chunks, library, 0)[..k])| < MAX_IMAGES
  }

  /** When a cut shows: exactly when some picture is reached before fifty are shown whose file was
      not fetched although it can be shown. */
  lemma CutShowsExactly(chunks: seq<Chunk<ImageAsk>>, wanted: set<nat>, library: map<nat, Upload>)
    ensures |ImageFates(chunks, library, 0)| == |chunks|
    ensures ImageFates(chunks, ReadableImages(library, wanted), 0) != ImageFates(chunks, library, 0)
       <==> exists k :: Missed(chunks, wanted, library, k)
  {
    ImageFatesLength(chunks, library, 0);
    if k :| Missed(chunks, wanted, library, k) {
      MissedShows(chunks, wanted, library, k);
    } else {
      assert ImageFates(chunks, library, 0)[..0] == [] && chunks[0..] == chunks;
      NoneMissedFrom(chunks, wanted, library, 0);
    }
  }

  lemma MissedShows(chunks: seq<Chunk<ImageAsk>>, wanted: set<nat>, library: map<nat, Upload>, k: nat)
    requires |ImageFates(chunks, library, 0)| == |chunks| && Missed(chunks, wanted, library, k)
    ensures ImageFates(chunks, ReadableImages(library, wanted), 0) != ImageFates(chunks, library, 0)
  {
    ImageFatesAt(chunks, ReadableImages(library, wanted), 0, k);
    ImageFatesAt(chunks, library, 0, k);
    assert ImageFates(chunks, ReadableImages(library, wanted), 0)[k].Gone? && ImageFates(chunks, library, 0)[k].Shown?;
  }

  lemma {:induction false} NoneMissedFrom(chunks: seq<Chunk<ImageAsk>>, wanted: set<nat>,
                                          library: map<nat, Upload>, k: nat)
    requires |ImageFates(chunks, library, 0)| == |chunks| && k <= |chunks|
    requires forall i: nat :: i < |chunks| ==> !Missed(chunks, wanted, library, i)
    ensures SameFrom(chunks, k, ReadableImages(library, wanted), library, |Blocks(ImageFates(chunks, library, 0)[..k])|)
    decreases |chunks| - k
  {
    if k < |chunks| {
      NoneMissedFrom(chunks, wanted, library, k + 1);
      assert !Missed(chunks, wanted, library, k);
      NotMissedIsSame(chunks, wanted, library, k);
      SameFates(chunks, k, ReadableImages(library, wanted), library, |Blocks(ImageFates(chunks, library, 0)[..k])|);
    }
  }

  lemma NotMissedIsSame(chunks: seq<Chunk<ImageAsk>>, wanted: set<nat>, library: map<nat, Upload>, k: nat)
    requires |ImageFates(chunks, library, 0)| == |chunks| && k < |chunks| && !Missed(chunks, wanted, library, k)
    ensures var fates := ImageFates(chunks, library, 0);
            var used := |Blocks(fates[..k])|;
            && ImageFate(chunks[k], ReadableImages(library, wanted), used) == ImageFate(chunks[k], library, used)
            && |Blocks(fates[..k + 1])| == used + |BlockOf(ImageFate(chunks[k], library, used))|
  {
    var fates := ImageFates(chunks, library, 0);
    ImageFatesAt(chunks, library, 0, k);
    assert fates[..k + 1] == fates[..k] + [fates[k]];
    BlocksSnoc(fates[..k], fates[k]);
  }
}
