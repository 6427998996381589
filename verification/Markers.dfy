/** The body renderer's stash and restore of block markers (app/platform/content.py).

    A directive is swapped for a numbered marker word before the Markdown runs and the
    markup built for it is put back afterwards by sequential string replacement, highest
    index first. The reference here is one left-to-right pass over the text. */
module Markers {
  import opened Numerals

  // ------------------------------------------------------------------ text primitives

  /** `str.replace` for a non-empty pattern: leftmost, non-overlapping. */
  function Replace(s: string, p: string, r: string): string
    requires p != ""
    decreases |s|
  {
    if s == "" then ""
    else if p <= s then r + Replace(s[|p|..], p, r)
    else [s[0]] + Replace(s[1..], p, r)
  }

  ghost predicate OccursAt(p: string, s: string, j: nat) {
    j + |p| <= |s| && s[j..j + |p|] == p
  }

  ghost predicate Contains(s: string, p: string) {
    exists j: nat :: OccursAt(p, s, j)
  }

  // ------------------------------------------------------------------ markers

  /** Everything of a marker but its number. */
  function Stem(word: string, token: string): string {
    "supremely" + word + token
  }

  function Bare(stem: string, i: nat): string {
    stem + Dec(i)
  }

  /** Markdown wraps a lone marker in a paragraph. */
  function Wrapped(stem: string, i: nat): string {
    "<p>" + Bare(stem, i) + "</p>"
  }

  function RestoreDown(html: string, blocks: seq<string>, stem: string, k: nat): string
    requires k <= |blocks|
    decreases |blocks| - k
  {
    if k == |blocks| then html
    else
      var h := RestoreDown(html, blocks, stem, k + 1);
      Replace(Replace(h, Wrapped(stem, k), blocks[k]), Bare(stem, k), blocks[k])
  }

  function Restored(html: string, placeholders: seq<string>, word: string): string {
    if placeholders == [] then html
    else
      var n := |placeholders| - 1;
      RestoreDown(html, placeholders[..n], Stem(word, placeholders[n]), 0)
  }

  /** The source's loop: the tail entry of `placeholders` is the token. */
  method RestoreBlocks(html: string, placeholders: seq<string>, word: string) returns (out: string)
    ensures out == Restored(html, placeholders, word)
  {
    out := html;
    if |placeholders| == 0 { return; }
    var blocks := placeholders[..|placeholders| - 1];
    var token := placeholders[|placeholders| - 1];
    var index := |blocks| - 1;
    while index > -1
      invariant -1 <= index < |blocks|
      invariant out == RestoreDown(html, blocks, Stem(word, token), index + 1)
    {
      var marker, block := Bare(Stem(word, token), index), blocks[index];
      out := Replace(Replace(out, "<p>" + marker + "</p>", block), marker, block);
      index := index - 1;
    }
  }

  // ------------------------------------------------------------------ what a restore is for

  /** The stem never overlaps itself and holds no markup: `s` opens it and is nowhere else in
      it, which is true of "supremely", of both words and of a hexadecimal token. */
  predicate GoodStem(stem: string) {
    && |stem| > 0 && stem[0] == 's'
    && forall k :: 1 <= k < |stem| ==> stem[k] != 's' && stem[k] != '<' && stem[k] != '>'
  }

  /** Markup this application built: an element, not a bare paragraph tag, holding no marker. */
  ghost predicate GoodBlock(stem: string, b: string) {
    && |b| > 0 && b[0] == '<' && b[|b| - 1] == '>'
    && !("</p>" <= b)
    && !(|b| >= 3 && b[|b| - 3..] == "<p>")
    && !Contains(b, stem)
  }

  ghost predicate GoodBlocks(stem: string, blocks: seq<string>) {
    GoodStem(stem) && forall i :: 0 <= i < |blocks| ==> GoodBlock(stem, blocks[i])
  }

  /** The largest index in [lo, hi) whose wrapped marker opens `s`, or -1. */
  function WrappedAt(stem: string, s: string, lo: nat, hi: nat): (r: int)
    ensures r == -1 || lo <= r < hi
    ensures r >= 0 ==> Wrapped(stem, r) <= s
    ensures forall i :: lo <= i < hi && i > r ==> !(Wrapped(stem, i) <= s)
  {
    if hi <= lo then -1 else if Wrapped(stem, hi - 1) <= s then hi - 1 else WrappedAt(stem, s, lo, hi - 1)
  }

  function BareAt(stem: string, s: string, lo: nat, hi: nat): (r: int)
    ensures r == -1 || lo <= r < hi
    ensures r >= 0 ==> Bare(stem, r) <= s
    ensures forall i :: lo <= i < hi && i > r ==> !(Bare(stem, i) <= s)
  {
    if hi <= lo then -1 else if Bare(stem, hi - 1) <= s then hi - 1 else BareAt(stem, s, lo, hi - 1)
  }

  datatype Found = Miss | Marker(index: nat, length: nat)

  /** The marker opening `s`, read as long as it can be: wrapped ones of index at least `kw`
      and bare ones of index at least `kb` are live, out of `n`. */
  function Find(stem: string, n: nat, s: string, kw: nat, kb: nat): (f: Found)
    ensures f.Marker? ==> f.index < n && 0 < f.length <= |s|
  {
    var w, b := WrappedAt(stem, s, kw, n), BareAt(stem, s, kb, n);
    if w >= 0 then Marker(w, |Wrapped(stem, w)|)
    else if b >= 0 then Marker(b, |Bare(stem, b)|)
    else Miss
  }

  /** Every live marker swapped for its own block in one left-to-right pass that never looks
      at what it wrote. */
  function OnePass(stem: string, blocks: seq<string>, s: string, kw: nat, kb: nat): string
    decreases |s|
  {
    if s == "" then "" else
    match Find(stem, |blocks|, s, kw, kb)
    case Marker(i, m) => blocks[i] + OnePass(stem, blocks, s[m..], kw, kb)
    case Miss => [s[0]] + OnePass(stem, blocks, s[1..], kw, kb)
  }

  // ------------------------------------------------------------------ lemmas

  lemma {:induction false} ReplaceSkip(u: string, t: string, p: string, r: string)
    requires p != ""
    requires forall j :: 0 <= j < |u| ==> !(p <= (u + t)[j..])
    ensures Replace(u + t, p, r) == u + Replace(t, p, r)
    decreases |u|
  {
    if u == "" {
      assert u + t == t;
    } else {
      var s := u + t;
      assert s[0..] == s;
      assert s[1..] == u[1..] + t;
      forall j | 0 <= j < |u[1..]| ensures !(p <= (u[1..] + t)[j..]) {
        assert (u[1..] + t)[j..] == s[j + 1..];
      }
      ReplaceSkip(u[1..], t, p, r);
    }
  }

  lemma {:induction false} OnePassSkip(stem: string, blocks: seq<string>, u: string, t: string, kw: nat, kb: nat)
    requires forall j :: 0 <= j < |u| ==> Find(stem, |blocks|, (u + t)[j..], kw, kb).Miss?
    ensures OnePass(stem, blocks, u + t, kw, kb) == u + OnePass(stem, blocks, t, kw, kb)
    decreases |u|
  {
    hide Find;
    if u == "" {
      assert u + t == t;
    } else {
      var s := u + t;
      assert s[0..] == s;
      assert s[1..] == u[1..] + t;
      forall j | 0 <= j < |u[1..]| ensures Find(stem, |blocks|, (u[1..] + t)[j..], kw, kb).Miss? {
        assert (u[1..] + t)[j..] == s[j + 1..];
      }
      OnePassSkip(stem, blocks, u[1..], t, kw, kb);
    }
  }

  /** Offset `o` of a marker pattern holds '<' or '>' only in its paragraph tags. */
  lemma PatternShape(stem: string, k: nat, o: nat)
    requires GoodStem(stem) && o < |Wrapped(stem, k)|
    ensures var w := Wrapped(stem, k);
            && w[..3] == "<p>" && w[3..|w| - 4] == Bare(stem, k) && w[|w| - 4..] == "</p>"
            && (w[o] == '>' ==> o == 2 || o == |w| - 1)
            && (w[o] == '<' ==> o == 0 || o == |w| - 4)
  {
    var w := Wrapped(stem, k);
    if 3 <= o < |w| - 4 {
      assert w[o] == Bare(stem, k)[o - 3];
      BareShape(stem, k, o - 3);
    }
  }

  lemma BareShape(stem: string, k: nat, o: nat)
    requires GoodStem(stem) && o < |Bare(stem, k)|
    ensures Bare(stem, k)[o] != '<' && Bare(stem, k)[o] != '>'
    ensures Bare(stem, k)[o] == 's' ==> o == 0
    ensures Bare(stem, k)[..|stem|] == stem
  {
    if o >= |stem| {
      assert Bare(stem, k)[o] == Dec(k)[o - |stem|];
    }
  }

  lemma PrefixChar(q: string, s: string, x: nat)
    requires q <= s && x < |q|
    ensures s[x] == q[x]
  {
  }

  lemma PrefixShort(q: string, b: string, t: string)
    requires q <= b + t && |q| <= |b|
    ensures q <= b
  {
    assert b == (b + t)[..|b|];
  }

  lemma PrefixInside(b: string, t: string, j: nat, q: string)
    requires j + |q| <= |b| && q <= (b + t)[j..]
    ensures OccursAt(q, b, j)
  {
    assert b[j..j + |q|] == (b + t)[j..][..|q|];
  }

  /** No marker starts inside a block, whatever follows the block. */
  lemma BlockHidesBare(stem: string, b: string, t: string, k: nat, j: nat)
    requires GoodStem(stem) && GoodBlock(stem, b) && j < |b|
    ensures !(Bare(stem, k) <= (b + t)[j..])
  {
    var p := Bare(stem, k);
    if p <= (b + t)[j..] {
      if j + |stem| <= |b| {
        PrefixInside(b, t, j, stem);
      } else {
        var x := |b| - 1 - j;
        BareShape(stem, k, x);
        PrefixChar(p, (b + t)[j..], x);
      }
    }
  }

  lemma BlockHidesWrapped(stem: string, b: string, t: string, k: nat, j: nat)
    requires GoodStem(stem) && GoodBlock(stem, b) && j < |b|
    ensures !(Wrapped(stem, k) <= (b + t)[j..])
  {
    if Wrapped(stem, k) <= (b + t)[j..] {
      WrappedHoldsBare(stem, k, b + t, j);
      if j + 3 < |b| {
        BlockHidesBare(stem, b, t, k, j + 3);
      } else {
        OpenTagEnds(stem, b, t, k, j);
      }
    }
  }

  lemma WrappedHoldsBare(stem: string, k: nat, s: string, j: nat)
    requires j <= |s| && Wrapped(stem, k) <= s[j..]
    ensures j + 3 <= |s| && Bare(stem, k) <= s[j + 3..]
  {
    var w := Wrapped(stem, k);
    assert s[j..][3..] == s[j + 3..];
    assert w[3..] == Bare(stem, k) + "</p>";
    assert Bare(stem, k) <= w[3..] <= s[j..][3..];
  }

  /** A wrapped marker that starts in the last three characters of an element would end it with
      the paragraph tag. */
  lemma OpenTagEnds(stem: string, b: string, t: string, k: nat, j: nat)
    requires GoodStem(stem) && j < |b| <= j + 3 && |b| > 0 && b[|b| - 1] == '>'
    requires Wrapped(stem, k) <= (b + t)[j..]
    ensures |b| >= 3 && b[|b| - 3..] == "<p>"
  {
    var x := |b| - 1 - j;
    PrefixChar(Wrapped(stem, k), (b + t)[j..], x);
    PatternShape(stem, k, x);
    PrefixInside(b, t, j, "<p>");
  }

  lemma BlockIsNoCloseTag(stem: string, b: string, t: string)
    requires GoodBlock(stem, b)
    ensures !("</p>" <= b + t)
  {
    if "</p>" <= b + t {
      if |b| >= 4 {
        PrefixShort("</p>", b, t);
      } else {
        PrefixChar("</p>", b + t, |b| - 1);
      }
    }
  }

  /** What a pass wrote begins with a wrapped marker only where the text it read did. */
  lemma {:induction false} NoWrappedMade(stem: string, blocks: seq<string>, s: string, kw: nat, kb: nat, k: nat, o: nat)
    requires GoodBlocks(stem, blocks)
    requires o <= |Wrapped(stem, k)| && Wrapped(stem, k)[o..] <= OnePass(stem, blocks, s, kw, kb)
    requires o == 0 ==> Find(stem, |blocks|, s, kw, kb).Miss?
    ensures Wrapped(stem, k)[o..] <= s
    decreases |Wrapped(stem, k)| - o
  {
    var p, out := Wrapped(stem, k), OnePass(stem, blocks, s, kw, kb);
    if o < |p| {
      assert p[o..][0] == p[o] == out[0];
      if Find(stem, |blocks|, s, kw, kb).Marker? {
        var f := Find(stem, |blocks|, s, kw, kb);
        var b, t := blocks[f.index], OnePass(stem, blocks, s[f.length..], kw, kb);
        assert out == b + t;
        PatternShape(stem, k, o);
        BlockIsNoCloseTag(stem, b, t);
      } else {
        assert p[o + 1..] == p[o..][1..] <= out[1..];
        assert out[1..] == OnePass(stem, blocks, s[1..], kw, kb);
        NoWrappedMade(stem, blocks, s[1..], kw, kb, k, o + 1);
        assert p[o..] == [p[o]] + p[o + 1..];
      }
    }
  }

  lemma {:induction false} NoBareMade(stem: string, blocks: seq<string>, s: string, kw: nat, kb: nat, k: nat, o: nat)
    requires GoodBlocks(stem, blocks)
    requires o <= |Bare(stem, k)| && Bare(stem, k)[o..] <= OnePass(stem, blocks, s, kw, kb)
    requires o == 0 ==> Find(stem, |blocks|, s, kw, kb).Miss?
    ensures Bare(stem, k)[o..] <= s
    decreases |Bare(stem, k)| - o
  {
    var p, out := Bare(stem, k), OnePass(stem, blocks, s, kw, kb);
    if o < |p| {
      assert p[o..][0] == p[o] == out[0];
      if Find(stem, |blocks|, s, kw, kb).Marker? {
        var f := Find(stem, |blocks|, s, kw, kb);
        var b, t := blocks[f.index], OnePass(stem, blocks, s[f.length..], kw, kb);
        assert out == b + t;
        BareShape(stem, k, o);
      } else {
        assert p[o + 1..] == p[o..][1..] <= out[1..];
        assert out[1..] == OnePass(stem, blocks, s[1..], kw, kb);
        NoBareMade(stem, blocks, s[1..], kw, kb, k, o + 1);
        assert p[o..] == [p[o]] + p[o + 1..];
      }
    }
  }

  // ------------------------------------------------------------------ one index at a time

  /** Two markers opening one text, the second of them ended by something that is no digit:
      the first has the smaller number. */
  lemma NumeralsAgree(stem: string, i: nat, k: nat, t: string)
    requires Bare(stem, i) <= Bare(stem, k) + t
    requires t == "" || !IsDigit(t[0])
    ensures i <= k
  {
    var a, b := Dec(i), Dec(k);
    assert (Bare(stem, k) + t)[|stem|..] == b + t;
    assert Bare(stem, i)[|stem|..] == a;
    assert a <= b + t;
    if |a| > |b| {
      PrefixChar(a, b + t, |b|);
    } else {
      assert a <= b;
      PrefixIsSmaller(i, k);
    }
  }

  /** A marker can only open a text that starts with '<' (then 'p') or with 's'. */
  lemma FindNeeds(stem: string, n: nat, s: string, kw: nat, kb: nat)
    requires GoodStem(stem) && s != ""
    ensures s[0] != '<' && s[0] != 's' ==> Find(stem, n, s, kw, kb).Miss?
    ensures s[0] == '<' && |s| > 1 && s[1] != 'p' ==> Find(stem, n, s, kw, kb).Miss?
  {
    var w, b := WrappedAt(stem, s, kw, n), BareAt(stem, s, kb, n);
    if w >= 0 {
      PrefixChar(Wrapped(stem, w), s, 0);
      PrefixChar(Wrapped(stem, w), s, 1);
    }
    if b >= 0 {
      PrefixChar(Bare(stem, b), s, 0);
    }
  }

  /** A wrapped marker opens with '<'. */
  lemma WrappedOpens(stem: string, i: nat, s: string)
    requires s != "" && s[0] != '<'
    ensures !(Wrapped(stem, i) <= s)
  {
    assert Wrapped(stem, i)[0] == '<';
  }

  lemma {:induction false} NoneWrapped(stem: string, s: string, lo: nat, hi: nat)
    requires s != "" && s[0] != '<'
    ensures WrappedAt(stem, s, lo, hi) == -1
  {
    hide Wrapped;
    if lo < hi {
      WrappedOpens(stem, hi - 1, s);
      NoneWrapped(stem, s, lo, hi - 1);
    }
  }

  /** No marker of a higher index starts inside the text of wrapped marker `k`. */
  lemma NothingInWrapped(stem: string, n: nat, t: string, k: nat, j: nat)
    requires GoodStem(stem) && k < n && 1 <= j < |Wrapped(stem, k)|
    ensures Find(stem, n, (Wrapped(stem, k) + t)[j..], k + 1, k + 1).Miss?
  {
    var w := Wrapped(stem, k);
    var s := (w + t)[j..];
    assert s[0] == w[j];
    PatternShape(stem, k, j);
    FindNeeds(stem, n, s, k + 1, k + 1);
    if j == |w| - 4 {
      assert s[1] == (w + t)[j + 1] == w[j + 1] == w[|w| - 4..][1];
    } else if j == 3 {
      assert s == Bare(stem, k) + ("</p>" + t);
      var b := BareAt(stem, s, k + 1, n);
      if b >= 0 { NumeralsAgree(stem, b, k, "</p>" + t); }
      NoneWrapped(stem, s, k + 1, n);
    } else if 3 < j < |w| - 4 {
      assert w[j] == Bare(stem, k)[j - 3];
      BareShape(stem, k, j - 3);
    }
  }

  lemma NothingInBare(stem: string, n: nat, t: string, k: nat, j: nat)
    requires GoodStem(stem) && k < n && 1 <= j < |Bare(stem, k)|
    ensures Find(stem, n, (Bare(stem, k) + t)[j..], k, k + 1).Miss?
  {
    var s := (Bare(stem, k) + t)[j..];
    assert s[0] == Bare(stem, k)[j];
    BareShape(stem, k, j);
    FindNeeds(stem, n, s, k, k + 1);
  }

  /** What making one more marker live changes about the marker found at a place. */
  lemma FindWithWrapped(stem: string, n: nat, s: string, k: nat)
    requires GoodStem(stem) && k < n
    ensures var old_ := Find(stem, n, s, k + 1, k + 1);
            Find(stem, n, s, k, k + 1) ==
            if old_.Marker? then old_ else if Wrapped(stem, k) <= s then Marker(k, |Wrapped(stem, k)|) else Miss
  {
    LowerWrapped(stem, s, k, n);
    var b := BareAt(stem, s, k + 1, n);
    if b >= 0 && Wrapped(stem, k) <= s {
      PrefixChar(Wrapped(stem, k), s, 0);
      PrefixChar(Bare(stem, b), s, 0);
    }
  }

  lemma FindWithBare(stem: string, n: nat, s: string, k: nat)
    requires GoodStem(stem) && k < n
    ensures var old_ := Find(stem, n, s, k, k + 1);
            Find(stem, n, s, k, k) ==
            if old_.Marker? then old_ else if Bare(stem, k) <= s then Marker(k, |Bare(stem, k)|) else Miss
  {
    LowerBare(stem, s, k, n);
  }

  lemma {:induction false} LowerWrapped(stem: string, s: string, k: nat, n: nat)
    requires k < n
    ensures var w := WrappedAt(stem, s, k + 1, n);
            WrappedAt(stem, s, k, n) == if w >= 0 then w else if Wrapped(stem, k) <= s then k else -1
    decreases n
  {
    if n > k + 1 {
      LowerWrapped(stem, s, k, n - 1);
    }
  }

  lemma {:induction false} LowerBare(stem: string, s: string, k: nat, n: nat)
    requires k < n
    ensures var b := BareAt(stem, s, k + 1, n);
            BareAt(stem, s, k, n) == if b >= 0 then b else if Bare(stem, k) <= s then k else -1
    decreases n
  {
    if n > k + 1 {
      LowerBare(stem, s, k, n - 1);
    }
  }

  /** Replacing wrapped marker `k` adds exactly that marker to what the pass has done. */
  lemma {:induction false} ReplaceWrapped(stem: string, blocks: seq<string>, s: string, k: nat)
    requires GoodBlocks(stem, blocks) && k < |blocks|
    ensures Replace(OnePass(stem, blocks, s, k + 1, k + 1), Wrapped(stem, k), blocks[k])
         == OnePass(stem, blocks, s, k, k + 1)
    decreases |s|
  {
    var n, p, out := |blocks|, Wrapped(stem, k), OnePass(stem, blocks, s, k + 1, k + 1);
    if s != "" {
      FindWithWrapped(stem, n, s, k);
      match Find(stem, n, s, k + 1, k + 1)
      case Marker(i, m) =>
        SkipBlock(stem, blocks, i, OnePass(stem, blocks, s[m..], k + 1, k + 1), k, true);
        ReplaceWrapped(stem, blocks, s[m..], k);
      case Miss =>
        if p <= s {
          WrappedStands(stem, n, s, k);
          PassOver(stem, blocks, s, p, blocks[k], k + 1, k + 1);
          ReplaceWrapped(stem, blocks, s[|p|..], k);
        } else {
          NothingNew(stem, blocks, s, k, true);
          assert out[1..] == OnePass(stem, blocks, s[1..], k + 1, k + 1);
          ReplaceWrapped(stem, blocks, s[1..], k);
        }
    }
  }

  lemma {:induction false} ReplaceBare(stem: string, blocks: seq<string>, s: string, k: nat)
    requires GoodBlocks(stem, blocks) && k < |blocks|
    ensures Replace(OnePass(stem, blocks, s, k, k + 1), Bare(stem, k), blocks[k])
         == OnePass(stem, blocks, s, k, k)
    decreases |s|
  {
    var n, p, out := |blocks|, Bare(stem, k), OnePass(stem, blocks, s, k, k + 1);
    if s != "" {
      FindWithBare(stem, n, s, k);
      match Find(stem, n, s, k, k + 1)
      case Marker(i, m) =>
        SkipBlock(stem, blocks, i, OnePass(stem, blocks, s[m..], k, k + 1), k, false);
        ReplaceBare(stem, blocks, s[m..], k);
      case Miss =>
        if p <= s {
          BareStands(stem, n, s, k);
          PassOver(stem, blocks, s, p, blocks[k], k, k + 1);
          ReplaceBare(stem, blocks, s[|p|..], k);
        } else {
          NothingNew(stem, blocks, s, k, false);
          assert out[1..] == OnePass(stem, blocks, s[1..], k, k + 1);
          ReplaceBare(stem, blocks, s[1..], k);
        }
    }
  }

  function Pattern(stem: string, k: nat, wrapped: bool): (p: string)
    ensures p != ""
  {
    if wrapped then Wrapped(stem, k) else Bare(stem, k)
  }

  /** Replacing a marker leaves a block already put back alone. */
  lemma SkipBlock(stem: string, blocks: seq<string>, i: nat, t: string, k: nat, wrapped: bool)
    requires GoodBlocks(stem, blocks) && i < |blocks| && k < |blocks|
    ensures var p := Pattern(stem, k, wrapped);
            Replace(blocks[i] + t, p, blocks[k]) == blocks[i] + Replace(t, p, blocks[k])
  {
    var p := Pattern(stem, k, wrapped);
    forall j | 0 <= j < |blocks[i]| ensures !(p <= (blocks[i] + t)[j..]) {
      if wrapped {
        BlockHidesWrapped(stem, blocks[i], t, k, j);
      } else {
        BlockHidesBare(stem, blocks[i], t, k, j);
      }
    }
    ReplaceSkip(blocks[i], t, p, blocks[k]);
  }

  /** A pass that finds nothing in a stretch of its text leaves it standing for a replacement. */
  lemma PassOver(stem: string, blocks: seq<string>, s: string, p: string, r: string, kw: nat, kb: nat)
    requires p != "" && p <= s
    requires forall j :: 0 <= j < |p| ==> Find(stem, |blocks|, s[j..], kw, kb).Miss?
    ensures Replace(OnePass(stem, blocks, s, kw, kb), p, r)
            == r + Replace(OnePass(stem, blocks, s[|p|..], kw, kb), p, r)
  {
    var t := s[|p|..];
    assert s == p + t;
    OnePassSkip(stem, blocks, p, t, kw, kb);
    var rest := OnePass(stem, blocks, t, kw, kb);
    assert (p + rest)[|p|..] == rest;
  }

  lemma WrappedStands(stem: string, n: nat, s: string, k: nat)
    requires GoodStem(stem) && k < n && Wrapped(stem, k) <= s && Find(stem, n, s, k + 1, k + 1).Miss?
    ensures forall j :: 0 <= j < |Wrapped(stem, k)| ==> Find(stem, n, s[j..], k + 1, k + 1).Miss?
  {
    var t := s[|Wrapped(stem, k)|..];
    assert s == Wrapped(stem, k) + t && s[0..] == s;
    forall j | 1 <= j < |Wrapped(stem, k)| ensures Find(stem, n, s[j..], k + 1, k + 1).Miss? {
      NothingInWrapped(stem, n, t, k, j);
    }
  }

  lemma BareStands(stem: string, n: nat, s: string, k: nat)
    requires GoodStem(stem) && k < n && Bare(stem, k) <= s && Find(stem, n, s, k, k + 1).Miss?
    ensures forall j :: 0 <= j < |Bare(stem, k)| ==> Find(stem, n, s[j..], k, k + 1).Miss?
  {
    var t := s[|Bare(stem, k)|..];
    assert s == Bare(stem, k) + t && s[0..] == s;
    forall j | 1 <= j < |Bare(stem, k)| ensures Find(stem, n, s[j..], k, k + 1).Miss? {
      NothingInBare(stem, n, t, k, j);
    }
  }

  lemma NothingNew(stem: string, blocks: seq<string>, s: string, k: nat, wrapped: bool)
    requires GoodBlocks(stem, blocks) && k < |blocks|
    requires var p, kw := Pattern(stem, k, wrapped), if wrapped then k + 1 else k;
             !(p <= s) && Find(stem, |blocks|, s, kw, k + 1).Miss?
    ensures var kw := if wrapped then k + 1 else k;
            !(Pattern(stem, k, wrapped) <= OnePass(stem, blocks, s, kw, k + 1))
  {
    var p, kw := Pattern(stem, k, wrapped), if wrapped then k + 1 else k;
    assert p[0..] == p;
    if p <= OnePass(stem, blocks, s, kw, k + 1) {
      if wrapped {
        NoWrappedMade(stem, blocks, s, kw, k + 1, k, 0);
      } else {
        NoBareMade(stem, blocks, s, kw, k + 1, k, 0);
      }
    }
  }

  lemma {:induction false} NothingLive(stem: string, blocks: seq<string>, s: string)
    ensures OnePass(stem, blocks, s, |blocks|, |blocks|) == s
    decreases |s|
  {
    if s != "" {
      NothingLive(stem, blocks, s[1..]);
    }
  }

  lemma {:induction false} RestoreDownIsOnePass(html: string, blocks: seq<string>, stem: string, k: nat)
    requires GoodBlocks(stem, blocks) && k <= |blocks|
    ensures RestoreDown(html, blocks, stem, k) == OnePass(stem, blocks, html, k, k)
    decreases |blocks| - k
  {
    if k == |blocks| {
      NothingLive(stem, blocks, html);
    } else {
      RestoreDownIsOnePass(html, blocks, stem, k + 1);
      ReplaceWrapped(stem, blocks, html, k);
      ReplaceBare(stem, blocks, html, k);
    }
  }

  /** The sequential, descending restore of any text is the simultaneous substitution of
      every marker in it. */
  lemma RestoreIsSimultaneous(html: string, blocks: seq<string>, token: string, word: string)
    requires GoodBlocks(Stem(word, token), blocks)
    ensures Restored(html, blocks + [token], word) == OnePass(Stem(word, token), blocks, html, 0, 0)
  {
    var placeholders := blocks + [token];
    assert placeholders[..|placeholders| - 1] == blocks;
    RestoreDownIsOnePass(html, blocks, Stem(word, token), 0);
  }
}
