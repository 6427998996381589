/** Slugs derived from human text, and the walk to a free one (app/models/base.py,
    app/models/content.py). The text arrives folded to ASCII. */
module Slugs {
  import opened Numerals
  import opened Wrappers

  const DERIVED_SLUG_MAX := 60

  predicate Alnum(c: char) {
    'a' <= c <= 'z' || '0' <= c <= '9'
  }

  predicate SegmentChar(c: char) {
    Alnum(c) || c == '-'
  }

  /** A leading letter or digit, then at most `more` letters, digits and hyphens. */
  predicate Segment(s: string, more: nat) {
    1 <= |s| <= more + 1 && Alnum(s[0]) && forall k :: 0 <= k < |s| ==> SegmentChar(s[k])
  }

  // ------------------------------------------------------------------ slugify

  function LowerChar(c: char): char {
    if 'A' <= c <= 'Z' then (c as int + 32) as char else c
  }

  function Lower(s: string): string {
    if s == "" then "" else [LowerChar(s[0])] + Lower(s[1..])
  }

  /** Every run of anything but letters and digits becomes one hyphen; `inRun` says the text
      before `s` ended in such a run. */
  function Hyphenated(s: string, inRun: bool): string {
    if s == "" then ""
    else if Alnum(s[0]) then [s[0]] + Hyphenated(s[1..], false)
    else (if inRun then "" else "-") + Hyphenated(s[1..], true)
  }

  function StripLeft(s: string): string {
    if s != "" && s[0] == '-' then StripLeft(s[1..]) else s
  }

  function StripRight(s: string): string {
    if s != "" && s[|s| - 1] == '-' then StripRight(s[..|s| - 1]) else s
  }

  function Strip(s: string): string {
    StripRight(StripLeft(s))
  }

  function LastHyphen(s: string): (k: int)
    ensures -1 <= k < |s|
    ensures k >= 0 ==> s[k] == '-'
    ensures forall j :: k < j < |s| ==> s[j] != '-'
  {
    if s == "" then -1 else if s[|s| - 1] == '-' then |s| - 1 else LastHyphen(s[..|s| - 1])
  }

  function CutBack(cut: string, max: nat): string {
    var boundary := LastHyphen(cut);
    if boundary > max / 2 then cut[..boundary] else cut
  }

  function Uncut(text: string): string {
    Strip(Hyphenated(Lower(text), false))
  }

  /** What `slugify` makes of the text; empty where it answers the fallback. */
  function Core(text: string, max: nat): string {
    var slug := Uncut(text);
    Strip(if |slug| > max then CutBack(slug[..max], max) else slug)
  }

  function Slugify(text: string, fallback: string, max: nat): string {
    var slug := Core(text, max);
    if slug == "" then fallback else slug
  }

  // ------------------------------------------------------------------ what it makes

  /** Only letters, digits and hyphens; no hyphen first, last or doubled. */
  ghost predicate Clean(s: string) {
    && (forall k :: 0 <= k < |s| ==> SegmentChar(s[k]))
    && (s != "" ==> s[0] != '-' && s[|s| - 1] != '-')
    && NoDouble(s)
  }

  ghost predicate NoDouble(s: string) {
    forall k :: 0 <= k < |s| - 1 && s[k] == '-' ==> s[k + 1] != '-'
  }

  function WordLength(s: string): (n: nat)
    ensures n <= |s|
    ensures forall k :: 0 <= k < n ==> Alnum(s[k])
    ensures n < |s| ==> !Alnum(s[n])
    ensures s != "" && Alnum(s[0]) ==> n > 0
  {
    if s != "" && Alnum(s[0]) then 1 + WordLength(s[1..]) else 0
  }

  /** The words of a text: its runs of letters and digits. */
  function Words(s: string): seq<string>
    decreases |s|
  {
    if s == "" then []
    else if Alnum(s[0]) then [s[..WordLength(s)]] + Words(s[WordLength(s)..])
    else Words(s[1..])
  }

  function Join(words: seq<string>): string {
    if words == [] then "" else if |words| == 1 then words[0] else words[0] + "-" + Join(words[1..])
  }

  lemma {:induction false} HyphenatedWord(s: string, n: nat, inRun: bool)
    requires n <= |s| && forall k :: 0 <= k < n ==> Alnum(s[k])
    ensures Hyphenated(s, inRun) == s[..n] + Hyphenated(s[n..], if n > 0 then false else inRun)
  {
    if n == 0 {
      assert s[0..] == s;
    } else {
      HyphenatedWord(s[1..], n - 1, false);
      assert s[..n] == [s[0]] + s[1..][..n - 1];
      assert s[n..] == s[1..][n - 1..];
    }
  }

  lemma {:induction false} StripRightAfter(w: string, x: string)
    requires w == "" || w[|w| - 1] != '-'
    ensures StripRight(w + x) == w + StripRight(x)
  {
    if x == "" {
      assert w + x == w;
    } else if x[|x| - 1] == '-' {
      assert (w + x)[..|w + x| - 1] == w + x[..|x| - 1];
      StripRightAfter(w, x[..|x| - 1]);
    }
  }

  lemma {:induction false} FirstWordStays(words: seq<string>)
    requires words != [] && forall w :: w in words ==> w != "" && w[|w| - 1] != '-' && w[0] != '-'
    ensures Join(words) != "" && Join(words)[0] == words[0][0] && Join(words)[|Join(words)| - 1] != '-'
  {
    if |words| > 1 { FirstWordStays(words[1..]); }
  }

  lemma {:induction false} WordsHold(s: string)
    ensures forall w :: w in Words(s) ==> w != "" && forall k :: 0 <= k < |w| ==> Alnum(w[k])
    decreases |s|
  {
    if s != "" { WordsHold(if Alnum(s[0]) then s[WordLength(s)..] else s[1..]); }
  }

  /** Past a run, or at the start of the text, the hyphenated text is its words joined. */
  lemma {:induction false} HyphenatedIsJoin(s: string)
    ensures StripRight(Hyphenated(s, true)) == Join(Words(s))
    decreases |s|
  {
    if s != "" && Alnum(s[0]) {
      var rest := s[WordLength(s)..];
      if rest != "" {
        HyphenatedIsJoin(rest[1..]);
        AfterRun(rest[1..]);
      }
      WordIsJoined(s);
    } else if s != "" {
      HyphenatedIsJoin(s[1..]);
      assert "" + Hyphenated(s[1..], true) == Hyphenated(s[1..], true);
    }
  }

  lemma WordIsJoined(s: string)
    requires s != "" && Alnum(s[0])
    requires var rest := s[WordLength(s)..];
             rest != "" ==> StripRight("-" + Hyphenated(rest[1..], true))
                            == if Words(rest[1..]) == [] then "" else "-" + Join(Words(rest[1..]))
    ensures StripRight(Hyphenated(s, true)) == Join(Words(s))
  {
    hide *;
    var n := WordLength(s);
    var w, rest := s[..n], s[n..];
    HyphenatedWord(s, n, true);
    LastOfWord(w, Hyphenated(rest, false));
    FirstWord(s);
    JoinFirst(w, Words(rest));
    if rest == "" { NothingAfter(w); } else { RunAfter(rest); }
    assert w + ("-" + Join(Words(rest))) == w + "-" + Join(Words(rest));
  }

  lemma FirstWord(s: string)
    requires s != "" && Alnum(s[0])
    ensures Words(s) == [s[..WordLength(s)]] + Words(s[WordLength(s)..])
  {
  }

  lemma JoinFirst(w: string, words: seq<string>)
    ensures Join([w] + words) == if words == [] then w else w + "-" + Join(words)
  {
    assert ([w] + words)[1..] == words;
  }

  lemma LastOfWord(w: string, x: string)
    requires w != "" && forall k :: 0 <= k < |w| ==> Alnum(w[k])
    ensures StripRight(w + x) == w + StripRight(x)
  {
    assert Alnum(w[|w| - 1]);
    StripRightAfter(w, x);
  }

  lemma NothingAfter(w: string)
    ensures Hyphenated("", false) == "" && StripRight("") == "" && w + "" == w && Words("") == []
  {
  }

  lemma RunAfter(rest: string)
    requires rest != "" && !Alnum(rest[0])
    ensures Hyphenated(rest, false) == "-" + Hyphenated(rest[1..], true) && Words(rest) == Words(rest[1..])
  {
  }

  lemma AfterRun(s: string)
    requires StripRight(Hyphenated(s, true)) == Join(Words(s))
    ensures StripRight("-" + Hyphenated(s, true)) == if Words(s) == [] then "" else "-" + Join(Words(s))
  {
    var x := Hyphenated(s, true);
    StripRightTail("-", x);
    WordsHold(s);
    if Words(s) != [] { FirstWordStays(Words(s)); }
  }

  /** What is stripped off the end is the same with or without a lead. */
  lemma {:induction false} StripRightTail(lead: string, x: string)
    ensures StripRight(lead + x) == if StripRight(x) == "" then StripRight(lead) else lead + StripRight(x)
  {
    if x == "" {
      assert lead + x == lead;
    } else if x[|x| - 1] == '-' {
      assert (lead + x)[..|lead + x| - 1] == lead + x[..|x| - 1];
      StripRightTail(lead, x[..|x| - 1]);
    }
  }

  lemma NoLeadingHyphen(s: string)
    ensures Hyphenated(s, true) != "" ==> Hyphenated(s, true)[0] != '-'
  {
    if s != "" && !Alnum(s[0]) { NoLeadingHyphen(s[1..]); }
  }

  /** `b` is `a` with some of its capitals made small. */
  ghost predicate Smaller(a: string, b: string) {
    |a| == |b| && forall k :: 0 <= k < |a| ==> b[k] == a[k] || ('A' <= a[k] <= 'Z' && b[k] as int == a[k] as int + 32)
  }

  /** Capitals make no difference to a slug. */
  lemma CaseIsNothing(a: string, b: string, fallback: string, max: nat)
    requires Smaller(a, b)
    ensures Slugify(a, fallback, max) == Slugify(b, fallback, max)
  {
    SameLower(a, b);
  }

  lemma {:induction false} SameLower(a: string, b: string)
    requires Smaller(a, b)
    ensures Lower(a) == Lower(b)
  {
    if a != "" { SameLower(a[1..], b[1..]); }
  }

  /** Before any cut a slug is the words of the text, lower-cased, joined by hyphens. */
  lemma UncutIsItsWords(text: string)
    ensures Uncut(text) == Join(Words(Lower(text)))
  {
    var s := Lower(text);
    HyphenatedIsJoin(s);
    NoLeadingHyphen(s);
    if s != "" && !Alnum(s[0]) {
      NoLeadingHyphen(s[1..]);
      HyphenatedIsJoin(s[1..]);
      assert StripLeft("-" + Hyphenated(s[1..], true)) == Hyphenated(s[1..], true);
    } else if s != "" {
      assert Hyphenated(s, true) == Hyphenated(s, false);
    }
  }

  lemma {:induction false} JoinIsClean(words: seq<string>)
    requires forall w :: w in words ==> w != "" && forall k :: 0 <= k < |w| ==> Alnum(w[k])
    ensures Clean(Join(words))
  {
    if |words| > 1 {
      JoinIsClean(words[1..]);
      FirstWordStays(words[1..]);
      var w, rest := words[0], Join(words[1..]);
      var s := w + "-" + rest;
      forall k | 0 <= k < |s| - 1 && s[k] == '-' ensures s[k + 1] != '-' {
        if k > |w| { assert s[k] == rest[k - |w| - 1] && s[k + 1] == rest[k - |w|]; }
      }
    }
  }

  lemma {:induction false} StripOfPrefix(s: string)
    requires forall k :: 0 <= k < |s| ==> SegmentChar(s[k])
    requires NoDouble(s) && (s != "" ==> s[0] != '-')
    ensures Clean(Strip(s)) && Strip(s) <= s && |Strip(s)| >= |s| - 1
    ensures s != "" ==> Strip(s) != ""
    ensures Clean(s) ==> Strip(s) == s
  {
    if s != "" && s[|s| - 1] == '-' {
      var t := s[..|s| - 1];
      assert s[|t| - 1] != '-';
      assert StripRight(t) == t;
    }
  }

  /** A word ends past half way of the room there is. */
  ghost predicate WordEnds(full: string, max: nat) {
    exists k :: max / 2 < k < max <= |full| && full[k] == '-'
  }

  lemma CutIsClean(full: string, max: nat)
    requires Clean(full) && |full| > max
    ensures var slug := Strip(CutBack(full[..max], max));
            && Clean(slug) && |slug| <= max && slug <= full && (max > 0 ==> slug != "")
            && (WordEnds(full, max) ==>
                  full[|slug|] == '-' && max / 2 < |slug| < max && forall j :: |slug| < j < max ==> full[j] != '-')
            && (!WordEnds(full, max) ==> |slug| >= max - 1)
  {
    var cut := full[..max];
    var k := LastHyphen(cut);
    var back := CutBack(cut, max);
    assert back <= full && NoDouble(back);
    StripOfPrefix(back);
    assert forall j :: 0 <= j < max ==> full[j] == cut[j];
    if k > max / 2 {
      assert full[k] == '-' && NoDouble(full);
      assert full[k - 1] != '-';
    }
  }

  /** Every slug is clean, no longer than asked and a prefix of the words of the text joined by
      hyphens: the whole of them where they fit, else cut back to the end of a word where one
      ends past half way, and by no more than one hyphen where none does. */
  lemma SlugIsClean(text: string, max: nat)
    ensures var full, slug := Join(Words(Lower(text))), Core(text, max);
            && Clean(slug) && |slug| <= max && slug <= full
            && (slug == "" <==> full == "" || max == 0)
            && (|full| <= max ==> slug == full)
            && (|full| > max && WordEnds(full, max) ==>
                 full[|slug|] == '-' && max / 2 < |slug| < max && forall j :: |slug| < j < max ==> full[j] != '-')
            && (|full| > max && !WordEnds(full, max) ==> |slug| >= max - 1)
  {
    UncutIsItsWords(text);
    WordsHold(Lower(text));
    JoinIsClean(Words(Lower(text)));
    var full := Uncut(text);
    if |full| > max { CutIsClean(full, max); } else { StripOfPrefix(full); }
  }

  /** A clean text is one word after another already. */
  lemma {:induction false} HyphenatedOfClean(s: string, inRun: bool)
    requires forall k :: 0 <= k < |s| ==> SegmentChar(s[k])
    requires NoDouble(s) && (inRun && s != "" ==> s[0] != '-')
    ensures Hyphenated(s, inRun) == s && Lower(s) == s
  {
    if s != "" {
      HyphenatedOfClean(s[1..], s[0] == '-');
      HyphenatedOfClean(s[1..], !Alnum(s[0]));
    }
  }

  /** Deriving a slug from a slug changes nothing. */
  lemma SlugifyIsIdempotent(text: string, max: nat)
    ensures Core(Core(text, max), max) == Core(text, max)
  {
    var slug := Core(text, max);
    SlugIsClean(text, max);
    HyphenatedOfClean(slug, false);
    StripOfPrefix(slug);
  }

  /** The fallback answers exactly for a text without a letter or a digit. */
  lemma FallbackOnlyForNothing(text: string, fallback: string, max: nat)
    requires max >= 1
    ensures Core(text, max) == "" <==> forall k :: 0 <= k < |Lower(text)| ==> !Alnum(Lower(text)[k])
    ensures Slugify(text, fallback, max) == fallback
            <==> Core(text, max) == fallback || forall k :: 0 <= k < |Lower(text)| ==> !Alnum(Lower(text)[k])
  {
    SlugIsClean(text, max);
    JoinIsNothing(Words(Lower(text)), Lower(text));
    NoWords(Lower(text));
  }

  lemma JoinIsNothing(words: seq<string>, s: string)
    requires words == Words(s)
    ensures Join(words) == "" <==> words == []
  {
    WordsHold(s);
    if words != [] { FirstWordStays(words); }
  }

  lemma {:induction false} NoWords(s: string)
    ensures Words(s) == [] <==> forall k :: 0 <= k < |s| ==> !Alnum(s[k])
    decreases |s|
  {
    if s != "" && !Alnum(s[0]) {
      NoWords(s[1..]);
      assert forall k :: 0 <= k < |s| - 1 ==> s[1..][k] == s[k + 1];
      assert forall k :: 1 <= k < |s| ==> s[k] == s[1..][k - 1];
    }
  }

  // ------------------------------------------------------------------ the last whole word

  /** The first n characters of the joined words are whole words. */
  predicate WholeWords(full: string, n: nat) {
    n == |full| || (n < |full| && full[n] == '-')
  }

  /** `slug` is as many whole words as the room holds. */
  ghost predicate LastWholeWord(full: string, max: nat, slug: string) {
    && slug <= full && |slug| <= max && WholeWords(full, |slug|)
    && forall n: nat :: |slug| < n <= max ==> !WholeWords(full, n)
  }

  /** The text fits; or a word ends in the upper half of the room and none just at its end, or
      one at its end and none in the upper half; or the room is two characters and the first word one letter. */
  ghost predicate EndsWell(full: string, max: nat) {
    || |full| <= max
    || (if full[max] == '-' then !WordEnds(full, max) else WordEnds(full, max) || (max == 2 && full[1] == '-'))
  }

  lemma CutToLastWord(full: string, max: nat)
    requires Clean(full) && |full| > max
    ensures LastWholeWord(full, max, Strip(CutBack(full[..max], max))) <==> EndsWell(full, max)
  {
    CutIsClean(full, max);
    var slug := Strip(CutBack(full[..max], max));
    assert full[max] == '-' ==> WholeWords(full, max);
    if WordEnds(full, max) {
      if full[max] != '-' { assert forall n: nat :: |slug| < n <= max ==> !WholeWords(full, n); }
    } else if max >= 1 {
      HardCut(full, max);
    }
  }

  /** Where no word ends past half way the cut stands, less a hyphen it ends with. */
  lemma HardCut(full: string, max: nat)
    requires Clean(full) && |full| > max >= 1 && !WordEnds(full, max)
    ensures var slug := Strip(CutBack(full[..max], max));
            slug == if full[max - 1] == '-' then full[..max - 1] else full[..max]
    ensures full[max - 1] == '-' ==> max == 2 && full[max] != '-'
  {
    var cut := full[..max];
    assert forall j :: 0 <= j < max ==> full[j] == cut[j];
    assert NoDouble(cut) && CutBack(cut, max) == cut;
    StripOfPrefix(cut);
    if full[max - 1] == '-' {
      assert full[(max - 1) + 1] != '-';
      assert cut[..max - 1] == full[..max - 1] && full[max - 2] != '-';
    }
  }

  /** When a slug is the last whole word of its text that fits, for every text and room. */
  lemma LastWholeWordExactly(text: string, max: nat)
    ensures LastWholeWord(Join(Words(Lower(text))), max, Core(text, max)) <==> EndsWell(Join(Words(Lower(text))), max)
  {
    UncutIsItsWords(text);
    WordsHold(Lower(text));
    JoinIsClean(Words(Lower(text)));
    var full := Uncut(text);
    if |full| > max { CutToLastWord(full, max); } else { StripOfPrefix(full); }
  }

  lemma WordThenRest(word: string, rest: string)
    requires word != "" && forall k :: 0 <= k < |word| ==> Alnum(word[k])
    ensures Words(word + " " + rest) == [word] + Words(rest)
  {
    var s := word + " " + rest;
    assert s[..|word|] == word && s[|word|] == ' ' && s[|word|..][1..] == rest;
    WordRuns(s, |word|);
    assert !Alnum(s[|word|..][0]);
  }

  lemma {:induction false} WordRuns(s: string, n: nat)
    requires n <= |s| && forall k :: 0 <= k < n ==> Alnum(s[k])
    requires n < |s| ==> !Alnum(s[n])
    ensures WordLength(s) == n
  {
    if n > 0 {
      WordRuns(s[1..], n - 1);
    }
  }

  lemma {:induction false} LowerIsId(s: string)
    requires forall k :: 0 <= k < |s| ==> !('A' <= s[k] <= 'Z')
    ensures Lower(s) == s
  {
    if s != "" { LowerIsId(s[1..]); }
  }

  lemma OneWord(word: string)
    requires word != "" && forall k :: 0 <= k < |word| ==> Alnum(word[k])
    ensures Words(word) == [word]
  {
    WordRuns(word, |word|);
    assert word[..|word|] == word && word[|word|..] == "";
  }

  lemma JoinFive(a: string, b: string, c: string, d: string, e: string)
    ensures Join([a, b, c, d, e]) == a + "-" + (b + "-" + (c + "-" + (d + "-" + e)))
  {
    assert [a, b, c, d, e][1..] == [b, c, d, e] && [b, c, d, e][1..] == [c, d, e];
    assert [c, d, e][1..] == [d, e] && [d, e][1..] == [e];
    assert Join([d, e]) == d + "-" + e;
    assert Join([c, d, e]) == c + "-" + Join([d, e]);
    assert Join([b, c, d, e]) == b + "-" + Join([c, d, e]);
  }

  lemma DropsTheFourth(a: string, b: string, c: string, d: string, e: string, full: string)
    requires |a| == 18 && |b| == 14 && |c| == 16 && |d| == 9 && |e| > 0 && forall k :: 0 <= k < |d| ==> d[k] != '-'
    requires full == a + "-" + (b + "-" + (c + "-" + (d + "-" + e)))
    ensures |full| > 60 && full[60] == '-' && WordEnds(full, 60)
    ensures full[50] == '-' && forall k :: 50 < k < 60 ==> full[k] != '-'
  {
    assert full[50] == '-' && full[60] == '-';
    assert forall k :: 50 < k < 60 ==> full[k] == d[k - 51];
  }

  /** Words with a space between each two. */
  function Sentence(words: seq<string>): string {
    if words == [] then "" else if |words| == 1 then words[0] else words[0] + " " + Sentence(words[1..])
  }

  ghost predicate AllWords(words: seq<string>) {
    forall i :: 0 <= i < |words| ==> words[i] != "" && forall k :: 0 <= k < |words[i]| ==> Alnum(words[i][k])
  }

  lemma {:induction false} WordsOfSentence(words: seq<string>)
    requires AllWords(words)
    ensures Words(Sentence(words)) == words
  {
    if |words| == 1 {
      OneWord(words[0]);
    } else if |words| > 1 {
      WordsOfSentence(words[1..]);
      WordThenRest(words[0], Sentence(words[1..]));
    }
  }

  lemma {:induction false} LowerSentence(words: seq<string>)
    requires AllWords(words)
    ensures forall k :: 0 <= k < |Sentence(words)| ==> !('A' <= Sentence(words)[k] <= 'Z')
  {
    if |words| > 1 { LowerSentence(words[1..]); }
  }

  /** A title where the code and its own description part: its first four words make a slug of
      sixty characters exactly, which fits, and the slug keeps three. */
  lemma FittingWordDropped(title: seq<string>)
    requires title == ["telecommunications", "infrastructure", "responsibilities", "committee", "agenda"]
    ensures var full, slug := Join(Words(Lower(Sentence(title)))), Core(Sentence(title), DERIVED_SLUG_MAX);
            && full == Join(title) && |full| > DERIVED_SLUG_MAX && WholeWords(full, DERIVED_SLUG_MAX)
            && slug == full[..50] && !LastWholeWord(full, DERIVED_SLUG_MAX, slug)
  {
    FiveWords(title);
    LowerSentence(title);
    LowerIsId(Sentence(title));
    WordsOfSentence(title);
    JoinFive(title[0], title[1], title[2], title[3], title[4]);
    DropsTheFourth(title[0], title[1], title[2], title[3], title[4], Join(title));
    SlugIsClean(Sentence(title), DERIVED_SLUG_MAX);
    LastWholeWordExactly(Sentence(title), DERIVED_SLUG_MAX);
  }

  lemma FiveWords(title: seq<string>)
    requires title == ["telecommunications", "infrastructure", "responsibilities", "committee", "agenda"]
    ensures AllWords(title) && |title| == 5 && title == [title[0], title[1], title[2], title[3], title[4]]
    ensures |title[0]| == 18 && |title[1]| == 14 && |title[2]| == 16 && |title[3]| == 9 && |title[4]| > 0
    ensures forall k :: 0 <= k < |title[3]| ==> title[3][k] != '-'
  {
  }
}
