/** The markup the body renderer builds for a video and for a library picture
    (app/platform/content.py), and that it is such as a restore can put back. */
module Markup {
  import opened Markers

  const EMBED_OPEN := "<div class=\"video-embed\"><iframe src=\""
  const EMBED_REST := "\" title=\"Video\" loading=\"lazy\" allow=\"accelerometer; autoplay; clipboard-write;"
                      + " encrypted-media; gyroscope; picture-in-picture\" allowfullscreen>"
  const EMBED_CLOSE := "</iframe></div>"

  /** `src` is already escaped. */
  function EmbedHtml(src: string): string {
    EMBED_OPEN + (src + EMBED_REST) + EMBED_CLOSE
  }

  const IMAGE_OPEN := "<figure class=\"body-image body-image--"
  const IMAGE_REST := "\" loading=\"lazy\" style=\"max-width:100%;height:auto\">"
  const IMAGE_CLOSE := "</figure>"

  function ImageHtml(placement: string, src: string, alt: string): string {
    IMAGE_OPEN + (placement + "\"><img src=\"" + src + "\" alt=\"" + alt + IMAGE_REST) + IMAGE_CLOSE
  }

  predicate Hexadecimal(token: string) {
    forall k :: 0 <= k < |token| ==> '0' <= token[k] <= '9' || 'a' <= token[k] <= 'f'
  }

  /** Both words and any hexadecimal token make a stem that never overlaps itself. */
  lemma StemIsGood(word: string, token: string)
    requires word == "video" || word == "image"
    requires Hexadecimal(token)
    ensures GoodStem(Stem(word, token))
  {
    var head := "supremely" + word;
    HeadIsGood(word);
    assert Stem(word, token) == head + token;
    forall k | 1 <= k < |head + token|
      ensures (head + token)[k] != 's' && (head + token)[k] != '<' && (head + token)[k] != '>'
    {
      if k >= |head| { assert (head + token)[k] == token[k - |head|]; }
    }
  }

  lemma HeadIsGood(word: string)
    requires word == "video" || word == "image"
    ensures GoodStem("supremely" + word)
  {
  }

  lemma ElementIsGood(stem: string, open: string, middle: string, close: string)
    requires |open| >= 4 && open[0] == '<' && open[1] != '/'
    requires |close| >= 3 && close[|close| - 1] == '>' && close[|close| - 2] != 'p'
    requires !Contains(open + middle + close, stem)
    ensures GoodBlock(stem, open + middle + close)
  {
    var b := open + middle + close;
    assert b[1] == open[1] && b[|b| - 2] == close[|close| - 2];
    assert "</p>"[1] == '/' && b[|b| - 3..][1] == b[|b| - 2];
  }

  /** Whatever the address, the placement and the description, a frame and a figure that do not
      hold the marker are blocks a restore puts back. */
  lemma BuiltMarkupIsGood(stem: string, placement: string, src: string, alt: string)
    ensures !Contains(EmbedHtml(src), stem) ==> GoodBlock(stem, EmbedHtml(src))
    ensures !Contains(ImageHtml(placement, src, alt), stem) ==> GoodBlock(stem, ImageHtml(placement, src, alt))
  {
    if !Contains(EmbedHtml(src), stem) {
      ElementIsGood(stem, EMBED_OPEN, src + EMBED_REST, EMBED_CLOSE);
    }
    if !Contains(ImageHtml(placement, src, alt), stem) {
      ElementIsGood(stem, IMAGE_OPEN, placement + "\"><img src=\"" + src + "\" alt=\"" + alt + IMAGE_REST, IMAGE_CLOSE);
    }
  }
}
