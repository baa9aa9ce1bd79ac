/** Passes three and four of `ContentCleaner.cleanContent`: every `<img>` with a
    `src` is rebuilt from a fixed template, and relative `src` and `href` values are
    prefixed with `../../`. */
module UrlPasses {
  import opened Text
  import opened Rewrite

  function NotQuote(c: char): bool { c != '"' }

  // ---- `match.match(/key"([^"]+)"/)`: the first quoted attribute value ----

  /** `key` at `p` (as in `class="`), then a non-empty value without quotes ending at
      the quote at `v`. */
  ghost predicate AttrAt(t: string, p: nat, key: string, v: nat) {
    && At(t, p, key) && p + |key| < v < |t| && t[v] == '"'
    && forall q :: p + |key| <= q < v ==> t[q] != '"'
  }

  /** The end of the value when a match of `key"([^"]+)"` starts at `p`. */
  function AttrEnd(t: string, p: nat, key: string): (r: Option<nat>)
    ensures r.Some? ==> AttrAt(t, p, key, r.value)
  {
    if !At(t, p, key) then None
    else
      var v := Span(t, p + |key|, NotQuote);
      if p + |key| < v < |t| then Some(v) else None
  }

  /** A value found at `p` is the only one there. */
  lemma AttrEndComplete(t: string, p: nat, key: string, v: nat)
    requires AttrAt(t, p, key, v)
    ensures AttrEnd(t, p, key) == Some(v)
  {
  }

  /** The value of the leftmost `key"..."` match in `t[p..]`. */
  function FirstAttr(t: string, p: nat, key: string): Option<string>
    decreases |t| - p
  {
    if p >= |t| then None
    else match AttrEnd(t, p, key)
      case Some(v) => Some(t[p + |key|..v])
      case None => FirstAttr(t, p + 1, key)
  }

  /** The leftmost match wins. */
  lemma {:induction false} FirstAttrLeftmost(t: string, p: nat, key: string, p0: nat, v: nat)
    requires p <= p0 && AttrAt(t, p0, key, v)
    requires forall p1: nat, v1: nat :: p <= p1 < p0 ==> !AttrAt(t, p1, key, v1)
    ensures FirstAttr(t, p, key) == Some(t[p0 + |key|..v])
    decreases p0 - p
  {
    if p < p0 {
      assert AttrEnd(t, p, key).None?;
      FirstAttrLeftmost(t, p + 1, key, p0, v);
    }
  }

  /** Without a match there is no value. */
  lemma {:induction false} FirstAttrNone(t: string, p: nat, key: string)
    requires forall p1: nat, v1: nat :: p <= p1 ==> !AttrAt(t, p1, key, v1)
    ensures FirstAttr(t, p, key) == None
    decreases |t| - p
  {
    if p < |t| {
      assert AttrEnd(t, p, key).None?;
      FirstAttrNone(t, p + 1, key);
    }
  }

  /** A found value is the value of a match, and no match starts earlier. */
  lemma {:induction false} FirstAttrSound(t: string, p: nat, key: string)
    requires FirstAttr(t, p, key).Some?
    ensures exists p0: nat, v: nat :: FirstAttrAt(t, p, key, p0, v)
    decreases |t| - p
  {
    match AttrEnd(t, p, key)
    case Some(v) =>
      assert FirstAttrAt(t, p, key, p, v);
    case None =>
      FirstAttrSound(t, p + 1, key);
      var p0: nat, v: nat :| FirstAttrAt(t, p + 1, key, p0, v);
      assert FirstAttrAt(t, p, key, p0, v);
  }

  ghost predicate FirstAttrAt(t: string, p: nat, key: string, p0: nat, v: nat) {
    && p <= p0 && AttrAt(t, p0, key, v)
    && (forall p1: nat, v1: nat :: p <= p1 < p0 ==> !AttrAt(t, p1, key, v1))
    && FirstAttr(t, p, key) == Some(t[p0 + |key|..v])
  }

  function AttrOrEmpty(tag: string, key: string): string {
    match FirstAttr(tag, 0, key)
    case Some(v) => v
    case None => ""
  }

  /** The template an image is rebuilt from. It holds a line break followed by twenty
      spaces, which the later newline pass turns into `<br>`. */
  function ImageTemplate(src: string, classes: string, alt: string): string {
    TemplateHead(src, classes) + "\n" + TemplateTail(alt)
  }

  /** The template before its line break, and after it. */
  function TemplateHead(src: string, classes: string): string {
    "<img src=\"" + src + "\" class=\"" + classes + " article-content-image\" "
  }

  function TemplateTail(alt: string): string {
    "                    " + "style=\"width: 50%; height: auto;\" alt=\"" + alt + "\">"
  }

  // ---- `/<img[^>]*src="([^"]+)"[^>]*>/g` ----

  /** `src="` at `a`, a non-empty value up to the quote at `v`, more attributes up to
      the `>` at `u`. */
  ghost predicate SrcTailAt(s: string, a: nat, v: nat, u: nat) {
    && At(s, a, "src=\"") && a + 5 < v < u < |s| && s[v] == '"' && s[u] == '>'
    && (forall q :: a + 5 <= q < v ==> s[q] != '"')
    && (forall q :: v < q < u ==> s[q] != '>')
  }

  /** The rest of the expression from `src="` at `a`: `[^"]+` and the second `[^>]*`
      are greedy and must be followed by `"` and `>`, so they stop at the first ones. */
  function SrcTail(s: string, a: nat): (r: Option<(nat, nat)>)
    ensures r.Some? ==> SrcTailAt(s, a, r.value.0, r.value.1)
  {
    if !At(s, a, "src=\"") then None
    else
      var v := Span(s, a + 5, NotQuote);
      if v == a + 5 || v == |s| then None
      else
        var u := Span(s, v + 1, NotGt);
        if u == |s| then None else Some((v, u))
  }

  /** The tail found is the only one. */
  lemma SrcTailComplete(s: string, a: nat, v: nat, u: nat)
    requires SrcTailAt(s, a, v, u)
    ensures SrcTail(s, a) == Some((v, u))
  {
  }

  /** The first `[^>]*` is greedy: it takes the longest stretch without `>` after which
      the rest matches, so the LAST suitable `src="` before the first `>` is used. */
  function LastSrc(s: string, lo: nat, a: nat): (r: Option<nat>)
    requires lo <= a
    ensures r.Some? ==> lo <= r.value <= a && SrcTail(s, r.value).Some? && NoTailIn(s, r.value + 1, a)
    ensures r.None? ==> NoTailIn(s, lo, a)
    decreases a - lo
  {
    if SrcTail(s, a).Some? then Some(a)
    else if a == lo then None
    else
      var r := LastSrc(s, lo, a - 1);
      NoTailExtend(s, if r.Some? then r.value + 1 else lo, a);
      r
  }

  /** No `src="` with a tail starts anywhere in `[lo, hi]`. */
  ghost predicate NoTailIn(s: string, lo: nat, hi: nat) {
    forall a1 :: lo <= a1 <= hi ==> SrcTail(s, a1).None?
  }

  lemma NoTailExtend(s: string, lo: nat, hi: nat)
    ensures hi > 0 && NoTailIn(s, lo, hi - 1) && SrcTail(s, hi).None? ==> NoTailIn(s, lo, hi)
  {
  }

  /** The end of the first `[^>]*` after `<img` at `i`: the first `>`, or the end. */
  function TagLimit(s: string, i: nat): (t: nat)
    requires i + 4 <= |s|
    ensures i + 4 <= t <= |s|
    ensures forall q :: i + 4 <= q < t ==> s[q] != '>'
    ensures t == |s| || s[t] == '>'
  {
    Span(s, i + 4, NotGt)
  }

  /** An image tag at `i` whose `src` starts at `a`, with its value ending at `v` and the
      tag at `u`: `a` comes before the first `>`, and no later `src="` before it would do. */
  ghost predicate ImageAt(s: string, i: nat, a: nat, v: nat, u: nat) {
    && At(s, i, "<img") && i + 4 <= a <= TagLimit(s, i) && SrcTailAt(s, a, v, u)
    && NoTailIn(s, a + 1, TagLimit(s, i))
  }

  /** The replacement for the tag `s[i..u + 1]` whose `src` value is `s[a + 5..v]`. */
  function Rebuilt(s: string, i: nat, a: nat, v: nat, u: nat): string
    requires i <= a + 5 <= v <= u < |s|
  {
    var tag := s[i..u + 1];
    ImageTemplate(s[a + 5..v], AttrOrEmpty(tag, "class=\""), AttrOrEmpty(tag, "alt=\""))
  }

  /** The match `s[i..u + 1]` and its replacement: the template with the `src` value and
      the first `class` and `alt` values found anywhere in the matched tag. */
  ghost predicate ImageMatch(s: string, i: nat, a: nat, v: nat, u: nat, mt: Match) {
    ImageAt(s, i, a, v, u)
    && mt == Match(u + 1, Rebuilt(s, i, a, v, u))
  }

  function MatchImage(s: string, i: nat): (r: Option<Match>)
    ensures r.Some? ==> i < r.value.end <= |s|
  {
    if !At(s, i, "<img") then None
    else
      match LastSrc(s, i + 4, TagLimit(s, i))
      case None => None
      case Some(a) =>
        var tail := SrcTail(s, a).value;
        Some(Match(tail.1 + 1, Rebuilt(s, i, a, tail.0, tail.1)))
  }

  /** A match is an image tag as `ImageAt` describes it, rebuilt from the template. */
  lemma ImageSound(s: string, i: nat)
    requires MatchImage(s, i).Some?
    ensures exists a: nat, v: nat, u: nat :: ImageMatch(s, i, a, v, u, MatchImage(s, i).value)
  {
    var a := LastSrc(s, i + 4, TagLimit(s, i)).value;
    var (v, u) := SrcTail(s, a).value;
    assert SrcTailAt(s, a, v, u);
    assert ImageAt(s, i, a, v, u);
    assert ImageMatch(s, i, a, v, u, MatchImage(s, i).value);
  }

  /** Every image tag as `ImageAt` describes it is matched. */
  lemma ImageComplete(s: string, i: nat, a: nat, v: nat, u: nat)
    requires ImageAt(s, i, a, v, u)
    ensures MatchImage(s, i).Some? && ImageMatch(s, i, a, v, u, MatchImage(s, i).value)
  {
    SrcTailComplete(s, a, v, u);
    LastSrcFinds(s, i + 4, TagLimit(s, i), a);
  }

  lemma LastSrcFinds(s: string, lo: nat, t: nat, a: nat)
    requires lo <= a <= t && SrcTail(s, a).Some?
    requires forall a1 :: a < a1 <= t ==> SrcTail(s, a1).None?
    ensures LastSrc(s, lo, t) == Some(a)
  {
  }

  lemma ImageProgressive()
    ensures Progressive(MatchImage)
  {
  }

  /** Pass three: `.replace(/<img[^>]*src="([^"]+)"[^>]*>/g, ...)`. */
  function Images(s: string): string {
    ImageProgressive();
    ReplaceAll(s, MatchImage)
  }

  /** `pre`, `v` and `post` as the parts of an image tag around its `src` value. */
  function TagText(pre: string, v: string, post: string): string {
    "<img" + pre + "src=\"" + v + "\"" + post + ">"
  }

  /** Where the pieces of an image tag in context lie. */
  lemma ImageLayout(s: string, x: string, pre: string, v: string, post: string, y: string)
    requires s == x + TagText(pre, v, post) + y
    ensures var i := |x|;
            var a := i + 4 + |pre|;
            var c := a + 5 + |v|;
            var u := c + 1 + |post|;
            && u < |s| && At(s, i, "<img") && At(s, a, "src=\"") && s[c] == '"' && s[u] == '>'
            && s[..i] == x && s[u + 1..] == y && s[i..u + 1] == TagText(pre, v, post) && s[a + 5..c] == v
            && (forall q :: i + 4 <= q < a ==> s[q] == pre[q - i - 4])
            && (forall q :: a + 5 <= q < c ==> s[q] == v[q - a - 5])
            && (forall q :: c < q < u ==> s[q] == post[q - c - 1])
  {
    var tag := TagText(pre, v, post);
    var i := |x|;
    var a := i + 4 + |pre|;
    var c := a + 5 + |v|;
    var u := c + 1 + |post|;
    assert s[i..u + 1] == tag;
    assert tag[..4] == "<img";
    assert tag[4 + |pre|..9 + |pre|] == "src=\"";
    assert tag[9 + |pre|..9 + |pre| + |v|] == v;
  }

  /** With no `src="` ending at the value's closing quote and none between that quote and
      the tag's `>`, no `src="` after the first one has a tail before the tag ends. */
  lemma NoLaterSrc(s: string, i: nat, a: nat, c: nat, u: nat)
    requires i + 4 <= a && At(s, a, "src=\"") && c == Span(s, a + 5, NotQuote)
    requires c < u < |s| && s[c] == '"' && s[u] == '>'
    requires !At(s, c - 4, "src=\"")
    requires forall a1 :: c < a1 < u ==> !At(s, a1, "src=\"")
    ensures forall a1 :: a < a1 <= TagLimit(s, i) ==> SrcTail(s, a1).None?
  {
    forall a1 | a < a1 <= TagLimit(s, i)
      ensures SrcTail(s, a1).None?
    {
      if SrcTail(s, a1).Some? {
        AtIndex(s, a1, "src=\"", 0);
        if a1 < a + 5 {
          AtIndex(s, a, "src=\"", a1 - a);
        } else if a1 + 4 < c {
          AtIndex(s, a1, "src=\"", 4);
        } else if a1 + 4 > c && a1 <= c {
          AtIndex(s, a1, "src=\"", c - a1);
        }
      }
    }
  }

  /** A value that does not end in `src=` leaves no `src="` ending at its closing quote. */
  lemma ValueEndNotSrc(s: string, a: nat, c: nat, v: string)
    requires At(s, a, "src=\"") && v != [] && c == a + 5 + |v| <= |s| && s[a + 5..c] == v
    requires NoSrcEnd(v)
    ensures !At(s, c - 4, "src=\"")
  {
    if At(s, c - 4, "src=\"") {
      AtIndex(s, c - 4, "src=\"", 0);
      if c - 4 < a + 5 {
        AtIndex(s, a, "src=\"", c - 4 - a);
      } else {
        forall k | 0 <= k < 4
          ensures v[|v| - 4 + k] == "src="[k]
        {
          AtIndex(s, c - 4, "src=\"", k);
          assert s[a + 5..c][|v| - 4 + k] == s[c - 4 + k];
        }
        assert false;
      }
    }
  }

  /** Text after the value without `src="` holds no `src="` before the tag's `>`. */
  lemma PostNoSrc(s: string, c: nat, u: nat, post: string)
    requires c < u < |s| && s[u] == '>' && u == c + 1 + |post|
    requires forall q :: c < q < u ==> s[q] == post[q - c - 1]
    requires !Contains(post, "src=\"")
    ensures forall a1 :: c < a1 < u ==> !At(s, a1, "src=\"")
  {
    forall a1 | c < a1 < u
      ensures !At(s, a1, "src=\"")
    {
      if At(s, a1, "src=\"") {
        if a1 + 5 > u {
          AtIndex(s, a1, "src=\"", u - a1);
        } else {
          var k := a1 - c - 1;
          assert post[k..k + 5] == s[a1..a1 + 5];
          assert At(post, k, "src=\"");
        }
      }
    }
  }

  /** The value does not end in `src=`. */
  predicate NoSrcEnd(v: string) {
    !(|v| >= 4 && v[|v| - 4..] == "src=")
  }

  /** The conditions under which a tag in context is matched as a whole. */
  predicate PlainImage(x: string, pre: string, v: string, post: string, y: string) {
    && '<' !in x && '<' !in y && '>' !in pre
    && v != [] && '"' !in v && NoSrcEnd(v)
    && !Contains(post, "src=\"") && '>' !in post
  }

  /** The tag in context is an image tag as `ImageAt` describes it. */
  lemma ImageInTextAt(s: string, x: string, pre: string, v: string, post: string, y: string)
    requires s == x + TagText(pre, v, post) + y && PlainImage(x, pre, v, post, y)
    ensures var a := |x| + 4 + |pre|;
            var c := a + 5 + |v|;
            ImageAt(s, |x|, a, c, c + 1 + |post|)
  {
    var i := |x|;
    var a := i + 4 + |pre|;
    var c := a + 5 + |v|;
    var u := c + 1 + |post|;
    ImageLayout(s, x, pre, v, post, y);
    ImageFromParts(s, i, a, c, u, pre, v, post);
  }

  /** An image tag laid out piece by piece, with the conditions of `PlainImage` on its
      pieces, is an image tag as `ImageAt` describes it. */
  lemma ImageFromParts(s: string, i: nat, a: nat, c: nat, u: nat, pre: string, v: string, post: string)
    requires a == i + 4 + |pre| && c == a + 5 + |v| && u == c + 1 + |post|
    requires u < |s| && At(s, i, "<img") && At(s, a, "src=\"") && s[c] == '"' && s[u] == '>'
    requires s[a + 5..c] == v
    requires forall q :: i + 4 <= q < a ==> s[q] == pre[q - i - 4]
    requires forall q :: a + 5 <= q < c ==> s[q] == v[q - a - 5]
    requires forall q :: c < q < u ==> s[q] == post[q - c - 1]
    requires '>' !in pre && v != [] && '"' !in v && NoSrcEnd(v)
    requires !Contains(post, "src=\"") && '>' !in post
    ensures ImageAt(s, i, a, c, u)
  {
    assert Span(s, a + 5, NotQuote) == c;
    assert SrcTailAt(s, a, c, u);
    assert TagLimit(s, i) >= a by {
      assert forall q :: i + 4 <= q < a ==> s[q] != '>';
    }
    ValueEndNotSrc(s, a, c, v);
    PostNoSrc(s, c, u, post);
    NoLaterSrc(s, i, a, c, u);
  }

  lemma Around(s: string, x: string, t: string, y: string)
    requires s == x + t + y
    ensures s[0..|x|] == x && s[|x| + |t|..|s|] == y
  {
  }

  /** No image match starts where there is no `<`. */
  lemma NoImageWithoutLt(s: string, lo: nat, hi: nat)
    requires lo <= hi <= |s| && '<' !in s[lo..hi]
    ensures forall q :: lo <= q < hi ==> MatchImage(s, q).None?
  {
    forall q | lo <= q < hi
      ensures MatchImage(s, q).None?
    {
      assert s[q] == s[lo..hi][q - lo];
      NotAtHead(s, q, "<img");
    }
  }

  /** Where an image tag ends. */
  lemma ImageEnd(s: string, i: nat, a: nat, v: nat, u: nat)
    requires ImageAt(s, i, a, v, u)
    ensures MatchImage(s, i).Some? && MatchImage(s, i).value.end == u + 1
  {
    SrcTailComplete(s, a, v, u);
    LastSrcFinds(s, i + 4, TagLimit(s, i), a);
  }

  lemma ImageInTextReplaced(s: string, x: string, pre: string, v: string, post: string, y: string)
    requires s == x + TagText(pre, v, post) + y && PlainImage(x, pre, v, post, y)
    ensures MatchImage(s, |x|).Some? && Images(s) == x + MatchImage(s, |x|).value.replacement + y
  {
    var i := |x|;
    var a := i + 4 + |pre|;
    var c := a + 5 + |v|;
    var u := c + 1 + |post|;
    ImageInTextAt(s, x, pre, v, post, y);
    ImageEnd(s, i, a, c, u);
    ImageProgressive();
    Around(s, x, TagText(pre, v, post), y);
    NoImageWithoutLt(s, 0, i);
    NoImageWithoutLt(s, u + 1, |s|);
    ReplaceOne(s, MatchImage, i);
  }

  /** One image tag in text without other tags is rebuilt from the template; its `class`
      and `alt` values are those of the original tag. */
  lemma ImageInText(x: string, pre: string, v: string, post: string, y: string)
    requires PlainImage(x, pre, v, post, y)
    ensures var tag := TagText(pre, v, post);
            Images(x + tag + y)
            == x + ImageTemplate(v, AttrOrEmpty(tag, "class=\""), AttrOrEmpty(tag, "alt=\"")) + y
  {
    var tag := TagText(pre, v, post);
    var s := x + tag + y;
    var a := |x| + 4 + |pre|;
    var c := a + 5 + |v|;
    var u := c + 1 + |post|;
    ImageInTextAt(s, x, pre, v, post, y);
    ImageComplete(s, |x|, a, c, u);
    ImageInTextReplaced(s, x, pre, v, post, y);
    ImageLayout(s, x, pre, v, post, y);
    RebuiltFrom(s, |x|, a, c, u, tag, v);
  }

  lemma RebuiltFrom(s: string, i: nat, a: nat, v: nat, u: nat, tag: string, src: string)
    requires i <= a + 5 <= v <= u < |s| && s[i..u + 1] == tag && s[a + 5..v] == src
    ensures Rebuilt(s, i, a, v, u) == ImageTemplate(src, AttrOrEmpty(tag, "class=\""), AttrOrEmpty(tag, "alt=\""))
  {
  }

  // ---- `/src="(?!http|\/\/|data:)(.*?)"/g` and `/href="(?!http|\/\/|mailto:|#)(.*?)"/g` ----

  const SrcKey := "src=\""
  const HrefKey := "href=\""
  /** The prefixes the look-ahead of the `src` pass refuses. */
  const SrcAbsolute := ["http", "//", "data:"]
  /** The prefixes the look-ahead of the `href` pass refuses. */
  const HrefAbsolute := ["http", "//", "mailto:", "#"]
  const UpTwo := "../../"

  /** Does one of `prefixes` occur at `p`? */
  predicate Absolute(s: string, p: nat, prefixes: seq<string>) {
    exists k :: 0 <= k < |prefixes| && At(s, p, prefixes[k])
  }

  function NotQuoteOrBreak(c: char): bool { c != '"' && !IsLineTerminator(c) }

  /** `key` at `i` not followed by an absolute prefix, then a value of characters other
      than quotes and line breaks (`.*?` is lazy and stops at the first quote) up to the
      quote at `k`. */
  ghost predicate RelativeAt(s: string, i: nat, key: string, prefixes: seq<string>, k: nat) {
    && At(s, i, key) && !Absolute(s, i + |key|, prefixes)
    && i + |key| <= k < |s| && s[k] == '"'
    && forall q :: i + |key| <= q < k ==> NotQuoteOrBreak(s[q])
  }

  /** The match and its replacement: the same attribute with `../../` before the value. */
  ghost predicate RelativeMatch(s: string, i: nat, key: string, prefixes: seq<string>, k: nat, mt: Match) {
    RelativeAt(s, i, key, prefixes, k) && mt == Match(k + 1, key + UpTwo + s[i + |key|..k] + "\"")
  }

  function MatchRelative(s: string, i: nat, key: string, prefixes: seq<string>): (r: Option<Match>)
    ensures r.Some? ==> i < r.value.end <= |s|
  {
    if !At(s, i, key) || Absolute(s, i + |key|, prefixes) then None
    else
      var k := Span(s, i + |key|, NotQuoteOrBreak);
      if k < |s| && s[k] == '"' then Some(Match(k + 1, key + UpTwo + s[i + |key|..k] + "\""))
      else None
  }

  /** What a match is. */
  lemma RelativeSound(s: string, i: nat, key: string, prefixes: seq<string>)
    requires MatchRelative(s, i, key, prefixes).Some?
    ensures exists k: nat :: RelativeMatch(s, i, key, prefixes, k, MatchRelative(s, i, key, prefixes).value)
  {
    var k := Span(s, i + |key|, NotQuoteOrBreak);
    assert RelativeMatch(s, i, key, prefixes, k, MatchRelative(s, i, key, prefixes).value);
  }

  /** Every relative value is matched. */
  lemma RelativeComplete(s: string, i: nat, key: string, prefixes: seq<string>, k: nat)
    requires RelativeAt(s, i, key, prefixes, k)
    ensures MatchRelative(s, i, key, prefixes).Some?
            && RelativeMatch(s, i, key, prefixes, k, MatchRelative(s, i, key, prefixes).value)
  {
    assert Span(s, i + |key|, NotQuoteOrBreak) == k;
  }

  function MatchSrc(s: string, i: nat): (r: Option<Match>)
    ensures r.Some? ==> i < r.value.end <= |s|
  {
    MatchRelative(s, i, SrcKey, SrcAbsolute)
  }

  function MatchHref(s: string, i: nat): (r: Option<Match>)
    ensures r.Some? ==> i < r.value.end <= |s|
  {
    MatchRelative(s, i, HrefKey, HrefAbsolute)
  }

  lemma RelativeProgressive()
    ensures Progressive(MatchSrc) && Progressive(MatchHref)
  {
  }

  /** Pass four: `src` values that are not absolute are made relative to the root. */
  function RelativeSrc(s: string): string {
    RelativeProgressive();
    ReplaceAll(s, MatchSrc)
  }

  /** Pass five: the same for `href`. */
  function RelativeHref(s: string): string {
    RelativeProgressive();
    ReplaceAll(s, MatchHref)
  }

  /** Text without a quote holds no attribute value, so both passes leave it alone. */
  lemma NoQuoteUnchanged(s: string)
    requires '"' !in s
    ensures RelativeHref(RelativeSrc(s)) == s
  {
    RelativeProgressive();
    forall q | 0 <= q < |s|
      ensures MatchSrc(s, q).None? && MatchHref(s, q).None?
    {
      NotAtIndex(s, q, SrcKey, 4);
      NotAtIndex(s, q, HrefKey, 5);
    }
    NoMatchIdentity(s, MatchSrc);
    NoMatchIdentity(s, MatchHref);
  }

  /** Does the attribute value `v` start with one of `prefixes`? */
  predicate AbsoluteValue(v: string, prefixes: seq<string>) {
    exists k :: 0 <= k < |prefixes| && |prefixes[k]| <= |v| && v[..|prefixes[k]|] == prefixes[k]
  }

  /** A prefix without quotes occurs before a quoted value's closing quote exactly when
      the value starts with it. */
  lemma AbsoluteBeforeQuote(s: string, p: nat, v: string, prefixes: seq<string>)
    requires p + |v| < |s| && s[p..p + |v|] == v && s[p + |v|] == '"'
    requires forall k :: 0 <= k < |prefixes| ==> '"' !in prefixes[k]
    ensures Absolute(s, p, prefixes) <==> AbsoluteValue(v, prefixes)
  {
    if Absolute(s, p, prefixes) {
      var k :| 0 <= k < |prefixes| && At(s, p, prefixes[k]);
      var t := prefixes[k];
      if |t| > |v| {
        AtIndex(s, p, t, |v|);
      }
      assert v[..|t|] == s[p..p + |t|];
    }
    if AbsoluteValue(v, prefixes) {
      var k :| 0 <= k < |prefixes| && |prefixes[k]| <= |v| && v[..|prefixes[k]|] == prefixes[k];
      assert s[p..p + |prefixes[k]|] == v[..|prefixes[k]|];
    }
  }

  /** A match needs a quote at the end of its key and a closing quote after it, so in a
      string with just two quotes it can only start where its key ends at the first. */
  lemma OnlyRelativeAt(s: string, key: string, prefixes: seq<string>, q: nat, p1: nat, c: nat)
    requires key != [] && key[|key| - 1] == '"'
    requires forall j :: 0 <= j < |s| && s[j] == '"' ==> j == p1 || j == c
    requires p1 < c && MatchRelative(s, q, key, prefixes).Some?
    ensures q + |key| - 1 == p1
  {
    RelativeSound(s, q, key, prefixes);
    var k: nat :| RelativeMatch(s, q, key, prefixes, k, MatchRelative(s, q, key, prefixes).value);
    AtIndex(s, q, key, |key| - 1);
  }

  /** Where the pieces of an attribute in context lie. */
  lemma AttributeLayout(s: string, x: string, key: string, v: string, y: string)
    requires s == x + key + v + "\"" + y
    requires key != [] && key[|key| - 1] == '"'
    requires '"' !in x && '"' !in key[..|key| - 1] && '"' !in v && '"' !in y
    ensures var c := |x| + |key| + |v|;
            && c < |s| && At(s, |x|, key) && s[c] == '"' && s[|x| + |key|..c] == v
            && s[c + 1..] == y
            && (forall j :: 0 <= j < |s| && s[j] == '"' ==> j == |x| + |key| - 1 || j == c)
  {
    var c := |x| + |key| + |v|;
    assert s[|x|..|x| + |key|] == key;
    assert s[|x| + |key|..c] == v;
    forall j | 0 <= j < |s| && j != |x| + |key| - 1 && j != c
      ensures s[j] != '"'
    {
      if j < |x| {
        assert s[j] == x[j];
      } else if j < |x| + |key| - 1 {
        assert s[j] == key[..|key| - 1][j - |x|];
      } else if j < c {
        assert s[j] == v[j - |x| - |key|];
      } else {
        assert s[j] == y[j - c - 1];
      }
    }
  }

  /** One quoted attribute value in text without other quotes: it gets the `../../`
      prefix unless it starts with one of the absolute prefixes, and then nothing changes. */
  lemma AttributeInText(s: string, x: string, key: string, v: string, y: string, prefixes: seq<string>)
    requires s == x + key + v + "\"" + y
    requires key != [] && key[|key| - 1] == '"'
    requires '"' !in x && '"' !in key[..|key| - 1] && '"' !in v && '"' !in y
    requires forall q :: 0 <= q < |v| ==> !IsLineTerminator(v[q])
    requires forall k :: 0 <= k < |prefixes| ==> '"' !in prefixes[k]
    ensures (forall j :: 0 <= j < |s| ==> MatchRelative(s, j, key, prefixes).Some? ==> j == |x|)
            && (AbsoluteValue(v, prefixes) <==> MatchRelative(s, |x|, key, prefixes).None?)
            && (!AbsoluteValue(v, prefixes) ==>
                  MatchRelative(s, |x|, key, prefixes) == Some(Match(|x| + |key| + |v| + 1, key + UpTwo + v + "\"")))
  {
    var i := |x|;
    var c := i + |key| + |v|;
    AttributeLayout(s, x, key, v, y);
    forall j | 0 <= j < |s| && MatchRelative(s, j, key, prefixes).Some?
      ensures j == i
    {
      OnlyRelativeAt(s, key, prefixes, j, i + |key| - 1, c);
    }
    AbsoluteBeforeQuote(s, i + |key|, v, prefixes);
    if !AbsoluteValue(v, prefixes) {
      assert forall q :: i + |key| <= q < c ==> NotQuoteOrBreak(s[q]);
      RelativeComplete(s, i, key, prefixes, c);
    }
  }

  /** Both keys end in their only quote, and no absolute prefix holds a quote. */
  lemma KeyFacts()
    ensures SrcKey != [] && SrcKey[|SrcKey| - 1] == '"' && '"' !in SrcKey[..|SrcKey| - 1]
    ensures HrefKey != [] && HrefKey[|HrefKey| - 1] == '"' && '"' !in HrefKey[..|HrefKey| - 1]
    ensures forall k :: 0 <= k < |SrcAbsolute| ==> '"' !in SrcAbsolute[k]
    ensures forall k :: 0 <= k < |HrefAbsolute| ==> '"' !in HrefAbsolute[k]
  {
    assert SrcKey[..|SrcKey| - 1] == "src=";
    assert HrefKey[..|HrefKey| - 1] == "href=";
  }

  /** The `src` pass on one attribute in text without other quotes. */
  lemma SrcInText(x: string, v: string, y: string)
    requires '"' !in x && '"' !in v && '"' !in y
    requires forall q :: 0 <= q < |v| ==> !IsLineTerminator(v[q])
    ensures RelativeSrc(x + SrcKey + v + "\"" + y)
            == if AbsoluteValue(v, SrcAbsolute) then x + SrcKey + v + "\"" + y
               else x + SrcKey + UpTwo + v + "\"" + y
  {
    var s := x + SrcKey + v + "\"" + y;
    var t, r := SrcKey + v + "\"", SrcKey + UpTwo + v + "\"";
    KeyFacts();
    AttributeInText(s, x, SrcKey, v, y, SrcAbsolute);
    RelativeProgressive();
    assert s == x + t + y && |t| == |SrcKey| + |v| + 1;
    assert x + r + y == x + SrcKey + UpTwo + v + "\"" + y;
    assert forall j :: 0 <= j < |s| ==> MatchSrc(s, j) == MatchRelative(s, j, SrcKey, SrcAbsolute);
    Rewritten(s, MatchSrc, x, t, y, r);
  }

  /** The `href` pass on one attribute in text without other quotes. */
  lemma HrefInText(x: string, v: string, y: string)
    requires '"' !in x && '"' !in v && '"' !in y
    requires forall q :: 0 <= q < |v| ==> !IsLineTerminator(v[q])
    ensures RelativeHref(x + HrefKey + v + "\"" + y)
            == if AbsoluteValue(v, HrefAbsolute) then x + HrefKey + v + "\"" + y
               else x + HrefKey + UpTwo + v + "\"" + y
  {
    var s := x + HrefKey + v + "\"" + y;
    var t, r := HrefKey + v + "\"", HrefKey + UpTwo + v + "\"";
    KeyFacts();
    AttributeInText(s, x, HrefKey, v, y, HrefAbsolute);
    RelativeProgressive();
    assert s == x + t + y && |t| == |HrefKey| + |v| + 1;
    assert x + r + y == x + HrefKey + UpTwo + v + "\"" + y;
    assert forall j :: 0 <= j < |s| ==> MatchHref(s, j) == MatchRelative(s, j, HrefKey, HrefAbsolute);
    Rewritten(s, MatchHref, x, t, y, r);
  }

  /** In `x + t + y`, where a match can only start at `|x|`: either none starts there and
      nothing changes, or one covering `t` replaces it. */
  lemma Rewritten(s: string, m: Matcher, x: string, t: string, y: string, r: string)
    requires Progressive(m) && s == x + t + y && t != []
    requires forall j :: 0 <= j < |s| ==> m(s, j).Some? ==> j == |x|
    requires m(s, |x|).Some? ==> m(s, |x|) == Some(Match(|x| + |t|, r))
    ensures ReplaceAll(s, m) == if m(s, |x|).None? then s else x + r + y
  {
    if m(s, |x|).None? {
      NoMatchIdentity(s, m);
    } else {
      ReplaceOne(s, m, |x|);
      assert s[..|x|] == x && s[|x| + |t|..] == y;
    }
  }

  /** `t` is not a prefix of `v` when they differ at `j`. */
  lemma NotPrefixAt(v: string, t: string, j: nat)
    requires j < |t| && (j < |v| ==> v[j] != t[j])
    ensures !(|t| <= |v| && v[..|t|] == t)
  {
    if |t| <= |v| {
      assert v[..|t|][j] == v[j];
    }
  }

  /** A root-relative link (one slash, not two) is not taken as absolute, so the prefix
      goes before its slash and the result has two slashes in a row. */
  lemma HrefRootRelative(x: string, rest: string, y: string)
    requires '"' !in x && '"' !in rest && '"' !in y
    requires forall q :: 0 <= q < |rest| ==> !IsLineTerminator(rest[q])
    requires rest == [] || rest[0] != '/'
    ensures RelativeHref(x + HrefKey + "/" + rest + "\"" + y) == x + HrefKey + "../..//" + rest + "\"" + y
  {
    var v := "/" + rest;
    RootRelativeValue(rest);
    HrefInText(x, v, y);
    Assoc(x + HrefKey, "/", rest);
    PrefixedRoot(x + HrefKey, rest);
  }

  /** The prefix before a leading slash. */
  lemma PrefixedRoot(p: string, rest: string)
    ensures p + UpTwo + ("/" + rest) == p + "../..//" + rest
  {
    assert UpTwo + "/" == "../..//";
    Assoc(p, UpTwo, "/" + rest);
    Assoc(UpTwo, "/", rest);
    Assoc(p, "../..//", rest);
  }

  /** A value with one leading slash starts with none of the absolute prefixes of `href`. */
  lemma RootRelativeValue(rest: string)
    requires forall q :: 0 <= q < |rest| ==> !IsLineTerminator(rest[q])
    requires rest == [] || rest[0] != '/'
    ensures !AbsoluteValue("/" + rest, HrefAbsolute)
    ensures forall q :: 0 <= q < |"/" + rest| ==> !IsLineTerminator(("/" + rest)[q])
  {
    var v := "/" + rest;
    NotPrefixAt(v, HrefAbsolute[0], 0);
    NotPrefixAt(v, HrefAbsolute[1], 1);
    NotPrefixAt(v, HrefAbsolute[2], 0);
    NotPrefixAt(v, HrefAbsolute[3], 0);
    forall q | 0 <= q < |v|
      ensures !IsLineTerminator(v[q])
    {
      if q > 0 {
        assert v[q] == rest[q - 1];
      }
    }
  }
}
