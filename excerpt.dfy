/** `ContentCleaner.cleanExcerpt`: image tags are put inside HTML comments, every tag
    whose name does not begin with `em`, `strong`, `b` or `i` is deleted, and the result
    is trimmed. */
module Excerpt {
  import opened Text
  import opened Rewrite

  // ---- `/<img[^>]*>/g` replaced by `'<!-- $& -->'` ----

  /** `<img` up to the first `>` after it. */
  function MatchImageTag(s: string, i: nat): (r: Option<Match>)
    ensures r.Some? ==> i + 5 <= r.value.end <= |s|
    ensures r.Some? ==> var e := r.value.end;
                        && At(s, i, "<img") && s[e - 1] == '>'
                        && (forall q :: i + 4 <= q < e - 1 ==> s[q] != '>')
                        && r.value.replacement == "<!-- " + s[i..e] + " -->"
  {
    if !At(s, i, "<img") then None
    else
      var e := Span(s, i + 4, NotGt);
      if e < |s| then Some(Match(e + 1, "<!-- " + s[i..e + 1] + " -->")) else None
  }

  /** The match ends at the first `>`: `[^>]*` can neither stop early nor pass a `>`. */
  lemma ImageTagComplete(s: string, i: nat, e: nat)
    requires At(s, i, "<img") && i + 4 <= e < |s| && s[e] == '>'
    requires forall q :: i + 4 <= q < e ==> s[q] != '>'
    ensures MatchImageTag(s, i) == Some(Match(e + 1, "<!-- " + s[i..e + 1] + " -->"))
  {
    assert Span(s, i + 4, NotGt) == e;
  }

  lemma ImageTagProgressive()
    ensures Progressive(MatchImageTag)
  {
  }

  function CommentImages(s: string): string {
    ImageTagProgressive();
    ReplaceAll(s, MatchImageTag)
  }

  // ---- `/<(?!\/?(em|strong|b|i))[^>]+>/g` replaced by `''` ----

  /** Does a tag name on the allow-list begin at `p`? The alternatives are tried as
      prefixes: nothing requires the name to end after them. */
  predicate AllowedName(s: string, p: int) {
    At(s, p, "em") || At(s, p, "strong") || At(s, p, "b") || At(s, p, "i")
  }

  /** The look-ahead `\/?(em|strong|b|i)` at `p`: the optional `/` is tried first taken,
      then left out. */
  predicate Allowed(s: string, p: nat) {
    AllowedName(s, p) || (p < |s| && s[p] == '/' && AllowedName(s, p + 1))
  }

  /** A `<` not followed by an allowed name, at least one character other than `>`,
      and the first `>` after them. */
  function MatchTag(s: string, i: nat): (r: Option<Match>)
    ensures r.Some? ==> i + 3 <= r.value.end <= |s| && r.value.replacement == ""
    ensures r.Some? ==> var e := r.value.end;
                        && s[i] == '<' && !Allowed(s, i + 1) && s[e - 1] == '>'
                        && forall q :: i + 1 <= q < e - 1 ==> s[q] != '>'
  {
    if i >= |s| || s[i] != '<' || Allowed(s, i + 1) then None
    else
      var e := Span(s, i + 1, NotGt);
      if i + 1 < e < |s| then Some(Match(e + 1, "")) else None
  }

  /** Every tag the look-ahead does not protect is matched up to its first `>`. */
  lemma TagComplete(s: string, i: nat, e: nat)
    requires i + 1 < e < |s| && s[i] == '<' && !Allowed(s, i + 1) && s[e] == '>'
    requires forall q :: i + 1 <= q < e ==> s[q] != '>'
    ensures MatchTag(s, i) == Some(Match(e + 1, ""))
  {
    assert Span(s, i + 1, NotGt) == e;
  }

  /** A protected `<`, and one with no `>` after it, are kept. */
  lemma TagNotMatched(s: string, i: nat)
    requires i < |s| && s[i] == '<'
    requires Allowed(s, i + 1) || forall q :: i < q < |s| ==> s[q] != '>'
    ensures MatchTag(s, i).None?
  {
  }

  lemma TagProgressive()
    ensures Progressive(MatchTag)
  {
  }

  function StripTags(s: string): string {
    TagProgressive();
    ReplaceAll(s, MatchTag)
  }

  /** `cleanExcerpt(excerpt)`; a missing or empty excerpt gives the empty string. */
  function CleanExcerpt(excerpt: Option<string>): (r: string)
    ensures excerpt.None? || excerpt == Some("") ==> r == ""
    ensures r == [] || (!IsSpace(r[0]) && !IsSpace(r[|r| - 1]))
  {
    match excerpt
    case None => ""
    case Some(text) =>
      if text == "" then "" else Trim(StripTags(CommentImages(text)))
  }

  // ---- What the passes do to a tag inside text ----

  /** Whether a name is protected depends only on the text up to the `>` that ends
      the tag, since no allowed name holds a `>`. */
  lemma WordThrough(s: string, p: nat, u: string, k: nat, w: string)
    requires At(s, p, u) && k < |u| && u[|u| - 1] == '>' && w != [] && '>' !in w
    ensures At(s, p + k, w) <==> At(u, k, w)
  {
    if k + |w| <= |u| {
      var a, b := s[p + k..p + k + |w|], u[k..k + |w|];
      forall j | 0 <= j < |w|
        ensures a[j] == b[j]
      {
        AtIndex(s, p, u, k + j);
      }
      assert a == b;
    } else {
      var j := |u| - 1 - k;
      AtIndex(s, p, u, |u| - 1);
      assert w[j] in w;
      NotAtIndex(s, p + k, w, j);
    }
  }

  lemma AllowedThrough(s: string, p: nat, u: string)
    requires At(s, p, u) && u != [] && u[|u| - 1] == '>'
    ensures Allowed(s, p) <==> Allowed(u, 0)
  {
    WordThrough(s, p, u, 0, "em");
    WordThrough(s, p, u, 0, "strong");
    WordThrough(s, p, u, 0, "b");
    WordThrough(s, p, u, 0, "i");
    AtIndex(s, p, u, 0);
    if u[0] == '/' {
      WordThrough(s, p, u, 1, "em");
      WordThrough(s, p, u, 1, "strong");
      WordThrough(s, p, u, 1, "b");
      WordThrough(s, p, u, 1, "i");
    }
  }

  /** Text holding no `<` is left alone. */
  lemma NoTagWithoutLt(s: string, lo: nat, hi: nat)
    requires lo <= hi <= |s| && '<' !in s[lo..hi]
    ensures forall q :: lo <= q < hi ==> MatchTag(s, q).None?
  {
    assert forall q :: lo <= q < hi ==> s[q] == s[lo..hi][q - lo];
  }

  lemma TagLayout(s: string, x: string, name: string, y: string)
    requires s == x + "<" + name + ">" + y
    ensures var i := |x|; var e := i + 1 + |name|;
            && s[..i] == x && s[e + 1..] == y && s[i] == '<' && s[e] == '>'
            && s[0..i] == x && s[i + 1..e] == name && s[e + 1..|s|] == y
            && At(s, i + 1, name + ">")
            && forall q :: i + 1 <= q < e ==> s[q] == name[q - i - 1]
  {
    var i := |x|;
    assert s[i + 1..i + 2 + |name|] == name + ">";
  }

  /** A tag whose name is not protected disappears, and the text on both sides of it
      is kept. */
  lemma TagRemovedInText(x: string, name: string, y: string)
    requires '<' !in x && '<' !in y && name != [] && '>' !in name && !Allowed(name + ">", 0)
    ensures StripTags(x + "<" + name + ">" + y) == x + y
  {
    var s := x + "<" + name + ">" + y;
    var i := |x|;
    var e := i + 1 + |name|;
    TagLayout(s, x, name, y);
    AllowedThrough(s, i + 1, name + ">");
    forall q | i + 1 <= q < e
      ensures s[q] != '>'
    {
      assert name[q - i - 1] in name;
    }
    TagComplete(s, i, e);
    TagProgressive();
    NoTagWithoutLt(s, 0, i);
    NoTagWithoutLt(s, e + 1, |s|);
    ReplaceOne(s, MatchTag, i);
    var mt := MatchTag(s, i).value;
    assert mt.replacement == "" && mt.end == e + 1;
    calc {
      StripTags(s);
      s[..i] + mt.replacement + s[mt.end..];
      x + "" + y;
      { assert x + "" == x; }
      x + y;
    }
  }

  /** A tag whose name is protected is kept whole. */
  lemma TagKeptInText(x: string, name: string, y: string)
    requires '<' !in x && '<' !in y && '<' !in name && '>' !in name && Allowed(name + ">", 0)
    ensures StripTags(x + "<" + name + ">" + y) == x + "<" + name + ">" + y
  {
    var s := x + "<" + name + ">" + y;
    var i := |x|;
    var e := i + 1 + |name|;
    TagLayout(s, x, name, y);
    AllowedThrough(s, i + 1, name + ">");
    TagNotMatched(s, i);
    TagProgressive();
    NoTagWithoutLt(s, 0, i);
    NoTagWithoutLt(s, i + 1, e);
    NoTagWithoutLt(s, e + 1, |s|);
    forall q | 0 <= q < |s|
      ensures MatchTag(s, q).None?
    {
      if q == e {
        assert s[q] != '<';
      }
    }
    NoMatchIdentity(s, MatchTag);
  }

  /** The prefix test: `<script>` and `</div>` are removed, while `<strong>`, `</em>`,
      and also `<br>` and `<iframe>` (whose names merely begin with `b` and `i`), are
      kept. */
  lemma AllowList()
    ensures !Allowed("script>", 0) && !Allowed("/div>", 0) && !Allowed("div>", 0)
    ensures Allowed("strong>", 0) && Allowed("/em>", 0)
    ensures Allowed("br>", 0) && Allowed("iframe>", 0)
  {
    NotAtHead("script>", 0, "em");
    NotAtSecond("script>", 0, "strong");
    NotAtHead("script>", 0, "b");
    NotAtHead("script>", 0, "i");
    NotAtHead("/div>", 0, "em");
    NotAtHead("/div>", 0, "strong");
    NotAtHead("/div>", 0, "b");
    NotAtHead("/div>", 0, "i");
    NotAtHead("/div>", 1, "em");
    NotAtHead("/div>", 1, "strong");
    NotAtHead("/div>", 1, "b");
    NotAtHead("/div>", 1, "i");
    NotAtHead("div>", 0, "em");
    NotAtHead("div>", 0, "strong");
    NotAtHead("div>", 0, "b");
    NotAtHead("div>", 0, "i");
    assert At("strong>", 0, "strong") && At("/em>", 1, "em");
    assert At("br>", 0, "b") && At("iframe>", 0, "i");
  }

  /** The strip pass adds nothing: its output is made of characters of its input. */
  lemma StripOnlyDeletes(s: string)
    ensures multiset(StripTags(s)) <= multiset(s)
  {
    TagProgressive();
    OnlyDeletes(s, 0, MatchTag);
    assert s[0..] == s;
  }

  lemma ImageLayout(s: string, x: string, a: string, y: string)
    requires s == x + "<img" + a + ">" + y
    ensures var i := |x|; var e := i + 4 + |a|;
            && s[..i] == x && s[e + 1..] == y && At(s, i, "<img") && s[e] == '>'
            && s[i..e + 1] == "<img" + a + ">"
            && forall q :: i + 4 <= q < e ==> s[q] == a[q - i - 4]
  {
    var i := |x|;
    assert s[i..i + 4] == "<img";
  }

  lemma ImageCommentedAt(s: string, x: string, a: string, y: string)
    requires s == x + "<img" + a + ">" + y && '<' !in x && '<' !in y && '>' !in a
    ensures var i, e := |x|, |x| + 4 + |a|;
            CommentImages(s) == x + ("<!-- " + s[i..e + 1] + " -->") + y
  {
    var i := |x|;
    var e := i + 4 + |a|;
    ImageLayout(s, x, a, y);
    forall q | i + 4 <= q < e
      ensures s[q] != '>'
    {
      assert a[q - i - 4] in a;
    }
    ImageTagComplete(s, i, e);
    ImageTagProgressive();
    forall q | 0 <= q < i
      ensures MatchImageTag(s, q).None?
    {
      assert s[q] == s[..i][q];
      NotAtHead(s, q, "<img");
    }
    forall q | e + 1 <= q < |s|
      ensures MatchImageTag(s, q).None?
    {
      assert s[q] == s[e + 1..][q - e - 1];
      NotAtHead(s, q, "<img");
    }
    ReplaceOne(s, MatchImageTag, i);
  }

  /** One image tag in text without other tags is put inside a comment. */
  lemma ImageCommented(x: string, a: string, y: string)
    requires '<' !in x && '<' !in y && '>' !in a
    ensures CommentImages(x + "<img" + a + ">" + y) == x + "<!-- <img" + a + "> -->" + y
  {
    var s := x + "<img" + a + ">" + y;
    ImageCommentedAt(s, x, a, y);
    ImageLayout(s, x, a, y);
    CommentText(a);
    Regroup(x, "<!-- <img", a, "> -->", y);
  }

  lemma CommentText(a: string)
    ensures "<!-- " + ("<img" + a + ">") + " -->" == "<!-- <img" + a + "> -->"
  {
    assert "<!-- " + "<img" == "<!-- <img" && ">" + " -->" == "> -->";
  }

  /** The commented image read as a tag whose name starts with `!`. */
  lemma CommentAsTag(x: string, a: string, y: string)
    ensures x + "<!-- <img" + a + "> -->" + y == x + "<" + ("!-- <img" + a) + ">" + (" -->" + y)
  {
    assert "<!-- <img" == "<" + "!-- <img" && "> -->" == ">" + " -->";
  }

  /** The comment does not survive the strip pass: `<!` is not a protected name, so
      everything from `<!--` up to the image's own `>` is deleted and only ` -->` is
      left where the image was. No image, commented or not, reaches the excerpt. */
  lemma ImageLeavesCommentEnd(x: string, a: string, y: string)
    requires '<' !in x && '<' !in y && '>' !in a
    ensures CleanExcerpt(Some(x + "<img" + a + ">" + y)) == Trim(x + " -->" + y)
  {
    var s := x + "<img" + a + ">" + y;
    ImageCommented(x, a, y);
    var name := "!-- <img" + a;
    var c := x + "<" + name + ">" + (" -->" + y);
    CommentAsTag(x, a, y);
    assert '>' !in "!-- <img";
    var u := name + ">";
    assert u[0] == '!';
    NotAtHead(u, 0, "em");
    NotAtHead(u, 0, "strong");
    NotAtHead(u, 0, "b");
    NotAtHead(u, 0, "i");
    TagRemovedInText(x, name, " -->" + y);
    assert StripTags(c) == x + " -->" + y;
    assert s != "";
  }

  lemma NoImageIn(s: string)
    requires s == "<i<x>mg>"
    ensures CommentImages(s) == s
  {
    ImageTagProgressive();
    forall q | 0 <= q < |s|
      ensures MatchImageTag(s, q).None?
    {
      if q == 0 {
        NotAtIndex(s, 0, "<img", 2);
      } else if q == 2 {
        NotAtSecond(s, 2, "<img");
      } else {
        NotAtHead(s, q, "<img");
      }
    }
    NoMatchIdentity(s, MatchImageTag);
  }

  lemma StripJoins(s: string)
    requires s == "<i<x>mg>"
    ensures StripTags(s) == "<img>"
  {
    TagProgressive();
    assert At(s, 1, "i");
    TagNotMatched(s, 0);
    NotAtHead(s, 3, "em");
    NotAtHead(s, 3, "strong");
    NotAtHead(s, 3, "b");
    NotAtHead(s, 3, "i");
    TagComplete(s, 2, 4);
    assert MatchTag(s, 1).None? && MatchTag(s, 5).None? && MatchTag(s, 6).None? && MatchTag(s, 7).None?;
    ReplaceOne(s, MatchTag, 2);
    assert s[..2] + s[5..] == "<img>";
  }

  /** Deleting a tag joins the text around it, and that can form a tag the strip pass
      has already passed over: `<i<x>mg>` becomes `<img>`. */
  lemma StripCanFormImage()
    ensures CleanExcerpt(Some("<i<x>mg>")) == "<img>"
  {
    FormsImage("<i<x>mg>", "<img>");
  }

  lemma FormsImage(s: string, r: string)
    requires s == "<i<x>mg>" && r == "<img>"
    ensures CleanExcerpt(Some(s)) == r
  {
    NoImageIn(s);
    StripJoins(s);
    TrimUntouched(r);
    ExcerptUnchangedBy(s, r);
  }

  /** An excerpt without images whose stripped text needs no trimming comes out as that text. */
  lemma ExcerptUnchangedBy(s: string, r: string)
    requires s != "" && CommentImages(s) == s && StripTags(s) == r && Trim(r) == r
    ensures CleanExcerpt(Some(s)) == r
  {
  }
}
