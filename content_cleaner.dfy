/** `ContentCleaner.cleanContent`: the sixteen passes in the order the chain applies
    them, then `trim`. */
module ContentCleaner {
  import opened Text
  import opened Rewrite
  import Escape
  import CodePasses
  import UrlPasses
  import MarkdownPasses
  import LayoutPasses

  /** The chain of `.replace` calls, each pass working on the output of the previous. */
  function Transform(s: string): string {
    var code := CodePasses.InlineCode(CodePasses.FencedCode(s));
    var urls := UrlPasses.RelativeHref(UrlPasses.RelativeSrc(UrlPasses.Images(code)));
    var marked := MarkdownPasses.Italic(MarkdownPasses.Bold(MarkdownPasses.Links(MarkdownPasses.Headers(urls))));
    var listed := MarkdownPasses.FixEntities(MarkdownPasses.WrapLists(MarkdownPasses.ListItems(marked)));
    var broken := LayoutPasses.LineBreaks(LayoutPasses.ParagraphBreaks(listed));
    LayoutPasses.RemoveEmptyParagraphs(LayoutPasses.WrapParagraphs(broken))
  }

  /** `trim` keeps no character that was not there. */
  lemma TrimKeepsNoNewline(t: string)
    requires '\n' !in t
    ensures '\n' !in Trim(t)
  {
    var r := Trim(t);
    var a :| TrimmedAt(t, r, a);
    assert forall k :: 0 <= k < |r| ==> r[k] == t[a + k];
  }

  /** The last passes leave no `\n`. */
  lemma TransformNoNewline(s: string)
    ensures '\n' !in Transform(s)
  {
    var code := CodePasses.InlineCode(CodePasses.FencedCode(s));
    var urls := UrlPasses.RelativeHref(UrlPasses.RelativeSrc(UrlPasses.Images(code)));
    var marked := MarkdownPasses.Italic(MarkdownPasses.Bold(MarkdownPasses.Links(MarkdownPasses.Headers(urls))));
    var listed := MarkdownPasses.FixEntities(MarkdownPasses.WrapLists(MarkdownPasses.ListItems(marked)));
    var broken := LayoutPasses.LineBreaks(LayoutPasses.ParagraphBreaks(listed));
    LayoutPasses.LineBreaksRemoveNewlines(LayoutPasses.ParagraphBreaks(listed));
    LayoutPasses.WrapKeepsNoNewline(broken);
    LayoutPasses.RemoveKeepsNoNewline(LayoutPasses.WrapParagraphs(broken));
  }

  /** `cleanContent(content)`: a missing or empty content gives the empty string; the
      result holds no `\n` and neither starts nor ends with white space. */
  function CleanContent(content: Option<string>): (r: string)
    ensures content.None? || content == Some("") ==> r == ""
    ensures '\n' !in r
    ensures Trimmed(r)
  {
    if content.None? || content.value == "" then ""
    else
      TransformNoNewline(content.value);
      Finish(Transform(content.value))
  }

  /** The closing `trim`: it leaves no `\n` where there was none. */
  function Finish(t: string): (r: string)
    requires '\n' !in t
    ensures '\n' !in r
    ensures Trimmed(r)
  {
    TrimKeepsNoNewline(t);
    Trim(t)
  }

  // ---- Plain text goes through every pass untouched and is wrapped in one paragraph ----

  /** A character none of the passes reacts to. */
  predicate PlainChar(c: char) {
    c != '`' && c != '<' && c != '"' && c != '#' && c != '[' && c != '*' && c != '-'
    && c != '&' && !IsLineTerminator(c)
  }

  predicate Plain(s: string) {
    forall q :: 0 <= q < |s| ==> PlainChar(s[q])
  }

  lemma CodeUntouched(s: string)
    requires Plain(s)
    ensures CodePasses.InlineCode(CodePasses.FencedCode(s)) == s
  {
    CodePasses.FenceProgressive();
    CodePasses.InlineProgressive();
    forall q | 0 <= q < |s|
      ensures CodePasses.MatchFence(s, q).None? && CodePasses.MatchInline(s, q).None?
    {
      NotAtHead(s, q, "```");
    }
    NoMatchIdentity(s, CodePasses.MatchFence);
    NoMatchIdentity(s, CodePasses.MatchInline);
  }

  /** A link is built from `[t](u)` after the `src`/`href` passes have run, so its
      address is not made relative: it keeps `u` exactly, without `../../`. */
  lemma LinkNotRewritten(x: string, t: string, u: string, y: string)
    requires '"' !in x && '"' !in t && '"' !in u && '"' !in y
    requires '[' !in x && '[' !in y && t != [] && u != [] && ']' !in t && ')' !in u
    ensures MarkdownPasses.Links(UrlPasses.RelativeHref(UrlPasses.RelativeSrc(x + "[" + t + "](" + u + ")" + y)))
            == x + "<a href=\"" + u + "\">" + t + "</a>" + y
  {
    var s := x + "[" + t + "](" + u + ")" + y;
    assert '"' !in s;
    UrlPasses.NoQuoteUnchanged(s);
    MarkdownPasses.LinkInText(x, t, u, y);
  }

  lemma UrlsUntouched(s: string)
    requires Plain(s)
    ensures UrlPasses.RelativeHref(UrlPasses.RelativeSrc(UrlPasses.Images(s))) == s
  {
    UrlPasses.ImageProgressive();
    UrlPasses.RelativeProgressive();
    assert UrlPasses.SrcKey[4] == '"' && UrlPasses.HrefKey[5] == '"';
    forall q | 0 <= q < |s|
      ensures UrlPasses.MatchImage(s, q).None?
      ensures UrlPasses.MatchSrc(s, q).None? && UrlPasses.MatchHref(s, q).None?
    {
      NotAtHead(s, q, "<img");
      NotAtIndex(s, q, UrlPasses.SrcKey, 4);
      NotAtIndex(s, q, UrlPasses.HrefKey, 5);
    }
    NoMatchIdentity(s, UrlPasses.MatchImage);
    NoMatchIdentity(s, UrlPasses.MatchSrc);
    NoMatchIdentity(s, UrlPasses.MatchHref);
  }

  lemma MarkdownUntouched(s: string)
    requires Plain(s)
    ensures MarkdownPasses.Italic(MarkdownPasses.Bold(MarkdownPasses.Links(MarkdownPasses.Headers(s)))) == s
  {
    MarkdownPasses.HeaderProgressive();
    MarkdownPasses.LinkProgressive();
    MarkdownPasses.EmphasisProgressive();
    forall q | 0 <= q < |s|
      ensures MarkdownPasses.MatchHeader(s, q).None? && MarkdownPasses.MatchLink(s, q).None?
      ensures MarkdownPasses.MatchBold(s, q).None? && MarkdownPasses.MatchItalic(s, q).None?
    {
      assert Span(s, q, MarkdownPasses.IsHash) == q;
      NotAtHead(s, q, "**");
    }
    NoMatchIdentity(s, MarkdownPasses.MatchHeader);
    NoMatchIdentity(s, MarkdownPasses.MatchLink);
    NoMatchIdentity(s, MarkdownPasses.MatchBold);
    NoMatchIdentity(s, MarkdownPasses.MatchItalic);
  }

  lemma ListsUntouched(s: string)
    requires Plain(s)
    ensures MarkdownPasses.FixEntities(MarkdownPasses.WrapLists(MarkdownPasses.ListItems(s))) == s
  {
    MarkdownPasses.ItemProgressive();
    MarkdownPasses.ListProgressive();
    MarkdownPasses.EntityProgressive();
    forall q | 0 <= q < |s|
      ensures MarkdownPasses.MatchItem(s, q).None? && MarkdownPasses.MatchList(s, q).None?
      ensures MarkdownPasses.MatchEntity(s, q).None?
    {
      NotAtHead(s, q, "<li>");
      NotAtHead(s, q, "&amp;");
    }
    NoMatchIdentity(s, MarkdownPasses.MatchItem);
    NoMatchIdentity(s, MarkdownPasses.MatchList);
    NoMatchIdentity(s, MarkdownPasses.MatchEntity);
  }

  lemma BreaksUntouched(s: string)
    requires Plain(s)
    ensures LayoutPasses.LineBreaks(LayoutPasses.ParagraphBreaks(s)) == s
  {
    LayoutPasses.BreaksProgressive();
    NoMatchIdentity(s, LayoutPasses.MatchParagraphBreak);
    NoMatchIdentity(s, LayoutPasses.MatchLineBreak);
  }

  /** The paragraph built around plain text with a visible character is not empty. */
  lemma ParagraphKept(s: string, k: nat)
    requires Plain(s) && k < |s| && !IsSpace(s[k])
    ensures LayoutPasses.RemoveEmptyParagraphs("<p>" + s + "</p>") == "<p>" + s + "</p>"
  {
    var p := "<p>" + s + "</p>";
    var n := |s| + 3;
    assert forall q :: 3 <= q < n ==> p[q] == s[q - 3];
    assert p[n] == '<' && p[n + 1] == '/';
    LayoutPasses.EmptyParagraphProgressive();
    forall q | 0 <= q < |p|
      ensures LayoutPasses.MatchEmptyParagraph(p, q).None?
    {
      if q == 0 {
        var w := Span(p, 3, Space);
        assert w <= 3 + k by {
          assert !IsSpace(p[3 + k]);
        }
        NotAtHead(p, w, "</p>");
      } else if q == n {
        NotAtSecond(p, q, "<p>");
      } else {
        NotAtHead(p, q, "<p>");
      }
    }
    NoMatchIdentity(p, LayoutPasses.MatchEmptyParagraph);
  }

  /** Text free of every character a pass reacts to, and not all white space, comes
      out as one paragraph. */
  lemma PlainTextBecomesParagraph(s: string, k: nat)
    requires Plain(s) && k < |s| && !IsSpace(s[k])
    ensures CleanContent(Some(s)) == "<p>" + s + "</p>"
  {
    PlainTransform(s, k);
    ParagraphTrimmed(s);
    CleanUnchangedBy(s, "<p>" + s + "</p>");
  }

  /** A paragraph element is its own trim. */
  lemma ParagraphTrimmed(s: string)
    ensures Trim("<p>" + s + "</p>") == "<p>" + s + "</p>"
  {
    var t := "<p>" + s + "</p>";
    assert t[0] == '<' && t[|t| - 1] == '>';
    TrimUntouched(t);
  }

  /** Content whose passes give text that needs no trimming comes out as that text. */
  lemma CleanUnchangedBy(s: string, r: string)
    requires s != "" && Transform(s) == r && Trim(r) == r
    ensures CleanContent(Some(s)) == r
  {
  }

  /** The passes wrap plain text in one paragraph and change nothing else. */
  lemma PlainTransform(s: string, k: nat)
    requires Plain(s) && k < |s| && !IsSpace(s[k])
    ensures Transform(s) == "<p>" + s + "</p>"
  {
    CodeUntouched(s);
    UrlsUntouched(s);
    MarkdownUntouched(s);
    ListsUntouched(s);
    BreaksUntouched(s);
    NotAtHead(s, 0, "<h");
    NotAtHead(s, 0, "<p");
    NotAtHead(s, 0, "<ul");
    NotAtHead(s, 0, "<pre");
    LayoutPasses.WrapSingleLine(s);
    ParagraphKept(s, k);
  }

  // ---- Order of the passes ----

  lemma EscapeEntity(t: string, name: string)
    requires t == "&" + name + ";" && forall q :: 0 <= q < |name| ==> IsLowerAscii(name[q])
    ensures Escape.EscapeHtml(t) == "&amp;" + name + ";"
  {
    var rest := name + ";";
    assert t[1..] == rest;
    forall q | 0 <= q < |rest|
      ensures !Escape.Special(rest[q])
    {
      if q < |name| {
        assert rest[q] == name[q];
      } else {
        assert rest[q] == ';';
      }
    }
    assert Escape.EscapeHtml(rest) == rest;
  }

  lemma EntityAfterEscape(s: string, e: string, x: string, name: string, y: string)
    requires s == x + e + y && e == "&amp;" + name + ";" && '&' !in x && '&' !in y
    requires name != [] && forall q :: 0 <= q < |name| ==> IsLowerAscii(name[q])
    ensures MarkdownPasses.FixEntities(s) == x + "&" + name + ";" + y
  {
    assert s == x + "&amp;" + name + ";" + y;
    MarkdownPasses.EntityInText(x, name, y);
  }

  /** Code is escaped by the first pass, but the entity pass runs later over the
      whole text: an entity written inside code is escaped and then restored, so
      `&lt;` in code is displayed as `<`. */
  lemma EntityInCodeRestored(x: string, name: string, y: string)
    requires '&' !in x && '&' !in y
    requires name != [] && forall q :: 0 <= q < |name| ==> IsLowerAscii(name[q])
    ensures MarkdownPasses.FixEntities(x + Escape.EscapeHtml("&" + name + ";") + y) == x + "&" + name + ";" + y
  {
    var t := "&" + name + ";";
    var e := Escape.EscapeHtml(t);
    EscapeEntity(t, name);
    var s := x + e + y;
    EntityAfterEscape(s, e, x, name, y);
  }

  lemma TemplateParts(src: string, classes: string, alt: string)
    requires '\n' !in src && '\n' !in classes && '\n' !in alt
    ensures '\n' !in UrlPasses.TemplateHead(src, classes) && '\n' !in UrlPasses.TemplateTail(alt)
  {
    HeadLiterals();
    TailLiterals();
  }

  /** The fixed text of the template before its line break holds none. */
  lemma HeadLiterals()
    ensures '\n' !in "<img src=\"" && '\n' !in "\" class=\""
    ensures '\n' !in " article-content-image\" "
  {
    assert " article-content-image\" " == " article-" + "content-image\" ";
  }

  /** Nor does the fixed text after it. */
  lemma TailLiterals()
    ensures '\n' !in "                    " + "style=\"width: 50%; height: auto;\" alt=\""
  {
    assert '\n' !in "                    ";
    assert '\n' !in "style=\"width: 50%; height: auto;\" alt=\"";
  }

  /** The line break inside the image template becomes `<br>` in the newline pass. */
  lemma ImageTemplateBreak(x: string, src: string, classes: string, alt: string, y: string)
    requires '\n' !in x && '\n' !in src && '\n' !in classes && '\n' !in alt && '\n' !in y
    ensures LayoutPasses.LineBreaks(LayoutPasses.ParagraphBreaks(x + UrlPasses.ImageTemplate(src, classes, alt) + y))
            == x + UrlPasses.TemplateHead(src, classes) + "<br>" + UrlPasses.TemplateTail(alt) + y
  {
    var head, tail := UrlPasses.TemplateHead(src, classes), UrlPasses.TemplateTail(alt);
    TemplateParts(src, classes, alt);
    assert x + UrlPasses.ImageTemplate(src, classes, alt) + y == (x + head) + "\n" + (tail + y);
    LayoutPasses.NewlineInText(x + head, tail + y);
  }
}
