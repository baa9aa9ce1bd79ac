/** The last passes of `ContentCleaner.cleanContent`: line breaks become paragraph
    breaks or `<br>`, lines not starting with a block element are wrapped in `<p>`, and
    paragraphs holding only white space are removed. */
module LayoutPasses {
  import opened Text
  import opened Rewrite

  function IsNewline(c: char): bool { c == '\n' }

  // ---- `/\n\n+/g` and `/\n/g` ----

  /** A run of two or more `\n` (the whole run: `+` is greedy). */
  function MatchParagraphBreak(s: string, i: nat): (r: Option<Match>)
    ensures r.Some? ==> i + 2 <= r.value.end <= |s| && r.value.replacement == "</p><p>"
    ensures r.Some? ==> (forall q :: i <= q < r.value.end ==> s[q] == '\n')
                        && (r.value.end == |s| || s[r.value.end] != '\n')
    ensures r.None? && i + 1 < |s| ==> s[i] != '\n' || s[i + 1] != '\n'
  {
    if i >= |s| || s[i] != '\n' then None
    else
      var e := Span(s, i, IsNewline);
      if e >= i + 2 then Some(Match(e, "</p><p>")) else None
  }

  function MatchLineBreak(s: string, i: nat): (r: Option<Match>)
    ensures r.Some? <==> i < |s| && s[i] == '\n'
    ensures r.Some? ==> r.value == Match(i + 1, "<br>")
  {
    if i < |s| && s[i] == '\n' then Some(Match(i + 1, "<br>")) else None
  }

  lemma BreaksProgressive()
    ensures Progressive(MatchParagraphBreak) && Progressive(MatchLineBreak)
  {
  }

  function ParagraphBreaks(s: string): string {
    BreaksProgressive();
    ReplaceAll(s, MatchParagraphBreak)
  }

  function LineBreaks(s: string): string {
    BreaksProgressive();
    ReplaceAll(s, MatchLineBreak)
  }

  /** `<br>` for a newline; any other character stays as it is. */
  function BreakChar(c: char): string {
    if c == '\n' then "<br>" else [c]
  }

  /** Every character of `s` put through `BreakChar`, in order. */
  function BreakEach(s: string): string {
    if s == [] then "" else BreakChar(s[0]) + BreakEach(s[1..])
  }

  /** The `<br>` pass turns each `\n` into `<br>` and keeps every other character, in
      order. */
  lemma LineBreaksEach(s: string)
    ensures LineBreaks(s) == BreakEach(s)
  {
    BreaksProgressive();
    LineBreaksFrom(s, 0);
    assert s[0..] == s;
  }

  lemma {:induction false} LineBreaksFrom(s: string, i: nat)
    requires i <= |s| && Progressive(MatchLineBreak)
    ensures ReplaceFrom(s, i, MatchLineBreak) == BreakEach(s[i..])
    decreases |s| - i
  {
    if i < |s| {
      LineBreaksFrom(s, i + 1);
      assert s[i..][1..] == s[i + 1..];
    }
  }

  /** After the `<br>` pass no `\n` is left. */
  lemma LineBreaksRemoveNewlines(s: string)
    ensures '\n' !in LineBreaks(s)
  {
    BreaksProgressive();
    Excludes(s, 0, MatchLineBreak, '\n');
  }

  lemma NewlineLayout(s: string, x: string, n: nat, y: string)
    requires s == x + Repeat('\n', n) + y && '\n' !in x && '\n' !in y
    ensures var i := |x|;
            && s[..i] == x && s[i + n..] == y
            && (forall q :: i <= q < i + n ==> s[q] == '\n')
            && (forall q :: 0 <= q < |s| && (q < i || i + n <= q) ==> s[q] != '\n')
  {
    var i := |x|;
    assert forall q :: 0 <= q < i ==> s[q] == x[q];
    assert forall q :: i + n <= q < |s| ==> s[q] == y[q - i - n];
    assert forall q :: i <= q < i + n ==> s[q] == Repeat('\n', n)[q - i];
  }

  /** A single line break between text without line breaks becomes `<br>`. */
  lemma NewlineInText(x: string, y: string)
    requires '\n' !in x && '\n' !in y
    ensures LineBreaks(ParagraphBreaks(x + "\n" + y)) == x + "<br>" + y
  {
    var s := x + Repeat('\n', 1) + y;
    assert Repeat('\n', 1) == "\n";
    var i := |x|;
    NewlineLayout(s, x, 1, y);
    BreaksProgressive();
    assert i + 1 == |s| || s[i + 1] != '\n';
    assert MatchParagraphBreak(s, i).None? by {
      assert Span(s, i + 1, IsNewline) == i + 1;
    }
    NoMatchIdentity(s, MatchParagraphBreak);
    ReplaceOne(s, MatchLineBreak, i);
  }

  /** Two or more line breaks between text without line breaks become one paragraph
      break. */
  lemma BlankLineInText(x: string, n: nat, y: string)
    requires '\n' !in x && '\n' !in y && n >= 2
    ensures LineBreaks(ParagraphBreaks(x + Repeat('\n', n) + y)) == x + "</p><p>" + y
  {
    var s := x + Repeat('\n', n) + y;
    var i := |x|;
    NewlineLayout(s, x, n, y);
    BreaksProgressive();
    assert i + n == |s| || s[i + n] != '\n';
    assert Span(s, i, IsNewline) == i + n;
    ReplaceOne(s, MatchParagraphBreak, i);
    var p := x + "</p><p>" + y;
    assert '\n' !in p;
    NoMatchIdentity(p, MatchLineBreak);
  }

  // ---- `/^(?!<[hp]|<ul|<pre)(.+)$/gm` ----

  /** Does the line at `i` start with a block element the pass leaves alone? */
  predicate StartsBlock(s: string, i: nat) {
    At(s, i, "<h") || At(s, i, "<p") || At(s, i, "<ul") || At(s, i, "<pre")
  }

  function MatchParagraph(s: string, i: nat): (r: Option<Match>)
    ensures r.Some? ==> i < r.value.end <= |s|
    ensures r.Some? <==> LineStart(s, i) && i < |s| && !IsLineTerminator(s[i]) && !StartsBlock(s, i)
    ensures r.Some? ==> var e := r.value.end;
                        && (forall q :: i <= q < e ==> !IsLineTerminator(s[q])) && (e == |s| || IsLineTerminator(s[e]))
                        && r.value.replacement == "<p>" + s[i..e] + "</p>"
  {
    if !LineStart(s, i) || i >= |s| || StartsBlock(s, i) then None
    else
      var e := Span(s, i, NotBreak);
      if e == i then None else Some(Match(e, "<p>" + s[i..e] + "</p>"))
  }

  lemma ParagraphProgressive()
    ensures Progressive(MatchParagraph)
  {
  }

  function WrapParagraphs(s: string): string {
    ParagraphProgressive();
    ReplaceAll(s, MatchParagraph)
  }

  /** On text without line terminators (all of it one line) the pass wraps the whole text
      unless it is empty or starts with a block element. */
  lemma WrapSingleLine(s: string)
    requires forall q :: 0 <= q < |s| ==> !IsLineTerminator(s[q])
    ensures WrapParagraphs(s) == if s == [] || StartsBlock(s, 0) then s else "<p>" + s + "</p>"
  {
    ParagraphProgressive();
    forall q | 0 < q < |s|
      ensures MatchParagraph(s, q).None?
    {
      assert !IsLineTerminator(s[q - 1]);
    }
    if s == [] || StartsBlock(s, 0) {
      NoMatchIdentity(s, MatchParagraph);
    } else {
      ReplaceOne(s, MatchParagraph, 0);
    }
  }

  /** The pass adds no `\n`. */
  lemma WrapKeepsNoNewline(s: string)
    requires '\n' !in s
    ensures '\n' !in WrapParagraphs(s)
  {
    ParagraphProgressive();
    forall j | 0 <= j < |s| && MatchParagraph(s, j).Some?
      ensures '\n' !in MatchParagraph(s, j).value.replacement
    {
      var e := MatchParagraph(s, j).value.end;
      assert forall q :: j <= q < e ==> s[j..e][q - j] == s[q];
    }
    Excludes(s, 0, MatchParagraph, '\n');
  }

  // ---- `/<p>\s*<\/p>/g` ----

  function MatchEmptyParagraph(s: string, i: nat): (r: Option<Match>)
    ensures r.Some? ==> i < r.value.end <= |s| && r.value.replacement == ""
    ensures r.Some? ==> At(s, i, "<p>") && At(s, r.value.end - 4, "</p>")
                        && forall q :: i + 3 <= q < r.value.end - 4 ==> IsSpace(s[q])
  {
    if !At(s, i, "<p>") then None
    else
      var w := Span(s, i + 3, Space);
      if At(s, w, "</p>") then Some(Match(w + 4, "")) else None
  }

  /** Every white-space-only paragraph is matched. */
  lemma EmptyParagraphComplete(s: string, i: nat, w: nat)
    requires At(s, i, "<p>") && i + 3 <= w && At(s, w, "</p>")
    requires forall q :: i + 3 <= q < w ==> IsSpace(s[q])
    ensures MatchEmptyParagraph(s, i) == Some(Match(w + 4, ""))
  {
    AtIndex(s, w, "</p>", 0);
    assert Span(s, i + 3, Space) == w;
  }

  lemma EmptyParagraphProgressive()
    ensures Progressive(MatchEmptyParagraph)
  {
  }

  function RemoveEmptyParagraphs(s: string): string {
    EmptyParagraphProgressive();
    ReplaceAll(s, MatchEmptyParagraph)
  }

  /** The pass adds no character at all; in particular no `\n`. */
  lemma RemoveKeepsNoNewline(s: string)
    requires '\n' !in s
    ensures '\n' !in RemoveEmptyParagraphs(s)
  {
    EmptyParagraphProgressive();
    Excludes(s, 0, MatchEmptyParagraph, '\n');
  }

  /** One paragraph with nothing but white space in text without other tags disappears. */
  lemma EmptyParagraphInText(x: string, ws: string, y: string)
    requires '<' !in x && '<' !in y && forall q :: 0 <= q < |ws| ==> IsSpace(ws[q])
    ensures RemoveEmptyParagraphs(x + "<p>" + ws + "</p>" + y) == x + y
  {
    var s := x + "<p>" + ws + "</p>" + y;
    var w := |x| + 3 + |ws|;
    EmptyParagraphLayout(x, ws, y);
    NoParagraphIn(s, 0, |x|, x);
    NoParagraphIn(s, w + 4, |s|, y);
    EmptyParagraphProgressive();
    ReplaceOne(s, MatchEmptyParagraph, |x|);
    var mt := MatchEmptyParagraph(s, |x|).value;
    assert mt.replacement == "" && mt.end == w + 4;
    calc {
      RemoveEmptyParagraphs(s);
      s[..|x|] + mt.replacement + s[mt.end..];
      x + "" + y;
      { assert x + "" == x; }
      x + y;
    }
  }

  /** The paragraph laid out in text is matched at its opening tag. */
  lemma EmptyParagraphLayout(x: string, ws: string, y: string)
    requires forall q :: 0 <= q < |ws| ==> IsSpace(ws[q])
    ensures var s := x + "<p>" + ws + "</p>" + y;
            var w := |x| + 3 + |ws|;
            && MatchEmptyParagraph(s, |x|) == Some(Match(w + 4, ""))
            && s[0..|x|] == x && s[w + 4..|s|] == y && s[..|x|] == x && s[w + 4..] == y
  {
    var s := x + "<p>" + ws + "</p>" + y;
    var i := |x|;
    var w := i + 3 + |ws|;
    assert s[i..i + 3] == "<p>" && s[w..w + 4] == "</p>";
    assert forall q :: i + 3 <= q < w ==> s[q] == ws[q - i - 3];
    EmptyParagraphComplete(s, i, w);
    assert s[0..i] == x && s[w + 4..|s|] == y;
    assert s[..i] == x && s[w + 4..] == y;
  }

  /** No empty paragraph starts in a stretch of `s` without `<`. */
  lemma NoParagraphIn(s: string, lo: nat, hi: nat, t: string)
    requires lo <= hi <= |s| && s[lo..hi] == t && '<' !in t
    ensures forall q :: lo <= q < hi ==> MatchEmptyParagraph(s, q).None?
  {
    forall q | lo <= q < hi
      ensures MatchEmptyParagraph(s, q).None?
    {
      assert s[q] == t[q - lo];
      NotAtHead(s, q, "<p>");
    }
  }
}
