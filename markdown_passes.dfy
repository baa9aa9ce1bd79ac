/** Passes six to twelve of `ContentCleaner.cleanContent`: markdown headers, links,
    bold and italic text, list items and lists, and the repair of doubly escaped
    entities. */
module MarkdownPasses {
  import opened Text
  import opened Rewrite

  function IsHash(c: char): bool { c == '#' }

  // ---- `/^#{1,6}\s+(.*)$/gm` ----

  /** A header line at `i`: at a line start, a run of one to six `#` ending at `h` that
      is followed by white space up to `w` (line breaks included), then the text up to
      the end of the line at `e`. Seven or more `#` give no header: the run cannot be
      cut short, since the character after a shorter run is another `#`. */
  ghost predicate HeaderAt(s: string, i: nat, h: nat, w: nat, e: nat) {
    && LineStart(s, i) && i < h <= i + 6 && h < w <= e <= |s|
    && (forall q :: i <= q < h ==> s[q] == '#')
    && (forall q :: h <= q < w ==> IsSpace(s[q])) && (w == |s| || !IsSpace(s[w]))
    && (forall q :: w <= q < e ==> !IsLineTerminator(s[q])) && (e == |s| || IsLineTerminator(s[e]))
  }

  /** The header's level: the number of `#` in the trimmed match, as counted by splitting
      it at `#`. A `#` inside the text counts too. */
  function HeaderLevel(s: string, i: nat, e: nat): nat
    requires i <= e <= |s|
  {
    Count(Trim(s[i..e]), '#')
  }

  function HeaderElement(level: nat, text: string): string {
    "<h" + NatToString(level) + ">" + Trim(text) + "</h" + NatToString(level) + ">"
  }

  /** The ends of the `#` run, of the white space and of the line, where the expression
      matches at `i`. */
  function HeaderBounds(s: string, i: nat): (r: Option<(nat, nat, nat)>)
    ensures r.Some? ==> HeaderAt(s, i, r.value.0, r.value.1, r.value.2)
  {
    if !LineStart(s, i) || i >= |s| then None
    else
      var h := Span(s, i, IsHash);
      var w := Span(s, h, Space);
      if h == i || h > i + 6 || w == h then None
      else Some((h, w, Span(s, w, NotBreak)))
  }

  /** The match of the header at `i` whose text runs from `w` to `e`. */
  function HeaderResult(s: string, i: nat, w: nat, e: nat): Match
    requires i <= w <= e <= |s|
  {
    Match(e, HeaderElement(HeaderLevel(s, i, e), s[w..e]))
  }

  function MatchHeader(s: string, i: nat): (r: Option<Match>)
    ensures r.Some? ==> i < r.value.end <= |s|
  {
    match HeaderBounds(s, i)
    case None => None
    case Some((h, w, e)) => Some(HeaderResult(s, i, w, e))
  }

  ghost predicate HeaderMatch(s: string, i: nat, h: nat, w: nat, e: nat, mt: Match) {
    HeaderAt(s, i, h, w, e) && mt == HeaderResult(s, i, w, e)
  }

  lemma HeaderSound(s: string, i: nat)
    requires MatchHeader(s, i).Some?
    ensures exists h: nat, w: nat, e: nat :: HeaderMatch(s, i, h, w, e, MatchHeader(s, i).value)
  {
    var b := HeaderBounds(s, i).value;
    assert HeaderMatch(s, i, b.0, b.1, b.2, MatchHeader(s, i).value);
  }

  lemma HeaderComplete(s: string, i: nat, h: nat, w: nat, e: nat)
    requires HeaderAt(s, i, h, w, e)
    ensures MatchHeader(s, i).Some? && HeaderMatch(s, i, h, w, e, MatchHeader(s, i).value)
  {
    assert IsSpace(s[h]);
    assert Span(s, i, IsHash) == h;
    assert Span(s, h, Space) == w;
    assert Span(s, w, NotBreak) == e;
    assert HeaderBounds(s, i) == Some((h, w, e));
  }

  /** A run of seven or more `#` never starts a header. */
  lemma SevenHashesNoHeader(s: string, i: nat)
    requires i + 7 <= |s| && forall q :: i <= q < i + 7 ==> s[q] == '#'
    ensures MatchHeader(s, i).None?
  {
    assert Span(s, i, IsHash) >= i + 7;
  }

  /** Trimming removes no `#`. */
  lemma CountTrim(s: string, c: char)
    requires !IsSpace(c)
    ensures Count(Trim(s), c) == Count(s, c)
  {
    var r := Trim(s);
    var a :| TrimmedAt(s, r, a);
    CountAround(s, r, a, c);
  }

  /** The white space around `r` in `s` holds no `c`. */
  lemma CountAround(s: string, r: string, a: int, c: char)
    requires TrimmedAt(s, r, a) && !IsSpace(c)
    ensures Count(r, c) == Count(s, c)
  {
    var before, after := s[..a], s[a + |r|..];
    assert s == before + r + after;
    CountAppend(before + r, after, c);
    CountAppend(before, r, c);
    assert forall k :: 0 <= k < |before| ==> before[k] == s[k];
    assert forall k :: 0 <= k < |after| ==> after[k] == s[a + |r| + k];
    NotAmongSpaces(before, c);
    NotAmongSpaces(after, c);
  }

  lemma NotAmongSpaces(t: string, c: char)
    requires !IsSpace(c) && forall k :: 0 <= k < |t| ==> IsSpace(t[k])
    ensures Count(t, c) == 0
  {
  }

  /** The level is the number of leading `#` plus the number of `#` in the text. */
  lemma {:induction false} HeaderLevelCount(s: string, i: nat, h: nat, w: nat, e: nat)
    requires HeaderAt(s, i, h, w, e)
    ensures HeaderLevel(s, i, e) == (h - i) + Count(s[w..e], '#')
  {
    var hashes, spaces, text := s[i..h], s[h..w], s[w..e];
    CountTrim(s[i..e], '#');
    Split3(s, i, h, w, e);
    HeaderPieces(s, i, h, w, e);
    CountParts(hashes, spaces, text);
  }

  /** The opening run is all `#`, and the white space after it holds none. */
  lemma HeaderPieces(s: string, i: nat, h: nat, w: nat, e: nat)
    requires HeaderAt(s, i, h, w, e)
    ensures forall q :: 0 <= q < |s[i..h]| ==> s[i..h][q] == '#'
    ensures forall q :: 0 <= q < |s[h..w]| ==> s[h..w][q] != '#'
  {
    forall q | 0 <= q < |s[i..h]|
      ensures s[i..h][q] == '#'
    {
      assert s[i..h][q] == s[i + q];
    }
    forall q | 0 <= q < |s[h..w]|
      ensures s[h..w][q] != '#'
    {
      assert s[h..w][q] == s[h + q] && IsSpace(s[h + q]);
    }
  }

  lemma CountParts(hashes: string, spaces: string, text: string)
    requires forall q :: 0 <= q < |hashes| ==> hashes[q] == '#'
    requires forall q :: 0 <= q < |spaces| ==> spaces[q] != '#'
    ensures Count(hashes + spaces + text, '#') == |hashes| + Count(text, '#')
  {
    CountAppend(hashes + spaces, text, '#');
    CountAppend(hashes, spaces, '#');
    HashRun(hashes);
  }

  lemma {:induction false} HashRun(t: string)
    requires forall q :: 0 <= q < |t| ==> t[q] == '#'
    ensures Count(t, '#') == |t|
  {
    if t != [] {
      HashRun(t[1..]);
    }
  }

  /** No header starts where there is no `#`. */
  lemma NoHeaderWithoutHash(s: string, lo: nat, hi: nat)
    requires lo <= hi <= |s| && '#' !in s[lo..hi]
    ensures forall q :: lo <= q < hi ==> MatchHeader(s, q).None?
  {
    forall q | lo <= q < hi
      ensures MatchHeader(s, q).None?
    {
      assert s[q] == s[lo..hi][q - lo];
    }
  }

  /** Where the pieces of a header line lie. */
  lemma HeaderLayout(s: string, x: string, n: nat, title: string, y: string)
    requires s == x + Repeat('#', n) + " " + title + y
    ensures var i := |x|;
            var w := i + n + 1;
            var e := w + |title|;
            && s[0..i] == x && s[e..|s|] == y && s[w..e] == title && s[i + n] == ' '
            && (forall q :: i <= q < i + n ==> s[q] == '#')
            && (forall q :: w <= q < e ==> s[q] == title[q - w])
            && (e < |s| ==> s[e] == y[0])
            && (i > 0 ==> s[i - 1] == x[i - 1])
  {
    var i := |x|;
    assert s[i..i + n] == Repeat('#', n);
  }

  /** The header line in context is a header as `HeaderAt` describes it, of level `n`. */
  lemma HeaderLineAt(s: string, x: string, n: nat, title: string, y: string)
    requires s == x + Repeat('#', n) + " " + title + y
    requires 1 <= n <= 6
    requires x == [] || x[|x| - 1] == '\n'
    requires y == [] || IsLineTerminator(y[0])
    requires title != [] && !IsSpace(title[0]) && forall q :: 0 <= q < |title| ==> !IsLineTerminator(title[q])
    requires '#' !in title
    ensures var w := |x| + n + 1;
            var e := w + |title|;
            && HeaderAt(s, |x|, |x| + n, w, e) && s[w..e] == title && HeaderLevel(s, |x|, e) == n
            && s[0..|x|] == x && s[e..|s|] == y
  {
    var i := |x|;
    var w := i + n + 1;
    var e := w + |title|;
    HeaderLayout(s, x, n, title, y);
    assert HeaderAt(s, i, i + n, w, e);
    HeaderLevelOf(s, i, n, w, e, title);
  }

  lemma HeaderLevelOf(s: string, i: nat, n: nat, w: nat, e: nat, title: string)
    requires HeaderAt(s, i, i + n, w, e) && s[w..e] == title && '#' !in title
    ensures HeaderLevel(s, i, e) == n
  {
    HeaderLevelCount(s, i, i + n, w, e);
  }

  /** A header line between lines without `#` becomes a header element whose level is the
      number of `#`. */
  lemma HeaderInText(x: string, n: nat, title: string, y: string)
    requires 1 <= n <= 6
    requires x == [] || x[|x| - 1] == '\n'
    requires y == [] || IsLineTerminator(y[0])
    requires title != [] && !IsSpace(title[0]) && forall q :: 0 <= q < |title| ==> !IsLineTerminator(title[q])
    requires '#' !in x && '#' !in title && '#' !in y
    ensures Headers(x + Repeat('#', n) + " " + title + y) == x + HeaderElement(n, title) + y
  {
    var s := x + Repeat('#', n) + " " + title + y;
    var i := |x|;
    var w := i + n + 1;
    var e := w + |title|;
    HeaderLineAt(s, x, n, title, y);
    HeaderComplete(s, i, i + n, w, e);
    OneHeader(s, i, e);
  }

  /** A header at `i` ending at `e` with no `#` before or after it is the only match. */
  lemma OneHeader(s: string, i: nat, e: nat)
    requires i < |s| && MatchHeader(s, i).Some? && MatchHeader(s, i).value.end == e
    requires '#' !in s[0..i] && '#' !in s[e..|s|]
    ensures Headers(s) == s[..i] + MatchHeader(s, i).value.replacement + s[e..]
  {
    HeaderProgressive();
    NoHeaderWithoutHash(s, 0, i);
    NoHeaderWithoutHash(s, e, |s|);
    ReplaceOne(s, MatchHeader, i);
  }

  lemma HeaderProgressive()
    ensures Progressive(MatchHeader)
  {
  }

  function Headers(s: string): string {
    HeaderProgressive();
    ReplaceAll(s, MatchHeader)
  }

  // ---- `/\[([^\]]+)\]\(([^)]+)\)/g` ----

  function NotCloseBracket(c: char): bool { c != ']' }
  function NotCloseParen(c: char): bool { c != ')' }

  /** `[`, link text up to the `]` at `a` (any characters but `]`, line breaks included),
      `(`, the URL up to the `)` at `b`; both parts non-empty. */
  ghost predicate LinkAt(s: string, i: nat, a: nat, b: nat) {
    && i + 1 < a && a + 2 < b < |s| && s[i] == '[' && s[a] == ']' && s[a + 1] == '(' && s[b] == ')'
    && (forall q :: i < q < a ==> s[q] != ']') && (forall q :: a + 1 < q < b ==> s[q] != ')')
  }

  function LinkElement(text: string, url: string): string {
    "<a href=\"" + url + "\">" + text + "</a>"
  }

  function MatchLink(s: string, i: nat): (r: Option<Match>)
    ensures r.Some? ==> i < r.value.end <= |s|
  {
    if i >= |s| || s[i] != '[' then None
    else
      var a := Span(s, i + 1, NotCloseBracket);
      if a == i + 1 || a + 1 >= |s| || s[a + 1] != '(' then None
      else
        var b := Span(s, a + 2, NotCloseParen);
        if b == a + 2 || b == |s| then None
        else Some(Match(b + 1, LinkElement(s[i + 1..a], s[a + 2..b])))
  }

  lemma LinkSound(s: string, i: nat)
    requires MatchLink(s, i).Some?
    ensures exists a: nat, b: nat :: LinkAt(s, i, a, b)
              && MatchLink(s, i).value == Match(b + 1, LinkElement(s[i + 1..a], s[a + 2..b]))
  {
    var a := Span(s, i + 1, NotCloseBracket);
    var b := Span(s, a + 2, NotCloseParen);
    assert LinkAt(s, i, a, b);
  }

  lemma LinkComplete(s: string, i: nat, a: nat, b: nat)
    requires LinkAt(s, i, a, b)
    ensures MatchLink(s, i) == Some(Match(b + 1, LinkElement(s[i + 1..a], s[a + 2..b])))
  {
    assert Span(s, i + 1, NotCloseBracket) == a;
    assert Span(s, a + 2, NotCloseParen) == b;
  }

  lemma LinkProgressive()
    ensures Progressive(MatchLink)
  {
  }

  function Links(s: string): string {
    LinkProgressive();
    ReplaceAll(s, MatchLink)
  }

  // ---- `/\*\*([^*]+)\*\*/g` and `/\*([^*]+)\*/g` ----

  function NotStar(c: char): bool { c != '*' }

  /** `**`, a non-empty run without `*` up to `a`, `**`. */
  ghost predicate BoldAt(s: string, i: nat, a: nat) {
    At(s, i, "**") && i + 2 < a && At(s, a, "**") && forall q :: i + 2 <= q < a ==> s[q] != '*'
  }

  function MatchBold(s: string, i: nat): (r: Option<Match>)
    ensures r.Some? ==> i < r.value.end <= |s|
  {
    if !At(s, i, "**") then None
    else
      var a := Span(s, i + 2, NotStar);
      if a > i + 2 && At(s, a, "**") then Some(Match(a + 2, "<strong>" + s[i + 2..a] + "</strong>"))
      else None
  }

  lemma BoldSound(s: string, i: nat)
    requires MatchBold(s, i).Some?
    ensures exists a: nat :: BoldAt(s, i, a) && MatchBold(s, i).value == Match(a + 2, "<strong>" + s[i + 2..a] + "</strong>")
  {
    assert BoldAt(s, i, Span(s, i + 2, NotStar));
  }

  lemma BoldComplete(s: string, i: nat, a: nat)
    requires BoldAt(s, i, a)
    ensures MatchBold(s, i) == Some(Match(a + 2, "<strong>" + s[i + 2..a] + "</strong>"))
  {
    AtIndex(s, a, "**", 0);
    assert Span(s, i + 2, NotStar) == a;
  }

  /** `*`, a non-empty run without `*` up to `a`, `*`. */
  ghost predicate ItalicAt(s: string, i: nat, a: nat) {
    i + 1 < a < |s| && s[i] == '*' && s[a] == '*' && forall q :: i < q < a ==> s[q] != '*'
  }

  function MatchItalic(s: string, i: nat): (r: Option<Match>)
    ensures r.Some? ==> i < r.value.end <= |s|
  {
    if i >= |s| || s[i] != '*' then None
    else
      var a := Span(s, i + 1, NotStar);
      if a > i + 1 && a < |s| then Some(Match(a + 1, "<em>" + s[i + 1..a] + "</em>"))
      else None
  }

  lemma ItalicSound(s: string, i: nat)
    requires MatchItalic(s, i).Some?
    ensures exists a: nat :: ItalicAt(s, i, a) && MatchItalic(s, i).value == Match(a + 1, "<em>" + s[i + 1..a] + "</em>")
  {
    assert ItalicAt(s, i, Span(s, i + 1, NotStar));
  }

  lemma ItalicComplete(s: string, i: nat, a: nat)
    requires ItalicAt(s, i, a)
    ensures MatchItalic(s, i) == Some(Match(a + 1, "<em>" + s[i + 1..a] + "</em>"))
  {
    assert Span(s, i + 1, NotStar) == a;
  }

  lemma EmphasisProgressive()
    ensures Progressive(MatchBold) && Progressive(MatchItalic)
  {
  }

  function Bold(s: string): string {
    EmphasisProgressive();
    ReplaceAll(s, MatchBold)
  }

  function Italic(s: string): string {
    EmphasisProgressive();
    ReplaceAll(s, MatchItalic)
  }

  /** No link starts where there is no `[`. */
  lemma NoLinkWithoutBracket(s: string, lo: nat, hi: nat)
    requires lo <= hi <= |s| && '[' !in s[lo..hi]
    ensures forall q :: lo <= q < hi ==> MatchLink(s, q).None?
  {
    forall q | lo <= q < hi
      ensures MatchLink(s, q).None?
    {
      assert s[q] == s[lo..hi][q - lo];
    }
  }

  lemma LinkLayout(s: string, x: string, text: string, url: string, y: string)
    requires s == x + "[" + text + "](" + url + ")" + y && text != [] && url != []
    requires ']' !in text && ')' !in url
    ensures var a := |x| + 1 + |text|;
            var b := a + 2 + |url|;
            && LinkAt(s, |x|, a, b) && s[|x| + 1..a] == text && s[a + 2..b] == url
            && s[0..|x|] == x && s[b + 1..|s|] == y
  {
    var i := |x|;
    var a := i + 1 + |text|;
    var b := a + 2 + |url|;
    assert s[i + 1..a] == text;
    assert s[a + 2..b] == url;
    assert forall q :: i < q < a ==> s[q] == text[q - i - 1];
    assert forall q :: a + 1 < q < b ==> s[q] == url[q - a - 2];
  }

  /** A markdown link in text without other `[` becomes an anchor element. */
  lemma LinkInText(x: string, text: string, url: string, y: string)
    requires '[' !in x && '[' !in y && text != [] && url != [] && ']' !in text && ')' !in url
    ensures Links(x + "[" + text + "](" + url + ")" + y) == x + LinkElement(text, url) + y
  {
    var s := x + "[" + text + "](" + url + ")" + y;
    LinkLayout(s, x, text, url, y);
    LinkAround(s, |x|, |x| + 1 + |text|, |x| + 1 + |text| + 2 + |url|, x, text, url, y);
  }

  /** The link found at `i`, with text before and after it that holds no `[`. */
  lemma LinkAround(s: string, i: nat, a: nat, b: nat, x: string, text: string, url: string, y: string)
    requires LinkAt(s, i, a, b) && s[i + 1..a] == text && s[a + 2..b] == url
    requires s[0..i] == x && s[b + 1..|s|] == y && '[' !in x && '[' !in y
    ensures Links(s) == x + LinkElement(text, url) + y
  {
    LinkComplete(s, i, a, b);
    LinkProgressive();
    NoLinkWithoutBracket(s, 0, i);
    NoLinkWithoutBracket(s, b + 1, |s|);
    ReplaceOne(s, MatchLink, i);
  }

  /** Text without `*` is left alone by both emphasis passes. */
  lemma NoStarUnchanged(s: string)
    requires '*' !in s
    ensures Bold(s) == s && Italic(s) == s
  {
    EmphasisProgressive();
    forall q | 0 <= q < |s|
      ensures MatchBold(s, q).None? && MatchItalic(s, q).None?
    {
      NotAtHead(s, q, "**");
    }
    NoMatchIdentity(s, MatchBold);
    NoMatchIdentity(s, MatchItalic);
  }

  lemma BoldLayout(s: string, x: string, t: string, y: string)
    requires s == x + "**" + t + "**" + y && '*' !in t && t != []
    ensures var a := |x| + 2 + |t|;
            BoldAt(s, |x|, a) && s[|x| + 2..a] == t && s[0..|x|] == x && s[a + 2..|s|] == y
  {
    var i, a := |x|, |x| + 2 + |t|;
    assert s[i..i + 2] == "**" && s[a..a + 2] == "**" && s[i + 2..a] == t;
    assert forall q :: i + 2 <= q < a ==> s[q] == t[q - i - 2];
  }

  /** A bold span at `i` ending at `e` with no `*` before or after it is the only match. */
  lemma OneBold(s: string, i: nat, e: nat)
    requires i < |s| && MatchBold(s, i).Some? && MatchBold(s, i).value.end == e
    requires '*' !in s[0..i] && '*' !in s[e..|s|]
    ensures Bold(s) == s[..i] + MatchBold(s, i).value.replacement + s[e..]
  {
    EmphasisProgressive();
    forall q | 0 <= q < i
      ensures MatchBold(s, q).None?
    {
      assert s[q] == s[0..i][q];
      NotAtHead(s, q, "**");
    }
    forall q | e <= q < |s|
      ensures MatchBold(s, q).None?
    {
      assert s[q] == s[e..|s|][q - e];
      NotAtHead(s, q, "**");
    }
    ReplaceOne(s, MatchBold, i);
  }

  lemma BoldOnce(x: string, t: string, y: string)
    requires '*' !in x && '*' !in t && '*' !in y && t != []
    ensures Bold(x + "**" + t + "**" + y) == x + "<strong>" + t + "</strong>" + y
  {
    var s := x + "**" + t + "**" + y;
    var a := |x| + 2 + |t|;
    BoldLayout(s, x, t, y);
    BoldComplete(s, |x|, a);
    OneBold(s, |x|, a + 2);
    assert s[..|x|] == s[0..|x|] && s[a + 2..] == s[a + 2..|s|];
  }

  /** `**t**` in text without other `*` becomes a `<strong>` element, which the italic
      pass then leaves alone. */
  lemma BoldInText(x: string, t: string, y: string)
    requires '*' !in x && '*' !in t && '*' !in y && t != []
    ensures Italic(Bold(x + "**" + t + "**" + y)) == x + "<strong>" + t + "</strong>" + y
  {
    BoldOnce(x, t, y);
    var r := x + "<strong>" + t + "</strong>" + y;
    assert '*' !in r;
    NoStarUnchanged(r);
  }

  lemma ItalicLayout(s: string, x: string, t: string, y: string)
    requires s == x + "*" + t + "*" + y && '*' !in t && t != []
    ensures var a := |x| + 1 + |t|;
            && ItalicAt(s, |x|, a) && s[|x| + 1..a] == t
            && s[0..|x|] == x && s[a + 1..|s|] == y
  {
    var i, a := |x|, |x| + 1 + |t|;
    assert s[i] == '*' && s[a] == '*' && s[i + 1..a] == t;
    assert forall q :: i < q < a ==> s[q] == t[q - i - 1];
  }

  /** Single stars around text without `*` start no bold span. */
  lemma NoBoldInSingle(s: string, x: string, t: string, y: string)
    requires s == x + "*" + t + "*" + y && '*' !in x && '*' !in t && '*' !in y && t != []
    ensures forall q :: 0 <= q < |s| ==> MatchBold(s, q).None?
  {
    var i, a := |x|, |x| + 1 + |t|;
    forall q | 0 <= q < |s|
      ensures MatchBold(s, q).None?
    {
      if q == i || q == a {
        if q + 1 < |s| {
          assert q == i ==> s[q + 1] == t[0];
          assert q == a ==> s[q + 1] == y[0];
        }
        NotAtSecond(s, q, "**");
      } else if q < i {
        assert s[q] == x[q];
        NotAtHead(s, q, "**");
      } else if q < a {
        assert s[q] == t[q - i - 1];
        NotAtHead(s, q, "**");
      } else {
        assert s[q] == y[q - a - 1];
        NotAtHead(s, q, "**");
      }
    }
  }

  /** An italic span at `i` ending at `e` with no `*` before or after it is the only match. */
  lemma OneItalic(s: string, i: nat, e: nat)
    requires i < |s| && MatchItalic(s, i).Some? && MatchItalic(s, i).value.end == e
    requires '*' !in s[0..i] && '*' !in s[e..|s|]
    ensures Italic(s) == s[0..i] + MatchItalic(s, i).value.replacement + s[e..|s|]
  {
    EmphasisProgressive();
    forall q | 0 <= q < i
      ensures MatchItalic(s, q).None?
    {
      assert s[q] == s[0..i][q];
    }
    forall q | e <= q < |s|
      ensures MatchItalic(s, q).None?
    {
      assert s[q] == s[e..|s|][q - e];
    }
    ReplaceOne(s, MatchItalic, i);
  }

  /** `*t*` in text without other `*` becomes an `<em>` element. */
  lemma ItalicInText(x: string, t: string, y: string)
    requires '*' !in x && '*' !in t && '*' !in y && t != []
    ensures Italic(Bold(x + "*" + t + "*" + y)) == x + "<em>" + t + "</em>" + y
  {
    var s := x + "*" + t + "*" + y;
    NoBoldInSingle(s, x, t, y);
    EmphasisProgressive();
    NoMatchIdentity(s, MatchBold);
    ItalicOnce(x, t, y);
  }

  /** The italic pass alone on `*t*` in text without other `*`. */
  lemma ItalicOnce(x: string, t: string, y: string)
    requires '*' !in x && '*' !in t && '*' !in y && t != []
    ensures Italic(x + "*" + t + "*" + y) == x + "<em>" + t + "</em>" + y
  {
    var s := x + "*" + t + "*" + y;
    var i, a := |x|, |x| + 1 + |t|;
    ItalicLayout(s, x, t, y);
    ItalicComplete(s, i, a);
    OneItalic(s, i, a + 1);
    Regroup(x, "<em>", t, "</em>", y);
  }

  /** No two `*` in a row. */
  predicate NoDoubleStar(z: string) {
    forall k :: 0 <= k < |z| - 1 ==> z[k] != '*' || z[k + 1] != '*'
  }

  /** Two single stars around non-empty text without `*` are never next to each other. */
  lemma SinglesNoDoubleStar(m: string, b: string, y: string)
    requires '*' !in m && '*' !in b && '*' !in y && b != []
    ensures NoDoubleStar(m + "*" + b + "*" + y)
  {
    var z := m + "*" + b + "*" + y;
    forall k | 0 <= k < |z| - 1 && z[k] == '*'
      ensures z[k + 1] != '*'
    {
      if k == |m| {
        assert z[k + 1] == b[0];
      } else if k == |m| + 1 + |b| {
        assert z[k + 1] == y[0];
      } else {
        assert false;
      }
    }
  }

  /** A bold span after star-free text, followed by text with no `**`, is the only bold
      match. */
  lemma BoldThenRest(s: string, x: string, a: string, z: string)
    requires s == x + "**" + a + "**" + z && '*' !in x && '*' !in a && a != [] && NoDoubleStar(z)
    ensures Bold(s) == x + "<strong>" + a + "</strong>" + z
  {
    var i, c := |x|, |x| + 2 + |a|;
    var e := c + 2;
    BoldLayout(s, x, a, z);
    BoldComplete(s, i, c);
    EmphasisProgressive();
    forall q | 0 <= q < i
      ensures MatchBold(s, q).None?
    {
      assert s[q] == x[q];
      NotAtHead(s, q, "**");
    }
    forall q | e <= q < |s|
      ensures MatchBold(s, q).None?
    {
      assert s[q] == z[q - e];
      if q + 1 < |s| {
        assert s[q + 1] == z[q - e + 1];
      }
      if s[q] == '*' {
        NotAtIndex(s, q, "**", 1);
      } else {
        NotAtHead(s, q, "**");
      }
    }
    ReplaceOne(s, MatchBold, i);
    Regroup(x, "<strong>", a, "</strong>", z);
  }

  /** Bold is rewritten before italic: `**a**` and a later `*b*` in the same text become
      `<strong>a</strong>` and `<em>b</em>`, and no `*` is left. */
  lemma BoldThenItalic(x: string, a: string, m: string, b: string, y: string)
    requires '*' !in x && '*' !in a && '*' !in m && '*' !in b && '*' !in y
    requires a != [] && b != []
    ensures Italic(Bold(x + "**" + a + "**" + m + "*" + b + "*" + y))
            == x + "<strong>" + a + "</strong>" + m + "<em>" + b + "</em>" + y
    ensures '*' !in Italic(Bold(x + "**" + a + "**" + m + "*" + b + "*" + y))
  {
    var s := x + "**" + a + "**" + m + "*" + b + "*" + y;
    var z := m + "*" + b + "*" + y;
    assert s == x + "**" + a + "**" + z;
    SinglesNoDoubleStar(m, b, y);
    BoldThenRest(s, x, a, z);
    var w := x + "<strong>" + a + "</strong>" + m;
    assert x + "<strong>" + a + "</strong>" + z == w + "*" + b + "*" + y;
    ItalicOnce(w, b, y);
  }

  // ---- `/^-\s+(.*)$/gm` ----

  /** `-` at a line start, white space up to `w` (at least one character, line breaks
      included), then the rest of the line up to `e`. */
  ghost predicate ItemAt(s: string, i: nat, w: nat, e: nat) {
    && LineStart(s, i) && i + 1 < w <= e <= |s| && s[i] == '-'
    && (forall q :: i < q < w ==> IsSpace(s[q])) && (w == |s| || !IsSpace(s[w]))
    && (forall q :: w <= q < e ==> !IsLineTerminator(s[q])) && (e == |s| || IsLineTerminator(s[e]))
  }

  function MatchItem(s: string, i: nat): (r: Option<Match>)
    ensures r.Some? ==> i < r.value.end <= |s|
  {
    if !LineStart(s, i) || i >= |s| || s[i] != '-' then None
    else
      var w := Span(s, i + 1, Space);
      if w == i + 1 then None
      else
        var e := Span(s, w, NotBreak);
        Some(Match(e, "<li>" + s[w..e] + "</li>"))
  }

  lemma ItemSound(s: string, i: nat)
    requires MatchItem(s, i).Some?
    ensures exists w: nat, e: nat :: ItemAt(s, i, w, e) && MatchItem(s, i).value == Match(e, "<li>" + s[w..e] + "</li>")
  {
    var w := Span(s, i + 1, Space);
    assert ItemAt(s, i, w, Span(s, w, NotBreak));
  }

  lemma ItemComplete(s: string, i: nat, w: nat, e: nat)
    requires ItemAt(s, i, w, e)
    ensures MatchItem(s, i) == Some(Match(e, "<li>" + s[w..e] + "</li>"))
  {
    assert Span(s, i + 1, Space) == w;
    assert Span(s, w, NotBreak) == e;
  }

  lemma ItemProgressive()
    ensures Progressive(MatchItem)
  {
  }

  function ListItems(s: string): string {
    ItemProgressive();
    ReplaceAll(s, MatchItem)
  }

  /** An item whose line holds nothing after the dash takes the next non-blank line as
      its text, since `\s+` crosses line breaks. */
  lemma EmptyItemTakesNextLine(s: string, i: nat)
    requires LineStart(s, i) && i + 3 < |s| && s[i] == '-' && s[i + 1] == ' ' && s[i + 2] == '\n'
    requires !IsSpace(s[i + 3])
    ensures MatchItem(s, i) == Some(Match(Span(s, i + 3, NotBreak), "<li>" + s[i + 3..Span(s, i + 3, NotBreak)] + "</li>"))
  {
    assert Span(s, i + 1, Space) == i + 3 by {
      assert Span(s, i + 1, Space) == Span(s, i + 2, Space) == Span(s, i + 3, Space);
    }
  }

  // ---- `/((?:<li>.*<\/li>\n)+)/g` ----

  /** One item line at `p`: `<li>`, then `.*` up to a `</li>` that ends right before the
      line's `\n`. `.` never crosses a line terminator, so the `</li>` must be the last
      thing on the line; the line ends at the result. */
  function ItemLine(s: string, p: nat): (r: Option<nat>)
    ensures r.Some? ==> p + 10 <= r.value <= |s| && At(s, p, "<li>") && s[r.value - 1] == '\n'
                        && At(s, r.value - 6, "</li>")
                        && forall q :: p <= q < r.value - 1 ==> !IsLineTerminator(s[q])
  {
    if !At(s, p, "<li>") then None
    else
      var l := Span(s, p + 4, NotBreak);
      if l < |s| && s[l] == '\n' && l >= p + 9 && At(s, l - 5, "</li>") then Some(l + 1) else None
  }

  /** The end of the longest run of item lines from `p`: the `+` is greedy. */
  function ItemsEnd(s: string, p: nat): (e: nat)
    requires p <= |s|
    ensures p <= e <= |s|
    ensures e > p <==> ItemLine(s, p).Some?
    ensures ItemLine(s, e).None?
    decreases |s| - p
  {
    match ItemLine(s, p)
    case None => p
    case Some(l) => ItemsEnd(s, l)
  }

  function MatchList(s: string, i: nat): (r: Option<Match>)
    ensures r.Some? ==> i < r.value.end <= |s|
  {
    if i > |s| then None
    else
      var e := ItemsEnd(s, i);
      if e == i then None else Some(Match(e, "<ul>" + s[i..e] + "</ul>"))
  }

  lemma ListProgressive()
    ensures Progressive(MatchList)
  {
  }

  function WrapLists(s: string): string {
    ListProgressive();
    ReplaceAll(s, MatchList)
  }

  function Item(t: string): string {
    "<li>" + t + "</li>"
  }

  /** The pieces of an item element followed by `\n`. */
  lemma ItemPieces(t: string)
    ensures var u := Item(t) + "\n";
            && |u| == |t| + 10 && u[..4] == "<li>" && u[|t| + 4..|t| + 9] == "</li>" && u[|t| + 9] == '\n'
            && forall q :: 4 <= q < |t| + 4 ==> u[q] == t[q - 4]
  {
    var u := Item(t) + "\n";
    assert u == "<li>" + t + ("</li>" + "\n");
  }

  /** An item element followed by `\n` is an item line. */
  lemma ItemLineOf(s: string, p: nat, t: string)
    requires p + |t| + 10 <= |s| && s[p..p + |t| + 10] == Item(t) + "\n"
    requires forall q :: 0 <= q < |t| ==> !IsLineTerminator(t[q])
    ensures ItemLine(s, p) == Some(p + |t| + 10)
  {
    var l := p + |t| + 9;
    var u := Item(t) + "\n";
    ItemPieces(t);
    assert s[p..p + 4] == u[..4];
    assert s[l - 5..l] == u[|t| + 4..|t| + 9];
    assert s[l] == u[|t| + 9];
    forall q | p + 4 <= q < l
      ensures !IsLineTerminator(s[q])
    {
      assert s[q] == u[q - p];
    }
    assert Span(s, p + 4, NotBreak) == l;
  }

  /** Without a `\n` at or after `lo`, no list starts there. */
  lemma NoListWithoutNewline(s: string, lo: nat)
    requires lo <= |s| && '\n' !in s[lo..]
    ensures forall q :: lo <= q < |s| ==> MatchList(s, q).None?
  {
    forall q | lo <= q < |s|
      ensures MatchList(s, q).None?
    {
      assert forall k :: lo <= k < |s| ==> s[k] == s[lo..][k - lo];
    }
  }

  /** Two items, each with its `\n`, become one list. */
  lemma TwoItemsWrapped(a: string, b: string)
    requires forall q :: 0 <= q < |a| ==> !IsLineTerminator(a[q])
    requires forall q :: 0 <= q < |b| ==> !IsLineTerminator(b[q])
    ensures WrapLists(Item(a) + "\n" + Item(b) + "\n") == "<ul>" + Item(a) + "\n" + Item(b) + "\n" + "</ul>"
  {
    var s := Item(a) + "\n" + Item(b) + "\n";
    var m := |a| + 10;
    assert s[0..m] == Item(a) + "\n";
    assert s[m..m + |b| + 10] == Item(b) + "\n";
    ItemLineOf(s, 0, a);
    ItemLineOf(s, m, b);
    assert ItemsEnd(s, |s|) == |s|;
    assert ItemsEnd(s, 0) == |s|;
    ListProgressive();
    assert ReplaceFrom(s, 0, MatchList) == "<ul>" + s + "</ul>";
  }

  /** The last item of a list needs a `\n` too: without one it stays outside the list. */
  lemma LastItemLeftOut(a: string, b: string)
    requires forall q :: 0 <= q < |a| ==> !IsLineTerminator(a[q])
    requires forall q :: 0 <= q < |b| ==> !IsLineTerminator(b[q])
    ensures WrapLists(Item(a) + "\n" + Item(b)) == "<ul>" + Item(a) + "\n" + "</ul>" + Item(b)
  {
    var s := Item(a) + "\n" + Item(b);
    var m := |a| + 10;
    assert s[0..m] == Item(a) + "\n";
    assert s[m..] == Item(b);
    ItemLineOf(s, 0, a);
    assert '\n' !in s[m..];
    NoListWithoutNewline(s, m);
    assert ItemsEnd(s, 0) == m;
    ListProgressive();
    ReplaceOne(s, MatchList, 0);
  }

  // ---- `/&amp;([a-z]+);/g` ----

  function Lower(c: char): bool { IsLowerAscii(c) }

  /** `&amp;`, a name of at least one letter `a`-`z` up to `a`, `;`. */
  ghost predicate EntityAt(s: string, i: nat, a: nat) {
    At(s, i, "&amp;") && i + 5 < a < |s| && s[a] == ';' && forall q :: i + 5 <= q < a ==> IsLowerAscii(s[q])
  }

  function MatchEntity(s: string, i: nat): (r: Option<Match>)
    ensures r.Some? ==> i < r.value.end <= |s|
  {
    if !At(s, i, "&amp;") then None
    else
      var a := Span(s, i + 5, Lower);
      if a > i + 5 && a < |s| && s[a] == ';' then Some(Match(a + 1, "&" + s[i + 5..a] + ";")) else None
  }

  lemma EntitySound(s: string, i: nat)
    requires MatchEntity(s, i).Some?
    ensures exists a: nat :: EntityAt(s, i, a) && MatchEntity(s, i).value == Match(a + 1, "&" + s[i + 5..a] + ";")
  {
    assert EntityAt(s, i, Span(s, i + 5, Lower));
  }

  lemma EntityComplete(s: string, i: nat, a: nat)
    requires EntityAt(s, i, a)
    ensures MatchEntity(s, i) == Some(Match(a + 1, "&" + s[i + 5..a] + ";"))
  {
    assert Span(s, i + 5, Lower) == a;
  }

  lemma EntityProgressive()
    ensures Progressive(MatchEntity)
  {
  }

  function FixEntities(s: string): string {
    EntityProgressive();
    ReplaceAll(s, MatchEntity)
  }

  /** A doubly escaped entity in text without other `&` loses its `amp;`. */
  lemma EntityInText(x: string, name: string, y: string)
    requires '&' !in x && '&' !in y && name != []
    requires forall q :: 0 <= q < |name| ==> IsLowerAscii(name[q])
    ensures FixEntities(x + "&amp;" + name + ";" + y) == x + "&" + name + ";" + y
  {
    var s := x + "&amp;" + name + ";" + y;
    var i := |x|;
    var a := i + 5 + |name|;
    EntityLayout(s, x, name, y);
    EntityComplete(s, i, a);
    EntityProgressive();
    forall q | 0 <= q < i
      ensures MatchEntity(s, q).None?
    {
      assert s[q] == s[0..i][q];
      NotAtHead(s, q, "&amp;");
    }
    forall q | a + 1 <= q < |s|
      ensures MatchEntity(s, q).None?
    {
      assert s[q] == s[a + 1..|s|][q - a - 1];
      NotAtHead(s, q, "&amp;");
    }
    ReplaceOne(s, MatchEntity, i);
  }

  lemma EntityLayout(s: string, x: string, name: string, y: string)
    requires s == x + "&amp;" + name + ";" + y && name != []
    requires forall q :: 0 <= q < |name| ==> IsLowerAscii(name[q])
    ensures var a := |x| + 5 + |name|;
            && EntityAt(s, |x|, a) && s[|x| + 5..a] == name
            && s[0..|x|] == x && s[a + 1..|s|] == y && s[..|x|] == x && s[a + 1..] == y
  {
    var i := |x|;
    var a := i + 5 + |name|;
    assert s[i..i + 5] == "&amp;";
    assert s[i + 5..a] == name;
    assert forall q :: i + 5 <= q < a ==> s[q] == name[q - i - 5];
  }
}
