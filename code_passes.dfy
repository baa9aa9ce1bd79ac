/** The first two passes of `ContentCleaner.cleanContent`: fenced code blocks
    (```` /```(\w+)?\n([\s\S]*?)```/g ````) and inline code (`` /`([^`]+)`/g ``). */
module CodePasses {
  import opened Text
  import opened Rewrite
  import opened Escape

  /** No occurrence of three backticks anywhere in `t`. */
  ghost predicate NoFence(t: string) {
    forall q :: !At(t, q, "```")
  }

  /** The language of a block: the `\w+` after the opening marker, `plaintext` when absent. */
  function Language(word: string): string {
    if word == [] then "plaintext" else word
  }

  /** The replacement of one fenced block. */
  function CodeBlock(lang: string, code: string): string {
    "<pre><code class=\"language-" + lang + "\">" + EscapeHtml(Trim(code)) + "</code></pre>"
  }

  /** A fenced block starts at `i`: three backticks, word characters up to the newline at
      `j`, and the body up to `k`, the first three backticks after that newline. */
  ghost predicate FenceAt(s: string, i: nat, j: nat, k: nat) {
    && At(s, i, "```") && At(s, k, "```") && i + 3 <= j < k && s[j] == '\n'
    && (forall q :: i + 3 <= q < j ==> IsWordChar(s[q]))
    && (forall q :: j < q < k ==> !At(s, q, "```"))
  }

  /** Where the regular expression matches at `i`: the newline after the opening marker
      and the closing marker. `(\w+)?` is greedy and must be followed by the newline, so it
      takes the whole run of word characters; the body is lazy, so it ends at the first
      closing marker. */
  function FenceBounds(s: string, i: nat): (r: Option<(nat, nat)>)
    ensures r.Some? ==> FenceAt(s, i, r.value.0, r.value.1)
  {
    if !At(s, i, "```") then None
    else
      var j := Span(s, i + 3, IsWordChar);
      if j == |s| || s[j] != '\n' then None
      else match Find(s, j + 1, "```")
        case None => None
        case Some(k) => Some((j, k))
  }

  /** The regular expression at `i`. */
  function MatchFence(s: string, i: nat): (r: Option<Match>)
    ensures r.Some? ==> i < r.value.end <= |s|
  {
    match FenceBounds(s, i)
    case None => None
    case Some((j, k)) => Some(FenceResult(s, i, j, k))
  }

  /** The match of the block with opening marker `i`, newline `j` and closing marker `k`. */
  function FenceResult(s: string, i: nat, j: nat, k: nat): Match
    requires i + 3 <= j < k <= |s|
  {
    Match(k + 3, CodeBlock(Language(s[i + 3..j]), s[j + 1..k]))
  }

  /** The fenced block at `i` with newline `j` and closing marker `k`, and its replacement. */
  ghost predicate FenceMatch(s: string, i: nat, j: nat, k: nat, mt: Match) {
    FenceAt(s, i, j, k) && mt == FenceResult(s, i, j, k)
  }

  /** Every match is a fenced block, replaced by its language and escaped body. */
  lemma FenceSound(s: string, i: nat)
    requires MatchFence(s, i).Some?
    ensures exists j: nat, k: nat :: FenceMatch(s, i, j, k, MatchFence(s, i).value)
  {
    var b := FenceBounds(s, i).value;
    assert FenceMatch(s, i, b.0, b.1, MatchFence(s, i).value);
  }

  /** Every fenced block at `i` is found, with its language and body. */
  lemma FenceComplete(s: string, i: nat, j: nat, k: nat)
    requires FenceAt(s, i, j, k)
    ensures MatchFence(s, i).Some? && FenceMatch(s, i, j, k, MatchFence(s, i).value)
  {
    assert Span(s, i + 3, IsWordChar) == j;
    assert Find(s, j + 1, "```") == Some(k);
    assert FenceBounds(s, i) == Some((j, k));
  }

  lemma FenceProgressive()
    ensures Progressive(MatchFence)
  {
  }

  function FencedCode(s: string): string {
    FenceProgressive();
    ReplaceAll(s, MatchFence)
  }

  /** Inline code spans `s[i..e]`: a backtick, at least one character that is not one,
      and a backtick. */
  ghost predicate InlineAt(s: string, i: nat, e: nat) {
    && i + 2 < e <= |s| && s[i] == '`' && s[e - 1] == '`'
    && forall q :: i < q < e - 1 ==> s[q] != '`'
  }

  function NotBacktick(c: char): bool { c != '`' }

  /** The regular expression at `i`; `[^`]+` is greedy and must be followed by a
      backtick, so the span ends at the next backtick. The content is not escaped. */
  function MatchInline(s: string, i: nat): (r: Option<Match>)
    ensures r.Some? ==> InlineAt(s, i, r.value.end)
                        && r.value.replacement == "<code>" + s[i + 1..r.value.end - 1] + "</code>"
  {
    if i >= |s| || s[i] != '`' then None
    else
      var e := Span(s, i + 1, NotBacktick);
      if e == i + 1 || e == |s| then None
      else Some(Match(e + 1, "<code>" + s[i + 1..e] + "</code>"))
  }

  lemma InlineComplete(s: string, i: nat, e: nat)
    requires InlineAt(s, i, e)
    ensures MatchInline(s, i) == Some(Match(e, "<code>" + s[i + 1..e - 1] + "</code>"))
  {
    assert Span(s, i + 1, NotBacktick) == e - 1;
  }

  lemma InlineProgressive()
    ensures Progressive(MatchInline)
  {
  }

  function InlineCode(s: string): string {
    InlineProgressive();
    ReplaceAll(s, MatchInline)
  }

  /** What escaping guarantees about a code block: between the opening `<code ...>`
      and the closing `</code>` there is no raw `<` or `>`, and the trimmed body is
      recovered by decoding the character references. */
  lemma CodeBlockEscapes(lang: string, code: string)
    ensures var e := EscapeHtml(Trim(code));
            && CodeBlock(lang, code) ==
               "<pre><code class=\"language-" + lang + "\">" + e + "</code></pre>"
            && '<' !in e && '>' !in e
            && UnescapeHtml(e) == Trim(code)
  {
    UnescapeEscape(Trim(code));
  }

  /** The slices of a fenced block placed between `x` and `y`. */
  lemma FenceLayout(x: string, word: string, body: string, y: string)
    requires forall q :: 0 <= q < |word| ==> IsWordChar(word[q])
    requires NoFence(body + "``")
    ensures var s := x + "```" + word + "\n" + body + "```" + y;
            var j := |x| + 3 + |word|;
            var k := j + 1 + |body|;
            && FenceAt(s, |x|, j, k)
            && s[..|x|] == x && s[|x| + 3..j] == word && s[j + 1..k] == body && s[k + 3..] == y
  {
    var s := x + "```" + word + "\n" + body + "```" + y;
    var i, j := |x|, |x| + 3 + |word|;
    var k := j + 1 + |body|;
    var tail := body + "``";
    assert s == x + "```" + word + "\n" + tail + "`" + y;
    assert s[..i] == x && s[i..i + 3] == "```" && s[i + 3..j] == word && s[j] == '\n';
    assert s[j + 1..k + 2] == tail && s[k..k + 3] == "```" && s[k + 3..] == y;
    assert s[j + 1..k] == body;
    NoFenceInside(s, j, k, tail);
  }

  /** No three backticks start inside a stretch of `s` that has none. */
  lemma NoFenceInside(s: string, j: nat, k: nat, tail: string)
    requires j + 1 <= k + 2 <= |s| && s[j + 1..k + 2] == tail && NoFence(tail)
    ensures forall q :: j < q < k ==> !At(s, q, "```")
  {
    forall q | j < q < k
      ensures !At(s, q, "```")
    {
      assert s[q..q + 3] == tail[q - j - 1..q - j + 2] by {
        var m := q - j - 1;
        assert tail[m] == s[q] && tail[m + 1] == s[q + 1] && tail[m + 2] == s[q + 2];
      }
      assert !At(tail, q - j - 1, "```");
    }
  }

  /** A fenced block in text without backticks becomes one `<pre><code>` element; the
      rest of the text is kept. The body may hold backticks but no three in a row, also
      not together with the closing marker. */
  lemma FencedBlockInText(x: string, word: string, body: string, y: string)
    requires '`' !in x && '`' !in y
    requires forall q :: 0 <= q < |word| ==> IsWordChar(word[q])
    requires NoFence(body + "``")
    ensures FencedCode(x + "```" + word + "\n" + body + "```" + y)
            == x + CodeBlock(Language(word), body) + y
  {
    var s := x + "```" + word + "\n" + body + "```" + y;
    var j := |x| + 3 + |word|;
    var k := j + 1 + |body|;
    FenceLayout(x, word, body, y);
    FenceProgressive();
    forall q | 0 <= q < |x|
      ensures MatchFence(s, q).None?
    {
      assert s[q] == x[q];
      NotAtHead(s, q, "```");
    }
    forall q | k + 3 <= q < |s|
      ensures MatchFence(s, q).None?
    {
      assert s[q] == y[q - k - 3];
      NotAtHead(s, q, "```");
    }
    FenceWith(s, |x|, j, k, word, body);
    ReplaceOne(s, MatchFence, |x|);
  }

  /** A block found at `i` is matched there with its own word and body. */
  lemma FenceWith(s: string, i: nat, j: nat, k: nat, word: string, body: string)
    requires FenceAt(s, i, j, k) && s[i + 3..j] == word && s[j + 1..k] == body
    ensures MatchFence(s, i) == Some(Match(k + 3, CodeBlock(Language(word), body)))
  {
    FenceComplete(s, i, j, k);
  }

  /** An inline code span in text without backticks becomes a `<code>` element; its
      content is copied as it is, markup included. */
  lemma {:induction false} InlineSpanInText(x: string, code: string, y: string)
    requires '`' !in x && '`' !in code && '`' !in y && code != []
    ensures InlineCode(x + "`" + code + "`" + y) == x + "<code>" + code + "</code>" + y
  {
    var s := x + "`" + code + "`" + y;
    var i, e := |x|, |x| + |code| + 2;
    assert s[..i] == x && s[i] == '`' && s[i + 1..e - 1] == code && s[e - 1] == '`' && s[e..] == y;
    forall q | i < q < e - 1
      ensures s[q] != '`'
    {
      assert s[q] == code[q - i - 1];
    }
    InlineComplete(s, i, e);
    InlineProgressive();
    forall q | 0 <= q < i
      ensures MatchInline(s, q).None?
    {
      assert s[q] == x[q];
    }
    forall q | e <= q < |s|
      ensures MatchInline(s, q).None?
    {
      assert s[q] == y[q - e];
    }
    ReplaceOne(s, MatchInline, i);
  }
}
