/** `ContentCleaner.escapeHtml`: the text is put in a fresh element as its only text
    node and read back through `innerHTML`. What comes back is the "escaping a string"
    step of HTML fragment serialisation (section 13.3 of the WHATWG HTML Standard) in
    text mode: `&`, U+00A0, `<` and `>` become character references; quotes stay. */
module Escape {
  import opened Text

  const NBSP: char := '\U{00A0}'

  /** The characters that become character references. */
  predicate Special(c: char) {
    c == '&' || c == NBSP || c == '<' || c == '>'
  }

  function EscapeChar(c: char): string {
    if c == '&' then "&amp;"
    else if c == NBSP then "&nbsp;"
    else if c == '<' then "&lt;"
    else if c == '>' then "&gt;"
    else [c]
  }

  /** No reference holds `<`, `>` or U+00A0; any other character stands for itself. */
  lemma EscapeCharFacts(c: char)
    ensures var e := EscapeChar(c);
            && '<' !in e && '>' !in e && NBSP !in e && |e| >= 1
            && (!Special(c) ==> e == [c])
  {
  }

  function EscapeHtml(text: string): (r: string)
    ensures '<' !in r && '>' !in r && NBSP !in r
    ensures |r| >= |text|
    ensures (forall k :: 0 <= k < |text| ==> !Special(text[k])) ==> r == text
  {
    if text == [] then []
    else
      EscapeCharFacts(text[0]);
      assert text == [text[0]] + text[1..];
      EscapeChar(text[0]) + EscapeHtml(text[1..])
  }

  /** Reading the serialised text back: the four character references are decoded. */
  function UnescapeHtml(r: string): string {
    if r == [] then []
    else if At(r, 0, "&amp;") then "&" + UnescapeHtml(r[5..])
    else if At(r, 0, "&nbsp;") then [NBSP] + UnescapeHtml(r[6..])
    else if At(r, 0, "&lt;") then "<" + UnescapeHtml(r[4..])
    else if At(r, 0, "&gt;") then ">" + UnescapeHtml(r[4..])
    else [r[0]] + UnescapeHtml(r[1..])
  }

  /** Decoding the escape of one character gives that character back. */
  lemma UnescapeChar(c: char, rest: string)
    ensures UnescapeHtml(EscapeChar(c) + rest) == [c] + UnescapeHtml(rest)
  {
    if c == '&' {
      AmpRef(rest);
    } else if c == NBSP {
      NbspRef(rest);
    } else if c == '<' {
      LtRef(rest);
    } else if c == '>' {
      GtRef(rest);
    } else {
      PlainRef(c, rest);
    }
  }

  lemma AmpRef(rest: string)
    ensures UnescapeHtml("&amp;" + rest) == "&" + UnescapeHtml(rest)
  {
    var r := "&amp;" + rest;
    assert r[0..5] == "&amp;" && r[5..] == rest;
  }

  lemma PlainRef(c: char, rest: string)
    requires c != '&'
    ensures UnescapeHtml([c] + rest) == [c] + UnescapeHtml(rest)
  {
    var r := [c] + rest;
    assert r[0] == c && r[1..] == rest;
    NotAtHead(r, 0, "&amp;");
    NotAtHead(r, 0, "&nbsp;");
    NotAtHead(r, 0, "&lt;");
    NotAtHead(r, 0, "&gt;");
  }

  lemma NbspRef(rest: string)
    ensures UnescapeHtml("&nbsp;" + rest) == [NBSP] + UnescapeHtml(rest)
  {
    var r := "&nbsp;" + rest;
    assert r[1] == 'n';
    NotAtSecond(r, 0, "&amp;");
    assert r[0..6] == "&nbsp;" && r[6..] == rest;
  }

  lemma LtRef(rest: string)
    ensures UnescapeHtml("&lt;" + rest) == "<" + UnescapeHtml(rest)
  {
    var r := "&lt;" + rest;
    assert r[1] == 'l';
    NotAtSecond(r, 0, "&amp;");
    NotAtSecond(r, 0, "&nbsp;");
    assert r[0..4] == "&lt;" && r[4..] == rest;
  }

  lemma GtRef(rest: string)
    ensures UnescapeHtml("&gt;" + rest) == ">" + UnescapeHtml(rest)
  {
    var r := "&gt;" + rest;
    assert r[1] == 'g';
    NotAtSecond(r, 0, "&amp;");
    NotAtSecond(r, 0, "&nbsp;");
    NotAtSecond(r, 0, "&lt;");
    assert r[0..4] == "&gt;" && r[4..] == rest;
  }

  /** Escaping loses nothing: the text is recovered from its escaped form. */
  lemma {:induction false} UnescapeEscape(text: string)
    ensures UnescapeHtml(EscapeHtml(text)) == text
  {
    if text != [] {
      UnescapeChar(text[0], EscapeHtml(text[1..]));
      UnescapeEscape(text[1..]);
      assert text == [text[0]] + text[1..];
    }
  }
}
