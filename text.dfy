/** Character classes and string helpers with the meaning ECMAScript gives them:
    the regular-expression classes `\s`, `\w` and `.`, the line terminators that
    `^` and `$` see in multiline mode, `String.prototype.trim`, `includes`,
    ASCII `toLowerCase`, and the decimal printing of integers in template literals. */
module Text {

  datatype Option<+T> = None | Some(value: T)

  /** ECMAScript LineTerminator: LF, CR, LINE SEPARATOR, PARAGRAPH SEPARATOR.
      `.` matches every character except these. */
  predicate IsLineTerminator(c: char) {
    c == '\n' || c == '\r' || c == '\U{2028}' || c == '\U{2029}'
  }

  /** ECMAScript WhiteSpace or LineTerminator: the class `\s`, and what `trim` removes. */
  predicate IsSpace(c: char) {
    || IsLineTerminator(c)
    || c == '\t' || c == '\U{000B}' || c == '\U{000C}' || c == ' '
    || c == '\U{00A0}' || c == '\U{1680}' || ('\U{2000}' <= c <= '\U{200A}')
    || c == '\U{202F}' || c == '\U{205F}' || c == '\U{3000}' || c == '\U{FEFF}'
  }

  /** Character classes as functions, to pass to `Span`: `\s`, `.` and `[^>]`. */
  function Space(c: char): bool { IsSpace(c) }
  function NotBreak(c: char): bool { !IsLineTerminator(c) }
  function NotGt(c: char): bool { c != '>' }

  /** The class `\w`. */
  predicate IsWordChar(c: char) {
    ('a' <= c <= 'z') || ('A' <= c <= 'Z') || ('0' <= c <= '9') || c == '_'
  }

  /** The class `[a-z]`. */
  predicate IsLowerAscii(c: char) {
    'a' <= c <= 'z'
  }

  /** Does `t` occur in `s` starting at index `i`? */
  predicate At(s: string, i: int, t: string) {
    0 <= i && i + |t| <= |s| && s[i..i + |t|] == t
  }

  /** An occurrence starts with the first character of what occurs. */
  lemma NotAtHead(s: string, i: int, t: string)
    requires t != [] && (0 <= i < |s| ==> s[i] != t[0])
    ensures !At(s, i, t)
  {
    if 0 <= i < |s| && i + |t| <= |s| {
      assert s[i..i + |t|][0] == s[i];
    }
  }

  /** An occurrence continues with the second character of what occurs. */
  lemma NotAtSecond(s: string, i: int, t: string)
    requires |t| >= 2 && (0 <= i && i + 1 < |s| ==> s[i + 1] != t[1])
    ensures !At(s, i, t)
  {
    if 0 <= i && i + |t| <= |s| {
      assert s[i..i + |t|][1] == s[i + 1];
    }
  }

  /** An occurrence agrees with what occurs at every offset. */
  lemma NotAtIndex(s: string, i: int, t: string, k: int)
    requires 0 <= k < |t| && (0 <= i && i + |t| <= |s| ==> s[i + k] != t[k])
    ensures !At(s, i, t)
  {
    if 0 <= i && i + |t| <= |s| {
      assert s[i..i + |t|][k] == s[i + k];
    }
  }

  /** The characters of an occurrence. */
  lemma AtIndex(s: string, i: int, t: string, k: int)
    requires At(s, i, t) && 0 <= k < |t|
    ensures s[i + k] == t[k]
  {
    assert s[i..i + |t|][k] == s[i + k];
  }

  /** A slice cut in three. */
  lemma Split3(s: string, i: nat, h: nat, w: nat, e: nat)
    requires i <= h <= w <= e <= |s|
    ensures s[i..e] == s[i..h] + s[h..w] + s[w..e]
  {
    assert s[i..e] == s[i..h] + s[h..e];
    assert s[h..e] == s[h..w] + s[w..e];
  }

  /** A replacement put back between the text around it. */
  lemma Regroup(x: string, a: string, t: string, b: string, y: string)
    ensures x + (a + t + b) + y == x + a + t + b + y
  {
  }

  lemma Assoc(a: string, b: string, c: string)
    ensures a + (b + c) == a + b + c
  {
  }

  /** Is `i` a position where `^` matches in multiline mode? */
  predicate LineStart(s: string, i: nat) {
    i == 0 || (0 < i <= |s| && IsLineTerminator(s[i - 1]))
  }

  /** The end of the longest run of characters satisfying `p` that starts at `i`:
      what a greedy `[...]*` consumes. */
  function Span(s: string, i: nat, p: char -> bool): (e: nat)
    requires i <= |s|
    ensures i <= e <= |s|
    ensures forall k :: i <= k < e ==> p(s[k])
    ensures e == |s| || !p(s[e])
    decreases |s| - i
  {
    if i == |s| || !p(s[i]) then i else Span(s, i + 1, p)
  }

  /** The first occurrence of `t` in `s` at or after `i`: what a lazy `[\s\S]*?t` stops at. */
  function Find(s: string, i: nat, t: string): (r: Option<nat>)
    ensures r.Some? ==> i <= r.value && At(s, r.value, t)
    ensures r.Some? ==> forall k :: i <= k < r.value ==> !At(s, k, t)
    ensures r.None? ==> forall k :: i <= k ==> !At(s, k, t)
    decreases |s| - i
  {
    if i + |t| > |s| then None
    else if At(s, i, t) then Some(i)
    else Find(s, i + 1, t)
  }

  /** `String.prototype.includes`. */
  predicate Contains(s: string, t: string) {
    exists k :: 0 <= k <= |s| - |t| && At(s, k, t)
  }

  /** `r` is the slice of `s` at `a` and everything around it in `s` is white space. */
  ghost predicate TrimmedAt(s: string, r: string, a: int) {
    0 <= a && a + |r| <= |s| && r == s[a..a + |r|]
    && (forall k :: 0 <= k < a ==> IsSpace(s[k]))
    && (forall k :: a + |r| <= k < |s| ==> IsSpace(s[k]))
  }

  /** Neither the first nor the last character is white space. */
  predicate Trimmed(s: string) {
    s == [] || (!IsSpace(s[0]) && !IsSpace(s[|s| - 1]))
  }

  /** `s.trim()`: `s` without its leading and trailing white space. */
  function Trim(s: string): (r: string)
    ensures exists a :: TrimmedAt(s, r, a)
    ensures r == [] || (!IsSpace(r[0]) && !IsSpace(r[|r| - 1]))
    ensures r == [] <==> forall k :: 0 <= k < |s| ==> IsSpace(s[k])
  {
    var a := Span(s, 0, IsSpace);
    var r := TrimEnd(s[a..]);
    assert TrimmedAt(s, r, a);
    r
  }

  /** Text that neither starts nor ends with white space is its own trim. */
  lemma TrimUntouched(s: string)
    requires s != [] && !IsSpace(s[0]) && !IsSpace(s[|s| - 1])
    ensures Trim(s) == s
  {
    assert Span(s, 0, IsSpace) == 0;
    assert s[0..] == s;
  }

  /** `s` without its trailing white space. */
  function TrimEnd(s: string): (r: string)
    ensures |r| <= |s| && r == s[..|r|]
    ensures forall k :: |r| <= k < |s| ==> IsSpace(s[k])
    ensures r == [] || !IsSpace(r[|r| - 1])
  {
    if s == [] || !IsSpace(s[|s| - 1]) then s else TrimEnd(s[..|s| - 1])
  }

  /** `toLowerCase` on the ASCII letters; every other character is left as it is. */
  function LowerChar(c: char): char {
    if 'A' <= c <= 'Z' then (c as int + 32) as char else c
  }

  function ToLower(s: string): (r: string)
    ensures |r| == |s|
    ensures forall k :: 0 <= k < |s| ==> r[k] == LowerChar(s[k])
  {
    if s == [] then [] else [LowerChar(s[0])] + ToLower(s[1..])
  }

  /** No element occurs twice. */
  predicate Distinct<T(==)>(s: seq<T>) {
    forall i, j :: 0 <= i < j < |s| ==> s[i] != s[j]
  }

  /** `n` copies of the character `c`. */
  function Repeat(c: char, n: nat): (r: string)
    ensures |r| == n && forall q :: 0 <= q < n ==> r[q] == c
  {
    seq(n, _ => c)
  }

  /** The number of occurrences of `c` in `s`. */
  function Count(s: string, c: char): (n: nat)
    ensures n <= |s|
    ensures n == 0 <==> c !in s
  {
    if s == [] then 0 else (if s[0] == c then 1 else 0) + Count(s[1..], c)
  }

  lemma {:induction false} CountAppend(a: string, b: string, c: char)
    ensures Count(a + b, c) == Count(a, c) + Count(b, c)
  {
    if a == [] {
      assert a + b == b;
    } else {
      assert (a + b)[1..] == a[1..] + b;
      CountAppend(a[1..], b, c);
    }
  }

  function Digit(d: nat): (c: char)
    requires d < 10
    ensures '0' <= c <= '9'
  {
    ('0' as int + d) as char
  }

  /** The decimal digits of `n`, as a template literal prints a non-negative integer. */
  function NatToString(n: nat): (r: string)
    ensures |r| >= 1
    ensures forall k :: 0 <= k < |r| ==> '0' <= r[k] <= '9'
    ensures n > 0 ==> r[0] != '0'
  {
    if n < 10 then [Digit(n)] else NatToString(n / 10) + [Digit(n % 10)]
  }

  /** A template literal's rendering of an integer: a minus sign for negatives. */
  function IntToString(n: int): (r: string)
    ensures |r| >= 1
    ensures n < 0 <==> r[0] == '-'
  {
    if n < 0 then "-" + NatToString(-n) else NatToString(n)
  }

  /** The value of a string of decimal digits. */
  function DigitsValue(s: string): nat
    requires forall k :: 0 <= k < |s| ==> '0' <= s[k] <= '9'
  {
    if s == [] then 0 else DigitsValue(s[..|s| - 1]) * 10 + (s[|s| - 1] as int - '0' as int)
  }

  /** Printing and reading back a natural number are inverse. */
  lemma {:induction false} NatToStringRoundTrip(n: nat)
    ensures DigitsValue(NatToString(n)) == n
  {
    if n >= 10 {
      var r := NatToString(n);
      assert r[..|r| - 1] == NatToString(n / 10);
      NatToStringRoundTrip(n / 10);
    }
  }
}
