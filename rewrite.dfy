/** The semantics of `String.prototype.replace` with a global regular expression
    that never matches the empty string: the string is scanned from left to right;
    at each position the expression either matches, and the match is replaced and
    scanning resumes after it, or it does not, and that one character is kept.
    Matches are therefore leftmost and never overlap, and every attempt looks at
    the ORIGINAL string (so `^` and look-aheads see the input, not earlier output). */
module Rewrite {
  import opened Text

  /** A successful match attempt: where the match ends and what replaces it. */
  datatype Match = Match(end: nat, replacement: string)

  /** A regular expression with its replacement, as a function of the string and the
      position of the attempt. */
  type Matcher = (string, nat) -> Option<Match>

  /** Every match is non-empty and lies inside the string. */
  ghost predicate Progressive(m: Matcher) {
    forall s: string, i: nat {:trigger m(s, i)} :: m(s, i).Some? ==> i < m(s, i).value.end <= |s|
  }

  /** The replacement of all matches in `s[i..]`. */
  function ReplaceFrom(s: string, i: nat, m: Matcher): string
    requires i <= |s| && Progressive(m)
    decreases |s| - i
  {
    if i == |s| then ""
    else match m(s, i)
      case Some(mt) => mt.replacement + ReplaceFrom(s, mt.end, m)
      case None => [s[i]] + ReplaceFrom(s, i + 1, m)
  }

  /** `s.replace(re, ...)` with the flag `g`. */
  function ReplaceAll(s: string, m: Matcher): string
    requires Progressive(m)
  {
    ReplaceFrom(s, 0, m)
  }

  /** Characters at which no match starts are copied unchanged. */
  lemma {:induction false} SkipTo(s: string, i: nat, k: nat, m: Matcher)
    requires Progressive(m) && i <= k <= |s|
    requires forall j :: i <= j < k ==> m(s, j).None?
    ensures ReplaceFrom(s, i, m) == s[i..k] + ReplaceFrom(s, k, m)
    decreases k - i
  {
    if i < k {
      SkipTo(s, i + 1, k, m);
      assert m(s, i).None?;
      assert ReplaceFrom(s, i, m) == [s[i]] + ReplaceFrom(s, i + 1, m);
      SliceCons(s, i, k);
      ConsAppend(s[i], s[i + 1..k], ReplaceFrom(s, k, m));
    }
  }

  /** A non-empty slice is its first character followed by the rest. */
  lemma SliceCons(s: string, i: nat, k: nat)
    requires i < k <= |s|
    ensures s[i..k] == [s[i]] + s[i + 1..k]
  {
    assert forall j :: 0 <= j < k - i ==> s[i..k][j] == ([s[i]] + s[i + 1..k])[j];
  }

  /** Concatenation after a single character is associative. */
  lemma ConsAppend(c: char, a: string, b: string)
    ensures [c] + (a + b) == ([c] + a) + b
  {
  }

  /** Where nothing matches, the replacement is the identity. */
  lemma NoMatchIdentity(s: string, m: Matcher)
    requires Progressive(m)
    requires forall j :: 0 <= j < |s| ==> m(s, j).None?
    ensures ReplaceAll(s, m) == s
  {
    SkipTo(s, 0, |s|, m);
  }

  /** A character disappears from the output when every occurrence of it is the start
      of a match and no replacement contains it. */
  lemma {:induction false} Excludes(s: string, i: nat, m: Matcher, c: char)
    requires Progressive(m) && i <= |s|
    requires forall j :: i <= j < |s| && s[j] == c ==> m(s, j).Some?
    requires forall j :: i <= j < |s| && m(s, j).Some? ==> c !in m(s, j).value.replacement
    ensures c !in ReplaceFrom(s, i, m)
    decreases |s| - i
  {
    if i < |s| {
      match m(s, i)
      case Some(mt) => Excludes(s, mt.end, m, c);
      case None => Excludes(s, i + 1, m, c);
    }
  }

  /** One match at `k` after a stretch without matches. */
  lemma Step(s: string, i: nat, k: nat, m: Matcher)
    requires Progressive(m) && i <= k < |s| && m(s, k).Some?
    requires forall j :: i <= j < k ==> m(s, j).None?
    ensures ReplaceFrom(s, i, m) == s[i..k] + m(s, k).value.replacement + ReplaceFrom(s, m(s, k).value.end, m)
  {
    SkipTo(s, i, k, m);
  }

  /** The end of the string after a stretch without matches. */
  lemma Rest(s: string, i: nat, m: Matcher)
    requires Progressive(m) && i <= |s|
    requires forall j :: i <= j < |s| ==> m(s, j).None?
    ensures ReplaceFrom(s, i, m) == s[i..]
  {
    SkipTo(s, i, |s|, m);
  }

  /** A string with exactly one match. */
  lemma ReplaceOne(s: string, m: Matcher, k: nat)
    requires Progressive(m) && k < |s| && m(s, k).Some?
    requires forall j :: 0 <= j < k ==> m(s, j).None?
    requires forall j :: m(s, k).value.end <= j < |s| ==> m(s, j).None?
    ensures ReplaceAll(s, m) == s[..k] + m(s, k).value.replacement + s[m(s, k).value.end..]
    ensures ReplaceAll(s, m) == s[0..k] + m(s, k).value.replacement + s[m(s, k).value.end..|s|]
  {
    Step(s, 0, k, m);
    Rest(s, m(s, k).value.end, m);
    assert s[0..k] == s[..k] && s[m(s, k).value.end..|s|] == s[m(s, k).value.end..];
  }

  /** A pass whose every replacement is empty only deletes characters. */
  lemma {:induction false} OnlyDeletes(s: string, i: nat, m: Matcher)
    requires Progressive(m) && i <= |s|
    requires forall j :: i <= j < |s| && m(s, j).Some? ==> m(s, j).value.replacement == ""
    ensures multiset(ReplaceFrom(s, i, m)) <= multiset(s[i..])
    decreases |s| - i
  {
    if i < |s| {
      match m(s, i)
      case Some(mt) =>
        OnlyDeletes(s, mt.end, m);
        assert ReplaceFrom(s, i, m) == ReplaceFrom(s, mt.end, m);
        WithinSuffix(s, i, mt.end, ReplaceFrom(s, mt.end, m));
      case None =>
        OnlyDeletes(s, i + 1, m);
        assert ReplaceFrom(s, i, m) == [s[i]] + ReplaceFrom(s, i + 1, m);
        KeepFirst(s, i, ReplaceFrom(s, i + 1, m));
    }
  }

  /** What is within a suffix of `s[i..]` is within `s[i..]`. */
  lemma WithinSuffix(s: string, i: nat, e: nat, r: string)
    requires i <= e <= |s| && multiset(r) <= multiset(s[e..])
    ensures multiset(r) <= multiset(s[i..])
  {
    assert s[i..] == s[i..e] + s[e..];
  }

  /** Keeping the first character of `s[i..]` in front of what is within the rest. */
  lemma KeepFirst(s: string, i: nat, r: string)
    requires i < |s| && multiset(r) <= multiset(s[i + 1..])
    ensures multiset([s[i]] + r) <= multiset(s[i..])
  {
    assert s[i..] == [s[i]] + s[i + 1..];
  }
}
