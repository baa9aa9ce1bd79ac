/** The recent-searches list of `ContentLoader`: `saveSearchHistory`, `removeFromHistory`,
    `clearSearchHistory`, and the index arithmetic of `navigateSearchHistory`. The list
    that `localStorage` holds is passed in and handed back. */
module SearchHistory {
  import opened Text

  /** How many terms the history keeps. */
  const HistoryLimit: nat := 10

  /** `history.filter(t => t !== term)`. */
  function Without(history: seq<string>, term: string): (r: seq<string>)
    ensures |r| <= |history|
    ensures forall x :: x in r <==> x in history && x != term
  {
    if history == [] then []
    else (if history[0] == term then [] else [history[0]]) + Without(history[1..], term)
  }

  /** The first `n` elements, as `slice(0, n)` takes them. */
  function Take(s: seq<string>, n: nat): (r: seq<string>)
    ensures |r| == if |s| < n then |s| else n
    ensures r == s[..|r|]
  {
    if |s| <= n then s else s[..n]
  }

  /** The history after searching for `term`: unchanged for a blank term; otherwise the
      term in front of every other term, cut to the limit. */
  function Saved(history: seq<string>, term: string): seq<string> {
    if Trim(term) == [] then history else Take([term] + Without(history, term), HistoryLimit)
  }

  /** `saveSearchHistory`, on the stored list: filter, `unshift`, `slice`. */
  method SaveSearchHistory(stored: seq<string>, searchTerm: string) returns (history: seq<string>)
    ensures history == Saved(stored, searchTerm)
  {
    history := stored;
    if Trim(searchTerm) == [] {
      return;
    }
    history := Without(history, searchTerm);
    history := [searchTerm] + history;
    if |history| > HistoryLimit {
      history := history[..HistoryLimit];
    }
  }

  /** `removeFromHistory`, on the stored list. */
  method RemoveFromHistory(stored: seq<string>, term: string) returns (history: seq<string>)
    ensures history == Without(stored, term)
  {
    history := stored;
    history := Without(history, term);
  }

  /** `clearSearchHistory`: the stored list is dropped, and the empty list is shown. */
  method ClearSearchHistory(stored: seq<string>) returns (history: seq<string>)
    ensures history == []
  {
    history := [];
  }

  // ---- Properties of the list operations ----

  /** `sub` is `s` with some elements left out, the rest in their order. */
  predicate IsSubsequence(sub: seq<string>, s: seq<string>)
    decreases |s|
  {
    if sub == [] then true
    else if s == [] then false
    else if sub[0] == s[0] then IsSubsequence(sub[1..], s[1..])
    else IsSubsequence(sub, s[1..])
  }

  /** Removing a term keeps every other term, in order. */
  lemma {:induction false} WithoutIsSubsequence(history: seq<string>, term: string)
    ensures IsSubsequence(Without(history, term), history)
  {
    if history != [] {
      WithoutIsSubsequence(history[1..], term);
      var rest := Without(history[1..], term);
      if history[0] == term {
        assert Without(history, term) == rest;
        SubsequenceOfTail(rest, history);
      } else {
        assert Without(history, term) == [history[0]] + rest;
        assert ([history[0]] + rest)[1..] == rest;
      }
    }
  }

  /** A subsequence of the tail is a subsequence of the whole. */
  lemma {:induction false} SubsequenceOfTail(sub: seq<string>, s: seq<string>)
    requires s != [] && IsSubsequence(sub, s[1..])
    ensures IsSubsequence(sub, s)
    decreases |s|, 0
  {
    if sub != [] && sub[0] == s[0] {
      DropHead(sub, s[1..]);
    }
  }

  /** Leaving out the first element of a subsequence gives a subsequence. */
  lemma {:induction false} DropHead(sub: seq<string>, t: seq<string>)
    requires sub != [] && IsSubsequence(sub, t)
    ensures IsSubsequence(sub[1..], t)
    decreases |t|, 1
  {
    if sub[0] == t[0] {
      SubsequenceOfTail(sub[1..], t);
    } else {
      DropHead(sub, t[1..]);
      SubsequenceOfTail(sub[1..], t);
    }
  }

  /** The count of a term in a list. */
  function Occurrences(s: seq<string>, x: string): nat {
    if s == [] then 0 else (if s[0] == x then 1 else 0) + Occurrences(s[1..], x)
  }

  lemma {:induction false} OccurrencesAbsent(s: seq<string>, x: string)
    requires x !in s
    ensures Occurrences(s, x) == 0
  {
    if s != [] {
      OccurrencesAbsent(s[1..], x);
    }
  }

  /** Removing a term makes the list shorter by exactly its occurrences. */
  lemma {:induction false} WithoutLength(history: seq<string>, term: string)
    ensures |Without(history, term)| + Occurrences(history, term) == |history|
  {
    if history != [] {
      WithoutLength(history[1..], term);
    }
  }

  /** Removing keeps a list of distinct terms distinct. */
  lemma {:induction false} WithoutDistinct(history: seq<string>, term: string)
    requires Distinct(history)
    ensures Distinct(Without(history, term))
  {
    if history != [] {
      assert Distinct(history[1..]) by {
        forall i, j | 0 <= i < j < |history[1..]|
          ensures history[1..][i] != history[1..][j]
        {
          assert history[1..][i] == history[i + 1] && history[1..][j] == history[j + 1];
        }
      }
      WithoutDistinct(history[1..], term);
      var rest := Without(history[1..], term);
      if history[0] != term {
        assert history[0] !in rest by {
          forall k | 0 <= k < |history[1..]|
            ensures history[1..][k] != history[0]
          {
            assert history[1..][k] == history[k + 1];
          }
        }
        ConsDistinct(history[0], rest);
      }
    }
  }

  /** Removing a term that is not there changes nothing. */
  lemma {:induction false} WithoutAbsent(history: seq<string>, term: string)
    requires term !in history
    ensures Without(history, term) == history
  {
    if history != [] {
      WithoutAbsent(history[1..], term);
      assert [history[0]] + history[1..] == history;
    }
  }

  /** A saved term comes first and appears once; the others follow in their old order;
      the list never exceeds the limit. */
  lemma SavedShape(history: seq<string>, term: string)
    requires Trim(term) != []
    ensures var r := Saved(history, term);
            && r != [] && r[0] == term
            && term !in r[1..]
            && Occurrences(r, term) == 1
            && |r| <= HistoryLimit
            && |r| == (if |history| - Occurrences(history, term) < HistoryLimit
                       then |history| - Occurrences(history, term) + 1 else HistoryLimit)
            && r[1..] == Take(Without(history, term), HistoryLimit - 1)
            && IsSubsequence(r[1..], history)
  {
    var w := Without(history, term);
    var r := Saved(history, term);
    WithoutLength(history, term);
    assert r == Take([term] + w, HistoryLimit);
    assert r[1..] == Take(w, HistoryLimit - 1);
    assert term !in r[1..];
    OccurrencesAbsent(r[1..], term);
    WithoutIsSubsequence(history, term);
    TakeIsSubsequence(w, HistoryLimit - 1, history);
  }

  /** A prefix of a subsequence is a subsequence. */
  lemma {:induction false} TakeIsSubsequence(sub: seq<string>, n: nat, s: seq<string>)
    requires IsSubsequence(sub, s)
    ensures IsSubsequence(Take(sub, n), s)
    decreases |s|
  {
    if Take(sub, n) != [] && s != [] {
      var t := Take(sub, n);
      assert t[0] == sub[0];
      if sub[0] == s[0] {
        assert t[1..] == Take(sub[1..], n - 1);
        TakeIsSubsequence(sub[1..], n - 1, s[1..]);
      } else {
        TakeIsSubsequence(sub, n, s[1..]);
      }
    }
  }

  /** A term in front of distinct terms it is not among keeps them distinct. */
  lemma ConsDistinct(x: string, s: seq<string>)
    requires Distinct(s) && x !in s
    ensures Distinct([x] + s)
  {
    var r := [x] + s;
    forall i, j | 0 <= i < j < |r|
      ensures r[i] != r[j]
    {
      assert r[j] == s[j - 1];
      if i > 0 {
        assert r[i] == s[i - 1];
      }
    }
  }

  lemma TakeDistinct(s: seq<string>, n: nat)
    requires Distinct(s)
    ensures Distinct(Take(s, n))
  {
    var r := Take(s, n);
    forall i, j | 0 <= i < j < |r|
      ensures r[i] != r[j]
    {
      assert r[i] == s[i] && r[j] == s[j];
    }
  }

  /** Saving keeps a list of distinct terms distinct. */
  lemma SavedDistinct(history: seq<string>, term: string)
    requires Distinct(history)
    ensures Distinct(Saved(history, term))
  {
    if Trim(term) != [] {
      var w := Without(history, term);
      WithoutDistinct(history, term);
      ConsDistinct(term, w);
      TakeDistinct([term] + w, HistoryLimit);
    }
  }

  /** Searching for the same term twice leaves the history as the first search did. */
  lemma SavedTwice(history: seq<string>, term: string)
    ensures Saved(Saved(history, term), term) == Saved(history, term)
  {
    if Trim(term) != [] {
      var r := Saved(history, term);
      SavedShape(history, term);
      WithoutAbsent(r[1..], term);
      assert r == [term] + r[1..];
      assert Without(r, term) == r[1..];
    }
  }

  /** Removing the term just searched for gives the earlier history without it, cut to one
      less than the limit. */
  lemma RemoveAfterSave(history: seq<string>, term: string)
    requires Trim(term) != []
    ensures Without(Saved(history, term), term) == Take(Without(history, term), HistoryLimit - 1)
  {
    var r := Saved(history, term);
    SavedShape(history, term);
    WithoutAbsent(r[1..], term);
    assert r == [term] + r[1..];
  }

  /** Removing twice is removing once. */
  lemma WithoutTwice(history: seq<string>, term: string)
    ensures Without(Without(history, term), term) == Without(history, term)
  {
    WithoutAbsent(Without(history, term), term);
  }

  // ---- navigateSearchHistory ----

  /** The index selected after an arrow key, from the index of the selected item (-1 when
      none is) among `count` items: down moves to the next item or back to the first, up
      to the previous item or round to the last. */
  function NextIndex(current: int, count: nat, down: bool): int {
    if down then (if current < count - 1 then current + 1 else 0)
    else (if current > 0 then current - 1 else count - 1)
  }

  /** The item that ends up selected: `items[newIndex]` when it exists. */
  function Selection(current: int, count: nat, down: bool): (r: Option<nat>)
    ensures r.Some? ==> r.value < count
    ensures r.Some? <==> 0 <= NextIndex(current, count, down) < count
    ensures r.Some? ==> r.value == NextIndex(current, count, down)
  {
    var i := NextIndex(current, count, down);
    if 0 <= i < count then Some(i) else None
  }

  /** With at least one item, a key always selects an item; with none it selects nothing. */
  lemma SelectionExists(current: int, count: nat, down: bool)
    requires -1 <= current < count
    ensures Selection(current, count, down).Some? <==> count > 0
  {
  }

  /** With nothing selected, down selects the first item and up the last. */
  lemma NothingSelected(count: nat)
    requires count > 0
    ensures Selection(-1, count, true) == Some(0)
    ensures Selection(-1, count, false) == Some(count - 1)
  {
  }

  /** Up undoes down, and down undoes up. */
  lemma UpUndoesDown(current: int, count: nat)
    requires 0 <= current < count
    ensures NextIndex(NextIndex(current, count, true), count, false) == current
    ensures NextIndex(NextIndex(current, count, false), count, true) == current
  {
  }

  /** `steps` presses of down. */
  function Downs(current: int, count: nat, steps: nat): int {
    if steps == 0 then current else NextIndex(Downs(current, count, steps - 1), count, true)
  }

  lemma {:induction false} DownsAdd(current: int, count: nat, a: nat, b: nat)
    ensures Downs(current, count, a + b) == Downs(Downs(current, count, a), count, b)
  {
    if b > 0 {
      DownsAdd(current, count, a, b - 1);
    }
  }

  /** Before the last item, down moves one place forward each time. */
  lemma {:induction false} DownsForward(current: int, count: nat, steps: nat)
    requires 0 <= current && current + steps < count
    ensures Downs(current, count, steps) == current + steps
  {
    if steps > 0 {
      DownsForward(current, count, steps - 1);
    }
  }

  /** Pressing down once per item comes back round to where it started. */
  lemma DownsRound(current: int, count: nat)
    requires 0 <= current < count
    ensures Downs(current, count, count) == current
  {
    var toLast := count - 1 - current;
    DownsForward(current, count, toLast);
    assert Downs(current, count, toLast + 1) == 0;
    DownsForward(0, count, current);
    DownsAdd(current, count, toLast + 1, current);
  }
}
