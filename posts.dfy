/** The blog-post records `ContentLoader` works on, and the list queries over them:
    the latest post of a category, the first two business updates, the posts of the
    selected category, and the search filter. */
module Posts {
  import opened Text

  /** The fields of a post record these queries read. */
  datatype Post = Post(title: string, excerpt: string, content: string, category: string)

  /** `Array.prototype.filter`. */
  function Filter(s: seq<Post>, keep: Post -> bool): (r: seq<Post>)
    ensures |r| <= |s|
    ensures forall x :: x in r <==> x in s && keep(x)
  {
    if s == [] then [] else (if keep(s[0]) then [s[0]] else []) + Filter(s[1..], keep)
  }

  /** `s[i]` is the first element `keep` accepts. */
  predicate FirstKept(s: seq<Post>, keep: Post -> bool, i: int) {
    0 <= i < |s| && keep(s[i]) && forall j :: 0 <= j < i ==> !keep(s[j])
  }

  /** The head of the filtered list is the first accepted element of the list. */
  lemma {:induction false} FilterHead(s: seq<Post>, keep: Post -> bool)
    requires Filter(s, keep) != []
    ensures exists i :: FirstKept(s, keep, i) && Filter(s, keep)[0] == s[i]
  {
    if keep(s[0]) {
      assert FirstKept(s, keep, 0);
    } else {
      FilterHead(s[1..], keep);
      var i :| FirstKept(s[1..], keep, i) && Filter(s[1..], keep)[0] == s[1..][i];
      assert FirstKept(s, keep, i + 1);
    }
  }

  /** Filtering keeps the order: a concatenation is filtered part by part. */
  lemma {:induction false} FilterAppend(a: seq<Post>, b: seq<Post>, keep: Post -> bool)
    ensures Filter(a + b, keep) == Filter(a, keep) + Filter(b, keep)
  {
    if a == [] {
      assert a + b == b;
    } else {
      assert (a + b)[1..] == a[1..] + b;
      FilterAppend(a[1..], b, keep);
    }
  }

  // ---- getLatestPostByCategory, getLatestBusinessUpdates ----

  function HasCategory(category: string): Post -> bool {
    (p: Post) => p.category == category
  }

  /** The first post of the category (compared exactly), or none. */
  function GetLatestPostByCategory(posts: seq<Post>, category: string): (r: Option<Post>)
    ensures r.None? <==> forall p :: p in posts ==> p.category != category
    ensures r.Some? ==> r.value in posts && r.value.category == category
  {
    var found := Filter(posts, HasCategory(category));
    if |found| > 0 then
      assert found[0] in found;
      Some(found[0])
    else
      assert forall p :: p in posts && p.category == category ==> p in found;
      None
  }

  /** What is returned is the earliest post of the category in list order. */
  lemma LatestIsEarliest(posts: seq<Post>, category: string)
    requires GetLatestPostByCategory(posts, category).Some?
    ensures exists i :: FirstKept(posts, HasCategory(category), i)
                        && GetLatestPostByCategory(posts, category) == Some(posts[i])
  {
    FilterHead(posts, HasCategory(category));
  }

  /** `slice(0, 2)`: the first two updates, or all of them when there are fewer. */
  function GetLatestBusinessUpdates<T>(updates: seq<T>): (r: seq<T>)
    ensures |r| == if |updates| < 2 then |updates| else 2
    ensures forall k :: 0 <= k < |r| ==> r[k] == updates[k]
  {
    if |updates| < 2 then updates else updates[..2]
  }

  // ---- The category filter of updateBlogPage ----

  /** Is a category-selecting query parameter present and not empty? */
  predicate Selected(selected: Option<string>) {
    selected.Some? && selected.value != ""
  }

  function SameCategory(selected: string): Post -> bool {
    (p: Post) => ToLower(p.category) == ToLower(selected)
  }

  /** The posts of the selected category, compared ignoring case; all posts when no
      category is selected. */
  function PostsToShow(posts: seq<Post>, selected: Option<string>): (r: seq<Post>)
    ensures !Selected(selected) ==> r == posts
    ensures Selected(selected) ==>
              forall p :: p in r <==> p in posts && ToLower(p.category) == ToLower(selected.value)
  {
    if Selected(selected) then Filter(posts, SameCategory(selected.value)) else posts
  }

  // ---- The search filter of performSearch ----

  /** Does the lower-cased title, excerpt and content, joined by spaces, contain the
      lower-cased term? */
  predicate Matches(post: Post, term: string) {
    Contains(ToLower(post.title + " " + post.excerpt + " " + post.content), ToLower(term))
  }

  function MatchesTerm(term: string): Post -> bool {
    (p: Post) => Matches(p, term)
  }

  /** The posts found for a term; a blank term clears the search instead. */
  function SearchResults(posts: seq<Post>, term: string): (r: Option<seq<Post>>)
    ensures r.None? <==> Trim(term) == []
    ensures r.Some? ==> forall p :: p in r.value <==> p in posts && Matches(p, term)
  {
    if Trim(term) == [] then None else Some(Filter(posts, MatchesTerm(term)))
  }

  lemma ToLowerTwice(s: string)
    ensures ToLower(ToLower(s)) == ToLower(s)
  {
    assert forall k :: 0 <= k < |s| ==> ToLower(ToLower(s))[k] == ToLower(s)[k];
  }

  /** An occurrence in one of three strings is an occurrence in them joined by
      spaces. */
  lemma ContainsInJoined(a: string, b: string, c: string, t: string)
    requires Contains(a, t) || Contains(b, t) || Contains(c, t)
    ensures Contains(a + " " + b + " " + c, t)
  {
    var s := a + " " + b + " " + c;
    if Contains(a, t) {
      var k :| 0 <= k <= |a| - |t| && At(a, k, t);
      assert s[k..k + |t|] == a[k..k + |t|];
      assert At(s, k, t);
    } else if Contains(b, t) {
      var k :| 0 <= k <= |b| - |t| && At(b, k, t);
      var o := |a| + 1;
      assert s[o + k..o + k + |t|] == b[k..k + |t|];
      assert At(s, o + k, t);
    } else {
      var k :| 0 <= k <= |c| - |t| && At(c, k, t);
      var o := |a| + |b| + 2;
      assert s[o + k..o + k + |t|] == c[k..k + |t|];
      assert At(s, o + k, t);
    }
  }

  lemma {:induction false} LowerConcat(a: string, b: string)
    ensures ToLower(a + b) == ToLower(a) + ToLower(b)
  {
    if a == [] {
      assert a + b == b;
    } else {
      assert (a + b)[1..] == a[1..] + b;
      LowerConcat(a[1..], b);
    }
  }

  /** Lower-casing the joined fields is joining the lower-cased fields. */
  lemma LowerJoined(post: Post)
    ensures ToLower(post.title + " " + post.excerpt + " " + post.content)
            == ToLower(post.title) + " " + ToLower(post.excerpt) + " " + ToLower(post.content)
  {
    var t, e, c := post.title, post.excerpt, post.content;
    LowerConcat(t, " ");
    LowerConcat(t + " ", e);
    LowerConcat(t + " " + e, " ");
    LowerConcat(t + " " + e + " ", c);
    assert ToLower(" ") == " ";
  }

  /** The search ignores case: terms that differ only in case find the same posts. */
  lemma SearchIgnoresCase(post: Post, term: string, other: string)
    requires ToLower(other) == ToLower(term)
    ensures Matches(post, other) == Matches(post, term)
  {
  }

  /** An upper-case term finds what its lower-case form finds. */
  lemma SearchLowerTerm(post: Post, term: string)
    ensures Matches(post, ToLower(term)) == Matches(post, term)
  {
    ToLowerTwice(term);
  }

  /** A term found in the title, the excerpt or the content, ignoring case, finds
      the post. */
  lemma SearchFindsParts(post: Post, term: string)
    requires || Contains(ToLower(post.title), ToLower(term))
             || Contains(ToLower(post.excerpt), ToLower(term))
             || Contains(ToLower(post.content), ToLower(term))
    ensures Matches(post, term)
  {
    LowerJoined(post);
    ContainsInJoined(ToLower(post.title), ToLower(post.excerpt), ToLower(post.content), ToLower(term));
  }
}
