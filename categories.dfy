/** The category sidebar of `ContentLoader.createCategoriesHTML`: the posts are counted per
    category in a dictionary, and each entry becomes a link that is active for the selected
    category. */
module Categories {
  import opened Text
  import opened Posts

  /** The number of posts whose category is `c`. */
  function CountOf(posts: seq<Post>, c: string): nat
    decreases |posts|
  {
    if posts == [] then 0
    else CountOf(posts[..|posts| - 1], c) + (if posts[|posts| - 1].category == c then 1 else 0)
  }

  /** The categories in the order they first occur: the order in which the dictionary's
      keys were inserted. */
  function CategoryOrder(posts: seq<Post>): (r: seq<string>)
    decreases |posts|
  {
    if posts == [] then []
    else
      var order := CategoryOrder(posts[..|posts| - 1]);
      var c := posts[|posts| - 1].category;
      if c in order then order else order + [c]
  }

  /** The `forEach` that fills `categories`, with the order of its keys beside it. */
  method CountCategories(posts: seq<Post>) returns (counts: map<string, nat>, order: seq<string>)
    ensures order == CategoryOrder(posts)
    ensures forall c :: c in counts <==> c in order
    ensures forall c :: c in counts ==> counts[c] == CountOf(posts, c)
  {
    counts := map[];
    order := [];
    var i := 0;
    while i < |posts|
      invariant 0 <= i <= |posts|
      invariant order == CategoryOrder(posts[..i])
      invariant forall c :: c in counts <==> c in order
      invariant forall c :: c in counts ==> counts[c] == CountOf(posts[..i], c)
    {
      var c := posts[i].category;
      assert posts[..i + 1][..i] == posts[..i];
      assert posts[..i + 1][i] == posts[i];
      if c !in order {
        CountOfAbsent(posts[..i], c, order);
      }
      var previous := if c in counts then counts[c] else 0;
      counts := counts[c := previous + 1];
      if c !in order {
        order := order + [c];
      }
      i := i + 1;
    }
    assert posts[..i] == posts;
  }

  /** A category that is not in the order has no posts. */
  lemma CountOfAbsent(posts: seq<Post>, c: string, order: seq<string>)
    requires order == CategoryOrder(posts) && c !in order
    ensures CountOf(posts, c) == 0
  {
    OrderMembers(posts, c);
  }

  /** A category is listed exactly when it counts some post. */
  lemma {:induction false} OrderMembers(posts: seq<Post>, c: string)
    ensures c in CategoryOrder(posts) <==> CountOf(posts, c) > 0
    decreases |posts|
  {
    if posts != [] {
      OrderMembers(posts[..|posts| - 1], c);
    }
  }

  /** A category is listed exactly when some post has it. */
  lemma {:induction false} OrderIsCategories(posts: seq<Post>, c: string)
    ensures c in CategoryOrder(posts) <==> exists p :: p in posts && p.category == c
    decreases |posts|
  {
    if posts != [] {
      var init := posts[..|posts| - 1];
      OrderIsCategories(init, c);
      assert posts == init + [posts[|posts| - 1]];
      if exists p :: p in posts && p.category == c {
        var p :| p in posts && p.category == c;
        if p != posts[|posts| - 1] {
          assert p in init;
        }
      }
    }
  }

  /** No category is listed twice. */
  lemma {:induction false} OrderDistinct(posts: seq<Post>)
    ensures Distinct(CategoryOrder(posts))
    decreases |posts|
  {
    if posts != [] {
      OrderDistinct(posts[..|posts| - 1]);
    }
  }

  /** The counts of the categories `cats`, added up. */
  function Total(posts: seq<Post>, cats: seq<string>): nat {
    if cats == [] then 0 else CountOf(posts, cats[0]) + Total(posts, cats[1..])
  }

  lemma {:induction false} TotalSnoc(posts: seq<Post>, cats: seq<string>, c: string)
    ensures Total(posts, cats + [c]) == Total(posts, cats) + CountOf(posts, c)
  {
    if cats != [] {
      assert (cats + [c])[1..] == cats[1..] + [c];
      TotalSnoc(posts, cats[1..], c);
    } else {
      assert [c][1..] == [];
    }
  }

  /** One more post adds one to the total of a list of distinct categories holding its
      category, and nothing to one that does not. */
  lemma {:induction false} TotalAddPost(posts: seq<Post>, p: Post, cats: seq<string>)
    requires Distinct(cats)
    ensures Total(posts + [p], cats) == Total(posts, cats) + (if p.category in cats then 1 else 0)
  {
    if cats != [] {
      assert (posts + [p])[..|posts + [p]| - 1] == posts;
      assert Distinct(cats[1..]) by {
        forall i, j | 0 <= i < j < |cats[1..]|
          ensures cats[1..][i] != cats[1..][j]
        {
          assert cats[1..][i] == cats[i + 1] && cats[1..][j] == cats[j + 1];
        }
      }
      TotalAddPost(posts, p, cats[1..]);
      if cats[0] == p.category {
        assert p.category !in cats[1..] by {
          forall k | 0 <= k < |cats[1..]|
            ensures cats[1..][k] != cats[0]
          {
            assert cats[1..][k] == cats[k + 1];
          }
        }
      }
      assert cats == [cats[0]] + cats[1..];
    }
  }

  /** The counts add up to the number of posts. */
  lemma {:induction false} CountsSum(posts: seq<Post>)
    ensures Total(posts, CategoryOrder(posts)) == |posts|
    decreases |posts|
  {
    if posts != [] {
      var init := posts[..|posts| - 1];
      var p := posts[|posts| - 1];
      var order := CategoryOrder(init);
      CountsSum(init);
      OrderDistinct(init);
      assert posts == init + [p];
      TotalAddPost(init, p, order);
      if p.category !in order {
        TotalSnoc(posts, order, p.category);
        OrderMembers(init, p.category);
      }
    }
  }

  // ---- The entries of the sidebar ----

  /** One link of the sidebar: its category, its count, whether it is active, its address. */
  datatype CategoryLink = CategoryLink(category: string, count: nat, active: bool, href: string)

  /** The link for `category`: active when a category is selected and it is the same
      ignoring case; an active link leads back to all posts, any other to its category. */
  function LinkFor(category: string, count: nat, selected: Option<string>): CategoryLink {
    var active := Selected(selected) && ToLower(category) == ToLower(selected.value);
    CategoryLink(category, count, active,
                 if active then "blog.html" else "blog.html?category=" + ToLower(category))
  }

  /** `createCategoriesHTML`, up to the markup around each link. */
  method CreateCategories(posts: seq<Post>, selected: Option<string>) returns (links: seq<CategoryLink>)
    ensures var order := CategoryOrder(posts);
            && |links| == |order|
            && forall k :: 0 <= k < |links| ==>
                 links[k] == LinkFor(order[k], CountOf(posts, order[k]), selected)
  {
    var counts, order := CountCategories(posts);
    links := seq(|order|, (k: int) requires 0 <= k < |order| && order[k] in counts =>
                   LinkFor(order[k], counts[order[k]], selected));
  }

  /** Which links are active: exactly those of the selected category, ignoring case. */
  lemma ActiveLinks(category: string, count: nat, selected: Option<string>)
    ensures LinkFor(category, count, selected).active
            <==> selected.Some? && selected.value != [] && ToLower(category) == ToLower(selected.value)
    ensures LinkFor(category, count, selected).active <==> LinkFor(category, count, selected).href == "blog.html"
  {
    var link := LinkFor(category, count, selected);
    if !link.active {
      assert |link.href| > |"blog.html"|;
    }
  }

  /** Following an inactive link selects the posts of its category, ignoring case, when
      the category reads back from the query string as it was written: it holds none of
      `&`, `#`, `+` and `%`, which `URLSearchParams` would cut or decode. */
  lemma FollowLink(posts: seq<Post>, category: string, count: nat, selected: Option<string>)
    requires category != []
    requires forall k :: 0 <= k < |category| ==> category[k] !in "&#+%"
    requires !LinkFor(category, count, selected).active
    ensures var v := ToLower(category);
            && LinkFor(category, count, selected).href == "blog.html?category=" + v
            && forall p :: p in PostsToShow(posts, Some(v)) <==>
                 p in posts && ToLower(p.category) == ToLower(category)
  {
    ToLowerTwice(category);
  }
}
