/** Paging of the blog list: `ContentLoader.createPaginationHTML`, the page number read
    from the query string with `parseInt(...) || 1`, and the slice of four posts that
    `updateBlogPage` shows. */
module Pagination {
  import opened Text
  import opened Posts

  const PostsPerPage: nat := 4

  // ---- parseInt(urlParams.get('page')) || 1 ----

  function IsDecimal(c: char): bool { '0' <= c <= '9' }
  function IsHex(c: char): bool { ('0' <= c <= '9') || ('a' <= c <= 'f') || ('A' <= c <= 'F') }

  function HexDigitValue(c: char): nat
    requires IsHex(c)
  {
    if '0' <= c <= '9' then c as int - '0' as int
    else if 'a' <= c <= 'f' then c as int - 'a' as int + 10
    else c as int - 'A' as int + 10
  }

  function HexValue(s: string): nat
    requires forall k :: 0 <= k < |s| ==> IsHex(s[k])
  {
    if s == [] then 0 else HexValue(s[..|s| - 1]) * 16 + HexDigitValue(s[|s| - 1])
  }

  /** `parseInt(s)` without a radix, on the values it can return exactly: leading white
      space is skipped, one sign is read, and the number follows; no digit at all gives
      `NaN`, here `None`. */
  function ParseInt(s: string): (r: Option<int>)
    ensures var p := NumberStart(s);
            r.None? <==> if At(s, p, "0x") || At(s, p, "0X") then p + 2 == |s| || !IsHex(s[p + 2])
                         else p == |s| || !IsDecimal(s[p])
    ensures r.Some? && r.value < 0 ==> NumberStart(s) > 0 && s[NumberStart(s) - 1] == '-'
  {
    var a := Span(s, 0, Space);
    var negative := a < |s| && s[a] == '-';
    match Magnitude(s, NumberStart(s))
    case None => None
    case Some(v) => Some(if negative then -v else v)
  }

  /** Where the number starts: after the leading white space and at most one sign. */
  function NumberStart(s: string): (p: nat)
    ensures p <= |s|
  {
    var a := Span(s, 0, Space);
    if a < |s| && (s[a] == '-' || s[a] == '+') then a + 1 else a
  }

  /** The unsigned number at `p`: a `0x` or `0X` prefix selects base 16, and the longest
      run of digits of the base is read. */
  function Magnitude(s: string, p: nat): (r: Option<int>)
    requires p <= |s|
    ensures r.Some? ==> r.value >= 0
  {
    if At(s, p, "0x") || At(s, p, "0X") then
      var e := Span(s, p + 2, IsHex);
      var digits := s[p + 2..e];
      assert forall k :: 0 <= k < |digits| ==> digits[k] == s[p + 2 + k];
      if e == p + 2 then None else Some(HexValue(digits) as int)
    else
      var e := Span(s, p, IsDecimal);
      var digits := s[p..e];
      assert forall k :: 0 <= k < |digits| ==> digits[k] == s[p + k];
      if e == p then None else Some(DigitsValue(digits) as int)
  }

  /** The current page: the parsed `page` parameter, or 1 when it is missing, does not
      parse, or is zero (the falsy values `||` replaces). */
  function CurrentPage(param: Option<string>): (page: int)
    ensures page != 0
    ensures param.None? ==> page == 1
    ensures param.Some? && ParseInt(param.value).None? ==> page == 1
    ensures param.Some? && ParseInt(param.value).Some? && ParseInt(param.value).value != 0
            ==> page == ParseInt(param.value).value
  {
    match param
    case None => 1
    case Some(text) =>
      match ParseInt(text)
      case None => 1
      case Some(v) => if v == 0 then 1 else v
  }

  /** The digits of `d`, followed by something that is not a digit, form the run at `p`. */
  lemma DecimalRun(s: string, p: nat, d: string, rest: string)
    requires p <= |s| && s[p..] == d + rest
    requires forall k :: 0 <= k < |d| ==> '0' <= d[k] <= '9'
    requires rest == [] || !IsDecimal(rest[0])
    ensures Span(s, p, IsDecimal) == p + |d| && s[p..p + |d|] == d
  {
    assert forall k :: p <= k < p + |d| ==> s[k] == s[p..][k - p];
    assert p + |d| == |s| || s[p + |d|] == rest[0];
    assert s[p..p + |d|] == s[p..][..|d|];
  }

  /** Decimal digits not starting with `0x` are read as their value. */
  lemma MagnitudeDecimal(s: string, p: nat, d: string, rest: string)
    requires p <= |s| && s[p..] == d + rest && d != []
    requires forall k :: 0 <= k < |d| ==> '0' <= d[k] <= '9'
    requires rest == [] || !IsDecimal(rest[0])
    requires !At(s, p, "0x") && !At(s, p, "0X")
    ensures Magnitude(s, p) == Some(DigitsValue(d) as int)
  {
    DecimalRun(s, p, d, rest);
    var e := Span(s, p, IsDecimal);
    assert e != p && s[p..e] == d;
  }

  /** Where `parseInt` starts reading digits, and with which sign. */
  lemma StartsUnsigned(s: string, v: int)
    requires s != [] && IsDecimal(s[0]) && Magnitude(s, 0) == Some(v)
    ensures ParseInt(s) == Some(v)
  {
    assert Span(s, 0, Space) == 0;
  }

  lemma StartsSigned(s: string, v: int)
    requires s != [] && s[0] == '-' && Magnitude(s, 1) == Some(v)
    ensures ParseInt(s) == Some(-v)
  {
    assert Span(s, 0, Space) == 0;
  }

  /** The digits of a positive number never start a hexadecimal prefix. */
  lemma NoHexPrefix(s: string, p: nat, d: string, rest: string, n: nat)
    requires p <= |s| && s[p..] == d + rest && d == NatToString(n)
    requires n == 0 ==> rest == [] || (rest[0] != 'x' && rest[0] != 'X')
    ensures !At(s, p, "0x") && !At(s, p, "0X")
  {
    assert s[p] == s[p..][0] == d[0];
    if n == 0 {
      assert d == "0";
      if p + 1 < |s| {
        assert s[p + 1] == s[p..][1] == rest[0];
      }
      NotAtSecond(s, p, "0X");
      NotAtSecond(s, p, "0x");
    } else {
      NotAtHead(s, p, "0x");
      NotAtHead(s, p, "0X");
    }
  }

  /** A printed negative integer, followed by a non-digit, is read back. */
  lemma PrintedNegative(n: int, s: string, rest: string)
    requires n < 0 && s == IntToString(n) + rest
    requires rest == [] || !IsDecimal(rest[0])
    ensures ParseInt(s) == Some(n)
  {
    NegativeLayout(n, s, rest);
    SignedDigits(s, NatToString(-n), rest, -n);
  }

  /** A minus sign followed by the digits of `m` and a non-digit is read as `-m`. */
  lemma SignedDigits(s: string, d: string, rest: string, m: nat)
    requires s != [] && s[0] == '-' && s[1..] == d + rest && d == NatToString(m) && m > 0
    requires rest == [] || !IsDecimal(rest[0])
    ensures ParseInt(s) == Some(-(m as int))
  {
    NoHexPrefix(s, 1, d, rest, m);
    MagnitudeDecimal(s, 1, d, rest);
    NatToStringRoundTrip(m);
    StartsSigned(s, m);
  }

  lemma NegativeLayout(n: int, s: string, rest: string)
    requires n < 0 && s == IntToString(n) + rest
    ensures s != [] && s[0] == '-' && s[1..] == NatToString(-n) + rest
  {
    var d := NatToString(-n);
    assert IntToString(n) == "-" + d;
    assert s == ['-'] + (d + rest);
  }

  /** A printed non-negative integer, followed by a non-digit that does not turn a lone
      `0` into a hexadecimal prefix, is read back. */
  lemma PrintedNonNegative(n: nat, s: string, rest: string)
    requires s == IntToString(n) + rest
    requires rest == [] || !IsDecimal(rest[0])
    requires n == 0 ==> rest == [] || (rest[0] != 'x' && rest[0] != 'X')
    ensures ParseInt(s) == Some(n)
  {
    var d := NatToString(n);
    assert s[0..] == d + rest && s[0] == d[0];
    NoHexPrefix(s, 0, d, rest, n);
    MagnitudeDecimal(s, 0, d, rest);
    NatToStringRoundTrip(n);
    assert Magnitude(s, 0) == Some(n);
    StartsUnsigned(s, n);
  }

  /** Reading back a printed integer gives it back, whatever non-digit follows it, except
      that a `0` followed by `x` starts a hexadecimal number. */
  lemma ParseIntPrinted(n: int, rest: string)
    requires rest == [] || !IsDecimal(rest[0])
    requires n == 0 ==> rest == [] || (rest[0] != 'x' && rest[0] != 'X')
    ensures ParseInt(IntToString(n) + rest) == Some(n)
  {
    if n < 0 {
      PrintedNegative(n, IntToString(n) + rest, rest);
    } else {
      PrintedNonNegative(n, IntToString(n) + rest, rest);
    }
  }

  /** The page number a link carries is the page that `CurrentPage` reads back from it. */
  lemma CurrentPageOfLink(k: int)
    requires k != 0
    ensures CurrentPage(Some(IntToString(k))) == k
  {
    assert IntToString(k) + [] == IntToString(k);
    ParseIntPrinted(k, []);
  }

  // ---- postsToShow.slice(startIndex, endIndex) ----

  /** An index argument of `Array.prototype.slice` on a sequence of length `n`: a negative
      one counts from the end, and both are clamped to `0..n`. */
  function SliceIndex(k: int, n: nat): (r: nat)
    ensures r <= n
  {
    if k < 0 then (if n + k > 0 then n + k else 0) else if k < n then k else n
  }

  function JsSlice(s: seq<Post>, start: int, end: int): (r: seq<Post>)
    ensures |r| <= |s|
  {
    var from := SliceIndex(start, |s|);
    var to := SliceIndex(end, |s|);
    if from < to then s[from..to] else []
  }

  /** The posts shown on page `page`. */
  function Page(posts: seq<Post>, page: int): seq<Post> {
    var start := (page - 1) * PostsPerPage;
    JsSlice(posts, start, start + PostsPerPage)
  }

  function Min(a: int, b: int): int { if a < b then a else b }
  function Max0(a: int): nat { if a > 0 then a else 0 }

  /** `Math.ceil(n / postsPerPage)`. */
  function TotalPages(n: nat): (t: nat)
    ensures t == 0 <==> n == 0
    ensures t > 0 ==> PostsPerPage * (t - 1) < n <= PostsPerPage * t
  {
    (n + PostsPerPage - 1) / PostsPerPage
  }

  /** Page `k`, counted from 1, holds posts `4(k-1)` up to `4k`, as far as there are any. */
  lemma PageIsSlice(posts: seq<Post>, page: int)
    requires page >= 1
    ensures Page(posts, page)
            == posts[Min(|posts|, PostsPerPage * (page - 1))..Min(|posts|, PostsPerPage * page)]
    ensures |Page(posts, page)| <= PostsPerPage
  {
  }

  /** Every page before the last is full, and the last one is not empty. */
  lemma PageSizes(posts: seq<Post>, page: int)
    requires 1 <= page <= TotalPages(|posts|)
    ensures page < TotalPages(|posts|) ==> |Page(posts, page)| == PostsPerPage
    ensures page == TotalPages(|posts|) ==>
              Page(posts, page) == posts[PostsPerPage * (page - 1)..] && Page(posts, page) != []
  {
    PageIsSlice(posts, page);
  }

  /** A page past the last one is empty. */
  lemma PageBeyondLast(posts: seq<Post>, page: int)
    requires page > TotalPages(|posts|)
    ensures Page(posts, page) == []
  {
    PageIsSlice(posts, page);
  }

  /** A negative page number makes both slice indices count from the end: page -1 shows
      the four posts before the last four. */
  lemma NegativePage(posts: seq<Post>, page: int)
    requires page < 0
    ensures Page(posts, page)
            == posts[Max0(|posts| + PostsPerPage * (page - 1))..Max0(|posts| + PostsPerPage * page)]
  {
  }

  /** Pages `from` to `to`, one after the other. */
  function Pages(posts: seq<Post>, from: int, to: int): seq<Post>
    decreases to - from
  {
    if from > to then [] else Page(posts, from) + Pages(posts, from + 1, to)
  }

  lemma {:induction false} PagesFrom(posts: seq<Post>, k: int)
    requires 1 <= k <= TotalPages(|posts|) + 1
    ensures Pages(posts, k, TotalPages(|posts|)) == posts[Min(|posts|, PostsPerPage * (k - 1))..]
    decreases TotalPages(|posts|) + 1 - k
  {
    var t := TotalPages(|posts|);
    if k <= t {
      PagesFrom(posts, k + 1);
      PageIsSlice(posts, k);
      var a := Min(|posts|, PostsPerPage * (k - 1));
      var b := Min(|posts|, PostsPerPage * k);
      assert posts[a..] == posts[a..b] + posts[b..];
    }
  }

  /** The pages 1 to the last one, in order, show every post exactly once. */
  lemma PagesCover(posts: seq<Post>)
    ensures Pages(posts, 1, TotalPages(|posts|)) == posts
  {
    PagesFrom(posts, 1);
  }

  /** The posts `updateBlogPage` lists: of the selected category, on the requested page. */
  function BlogPage(posts: seq<Post>, selected: Option<string>, pageParam: Option<string>): seq<Post> {
    Page(PostsToShow(posts, selected), CurrentPage(pageParam))
  }

  lemma BlogPageShowsSelected(posts: seq<Post>, selected: Option<string>, pageParam: Option<string>)
    ensures |BlogPage(posts, selected, pageParam)| <= PostsPerPage
    ensures forall p :: p in BlogPage(posts, selected, pageParam) ==>
              p in posts && (Selected(selected) ==> ToLower(p.category) == ToLower(selected.value))
  {
    var shown := PostsToShow(posts, selected);
    var page := CurrentPage(pageParam);
    if page >= 1 {
      PageIsSlice(shown, page);
    } else {
      NegativePage(shown, page);
    }
    var r := BlogPage(posts, selected, pageParam);
    forall p | p in r
      ensures p in shown
    {
      var i :| 0 <= i < |r| && r[i] == p;
    }
  }

  // ---- createPaginationHTML ----

  /** One link of the pagination bar. */
  datatype PageLink = Previous(page: int) | Number(page: int, active: bool) | Next(page: int)

  /** The number links 1 to `k`; the one for `current` is active. */
  function Numbers(k: nat, current: int): (r: seq<PageLink>)
    ensures |r| == k
  {
    seq(k, (i: int) => Number(i + 1, i + 1 == current))
  }

  /** The links of the bar for `total` pages with `current` shown: none when there is at
      most one page; otherwise "Previous" after the first page, every page number, and
      "Next" before the last page. */
  function PageLinks(total: nat, current: int): seq<PageLink> {
    if total <= 1 then []
    else
      (if current > 1 then [Previous(current - 1)] else [])
      + Numbers(total, current)
      + (if current < total then [Next(current + 1)] else [])
  }

  /** The address of a page, keeping the selected category. */
  function PageUrl(selected: Option<string>, page: int): string {
    if Selected(selected) then "blog.html?category=" + selected.value + "&page=" + IntToString(page)
    else "blog.html?page=" + IntToString(page)
  }

  function LinkHtml(link: PageLink, selected: Option<string>): (r: string)
    ensures r != []
  {
    match link
    case Previous(page) =>
      "<a href=\"" + PageUrl(selected, page) + "\" class=\"pagination-link\">\U{2190} Previous</a>"
    case Number(page, active) =>
      "<a href=\"" + PageUrl(selected, page) + "\" class=\"pagination-link "
      + (if active then "active" else "") + "\">" + IntToString(page) + "</a>"
    case Next(page) =>
      "<a href=\"" + PageUrl(selected, page) + "\" class=\"pagination-link\">Next \U{2192}</a>"
  }

  function Render(links: seq<PageLink>, selected: Option<string>): string {
    if links == [] then "" else LinkHtml(links[0], selected) + Render(links[1..], selected)
  }

  lemma {:induction false} RenderAppend(a: seq<PageLink>, b: seq<PageLink>, selected: Option<string>)
    ensures Render(a + b, selected) == Render(a, selected) + Render(b, selected)
  {
    if a == [] {
      assert a + b == b;
    } else {
      assert (a + b)[1..] == a[1..] + b;
      RenderAppend(a[1..], b, selected);
    }
  }

  /** Building the bar link by link, as `createPaginationHTML` does, gives the rendering of
      `PageLinks`. */
  method CreatePaginationHtml(posts: seq<Post>, selected: Option<string>, currentPage: int)
    returns (html: string)
    ensures html == Render(PageLinks(TotalPages(|posts|), currentPage), selected)
  {
    var totalPages := TotalPages(|posts|);
    if totalPages <= 1 {
      return "";
    }
    var previous := if currentPage > 1 then LinkHtml(Previous(currentPage - 1), selected) else "";
    var numbers := NumberLinksHtml(totalPages, currentPage, selected);
    var next := if currentPage < totalPages then LinkHtml(Next(currentPage + 1), selected) else "";
    RenderLinks(totalPages, currentPage, selected);
    html := previous + numbers + next;
  }

  /** The loop over the page numbers. */
  method NumberLinksHtml(totalPages: nat, currentPage: int, selected: Option<string>)
    returns (html: string)
    ensures html == Render(Numbers(totalPages, currentPage), selected)
  {
    html := "";
    var i := 1;
    while i <= totalPages
      invariant 1 <= i <= totalPages + 1
      invariant html == Render(Numbers(i - 1, currentPage), selected)
    {
      var link := Number(i, i == currentPage);
      NumbersSnoc(i, currentPage);
      RenderSnoc(Numbers(i - 1, currentPage), link, selected);
      html := html + LinkHtml(link, selected);
      i := i + 1;
    }
  }

  /** The rendering of the bar, piece by piece. */
  lemma RenderLinks(total: nat, current: int, selected: Option<string>)
    requires total >= 2
    ensures Render(PageLinks(total, current), selected)
            == (if current > 1 then LinkHtml(Previous(current - 1), selected) else "")
               + Render(Numbers(total, current), selected)
               + (if current < total then LinkHtml(Next(current + 1), selected) else "")
  {
    var numbers := Numbers(total, current);
    var before := if current > 1 then [Previous(current - 1)] else [];
    var after := if current < total then [Next(current + 1)] else [];
    assert PageLinks(total, current) == before + numbers + after;
    RenderAppend(before + numbers, after, selected);
    RenderAppend(before, numbers, selected);
    if current > 1 {
      RenderOne(Previous(current - 1), selected);
    }
    if current < total {
      RenderOne(Next(current + 1), selected);
    }
  }

  lemma RenderOne(link: PageLink, selected: Option<string>)
    ensures Render([link], selected) == LinkHtml(link, selected)
  {
    assert [link][1..] == [];
  }

  lemma NumbersSnoc(k: nat, current: int)
    requires k > 0
    ensures Numbers(k, current) == Numbers(k - 1, current) + [Number(k, k == current)]
  {
  }

  lemma RenderSnoc(links: seq<PageLink>, link: PageLink, selected: Option<string>)
    ensures Render(links + [link], selected) == Render(links, selected) + LinkHtml(link, selected)
  {
    RenderAppend(links, [link], selected);
    RenderOne(link, selected);
  }

  /** The number of active links. */
  function ActiveCount(links: seq<PageLink>): nat {
    if links == [] then 0
    else (if links[0].Number? && links[0].active then 1 else 0) + ActiveCount(links[1..])
  }

  lemma {:induction false} ActiveCountAppend(a: seq<PageLink>, b: seq<PageLink>)
    ensures ActiveCount(a + b) == ActiveCount(a) + ActiveCount(b)
  {
    if a == [] {
      assert a + b == b;
    } else {
      assert (a + b)[1..] == a[1..] + b;
      ActiveCountAppend(a[1..], b);
    }
  }

  lemma {:induction false} NumbersActive(k: nat, current: int)
    ensures ActiveCount(Numbers(k, current)) == if 1 <= current <= k then 1 else 0
  {
    if k > 0 {
      NumbersSnoc(k, current);
      ActiveCountAppend(Numbers(k - 1, current), [Number(k, k == current)]);
      assert [Number(k, k == current)][1..] == [];
      NumbersActive(k - 1, current);
    }
  }

  /** The bar is empty exactly when there is at most one page. */
  lemma PaginationEmpty(total: nat, current: int, selected: Option<string>)
    ensures Render(PageLinks(total, current), selected) == "" <==> total <= 1
  {
    var links := PageLinks(total, current);
    if total > 1 {
      assert links != [];
      assert LinkHtml(links[0], selected) != [];
    }
  }

  /** The shape of the bar: page numbers 1 to `total` in order, the current one the only
      active one, "Previous" first exactly after the first page and "Next" last exactly
      before the last page, each leading to the neighbouring page. */
  lemma PaginationShape(total: nat, current: int)
    requires total >= 2
    ensures var links := PageLinks(total, current);
            var o := if current > 1 then 1 else 0;
            && o + total <= |links|
            && links[o..o + total] == Numbers(total, current)
            && (links[0] == Previous(current - 1) <==> current > 1)
            && (links[|links| - 1] == Next(current + 1) <==> current < total)
            && ActiveCount(links) == (if 1 <= current <= total then 1 else 0)
  {
    var links := PageLinks(total, current);
    var before := if current > 1 then [Previous(current - 1)] else [];
    var after := if current < total then [Next(current + 1)] else [];
    var o := |before|;
    assert links == before + Numbers(total, current) + after;
    assert links[o..o + total] == Numbers(total, current);
    ActiveCountAppend(before + Numbers(total, current), after);
    ActiveCountAppend(before, Numbers(total, current));
    NumbersActive(total, current);
    assert ActiveCount(before) == 0 && ActiveCount(after) == 0 by {
      assert before == [] || before[1..] == [];
      assert after == [] || after[1..] == [];
    }
    assert links[0] == Numbers(total, current)[0] || current > 1;
    assert links[|links| - 1] == Numbers(total, current)[total - 1] || current < total;
  }

  /** In the rendered number links, the link for page `i + 1` comes after those for the
      pages before it and leads to its page; its class is `pagination-link active` exactly
      when it is the current page, and `pagination-link ` otherwise. */
  lemma NumberLinkRendered(total: nat, current: int, i: nat, selected: Option<string>)
    requires i < total
    ensures Render(Numbers(total, current), selected)
            == Render(Numbers(i, current), selected)
               + ("<a href=\"" + PageUrl(selected, i + 1) + "\" class=\"pagination-link "
                  + (if i + 1 == current then "active" else "") + "\">" + IntToString(i + 1) + "</a>")
               + Render(Numbers(total, current)[i + 1..], selected)
  {
    var ns := Numbers(total, current);
    assert ns[..i] == Numbers(i, current);
    RenderAround(ns, i, selected);
  }

  /** The rendering of a list of links around its `i`-th link. */
  lemma RenderAround(links: seq<PageLink>, i: nat, selected: Option<string>)
    requires i < |links|
    ensures Render(links, selected)
            == Render(links[..i], selected) + LinkHtml(links[i], selected) + Render(links[i + 1..], selected)
  {
    assert links == links[..i] + [links[i]] + links[i + 1..];
    RenderAppend(links[..i] + [links[i]], links[i + 1..], selected);
    RenderSnoc(links[..i], links[i], selected);
  }

  /** On a page that exists, every link of the bar leads to a page that exists. */
  lemma LinksStayInRange(total: nat, current: int)
    requires 1 <= current <= total
    ensures forall l :: l in PageLinks(total, current) ==> 1 <= l.page <= total
  {
    var links := PageLinks(total, current);
    forall l | l in links
      ensures 1 <= l.page <= total
    {
      var j :| 0 <= j < |links| && links[j] == l;
      if l.Number? {
        var ns := Numbers(total, current);
        var o := if current > 1 then 1 else 0;
        assert links[o..o + total] == ns;
        assert l in ns;
      }
    }
  }
}
