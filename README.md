# Blog content cleaning and list helpers, in Dafny

This project models the core of a small static blog. The front end fetches post records,
turns their markdown-like content into HTML, and shows them on pages with a category
sidebar, a pagination bar and a client-side search that has a recent-searches list.

The model has two parts.

**`ContentCleaner`** (js/content-cleaner.js) is modelled pass by pass.
- `cleanContent` is a chain of about sixteen global regular-expression replacements and a
  `trim`.
- `cleanExcerpt` comments out images, strips every tag outside a prefix allow-list, and
  trims.
- `escapeHtml` is modelled by the text that `innerHTML` returns. This is the "escaping a
  string" step of HTML fragment serialisation (section 13.3 of the WHATWG HTML
  Standard), in text mode.

Every global replacement is one instance of a single scan, `Rewrite.ReplaceAll`. The
scan takes a matcher, which says whether and how far the expression matches at a given
position of the ORIGINAL string. Matches are therefore leftmost and never overlap, and
look-aheads and `^` see the input. Each matcher is derived from the backtracking
semantics of its ECMAScript expression:
- `\s` and `trim` use WhiteSpace plus LineTerminator;
- `.` stops at LF, CR, U+2028 and U+2029;
- greedy and lazy quantifiers stop where the engine stops them.

Each matcher is tied to a declarative description of its matches in one of two ways:
- the expressions with alternatives or backtracking (fenced code, images, relative
  URLs, headers, links, bold, italic, list items, entities) have a pair of lemmas,
  `…Sound` (every match has the described form) and `…Complete` (every text of that
  form is matched);
- the simple ones (`MatchInline`, `MatchImageTag`, `MatchTag`, `MatchParagraphBreak`,
  `MatchLineBreak`, `MatchParagraph`, `MatchEmptyParagraph`) state the form of a match
  in their own `ensures`, and some of them have a `…Complete` lemma beside it.

**`ContentLoader`** (js/content-loader.js) is modelled only in its list and arithmetic
logic:
- the pagination bar and the page slice;
- `parseInt(...) || 1` for the page parameter;
- the search-history list and its keyboard navigation;
- the per-category counts and links;
- the latest-post lookups;
- the category filter and the search filter.

`localStorage`, the URL and the DOM become parameters and results. The loops of the
source stay loops:
- `CreatePaginationHtml` and its `for` loop over page numbers;
- `CountCategories` and the `forEach` that fills the dictionary;
- `SaveSearchHistory` and its reassigning `filter`, `unshift` and `slice`.

Each of these methods is proved equal to a specification function, and the properties
are proved about those functions.

Modules:
- `Text`: character classes, `trim`, `includes`, `toLowerCase`, and the printing of integers.
- `Rewrite`: the global-replace scan.
- `Escape`: `escapeHtml`.
- `CodePasses`, `UrlPasses`, `MarkdownPasses`, `LayoutPasses`: the passes of `cleanContent`.
- `ContentCleaner`: `cleanContent` as a whole.
- `Excerpt`: `cleanExcerpt`.
- `Posts`: posts, filters, lookups and search.
- `Pagination`: page numbers, slices and the pagination bar.
- `SearchHistory`: the recent-searches list.
- `Categories`: the sidebar.

### Behaviour of the code worth knowing

The model follows the code. These lemmas state what the code does in cases where a
reader might expect otherwise.
- `Excerpt.ImageLeavesCommentEnd`: the comment at js/content-cleaner.js:14 says image
  tags are commented out. They are not kept inside a comment: the strip pass also
  removes the `<!-- <img …>` that the first pass produced, since `<!` is not an allowed
  tag. What survives is the text ` -->`.
- `Excerpt.AllowList`: the comment at js/content-cleaner.js:16 says all HTML except
  basic formatting is removed. The allow-list is a prefix test, so `<br>` and
  `<iframe>` survive as well as `em`, `strong`, `b` and `i`.
- `Excerpt.StripCanFormImage`: removing a tag can join the text around it into a new
  tag. `<i<x>mg>` becomes `<img>`. So the excerpt can hold an image tag although the
  first pass comments out every image tag.
- `UrlPasses.HrefRootRelative`: a root-relative `href="/foo"` becomes
  `href="../..//foo"`, with two slashes.
- `MarkdownPasses.LastItemLeftOut`: in `- a\n- b` only the first item is wrapped in the
  `<ul>`. An item needs its own `\n` to be taken into the list.
- `MarkdownPasses.HeaderLevelCount`: a header's level counts every `#` on the line, not
  only the leading ones.
- `ContentCleaner.EntityInCodeRestored`: the entity fix also turns the escaped `&name;`
  inside code blocks back into a live entity.

## Model

| member | source | states |
|---|---|---|
| Rewrite.SkipTo | js/content-cleaner.js:28 | the global replace copies the text before the first match unchanged |
| Rewrite.Step | js/content-cleaner.js:28 | a global replace emits the first match's replacement and resumes scanning after that match |
| Rewrite.ReplaceOne | js/content-cleaner.js:28 | with exactly one match, the result is the text around it plus its replacement |
| Rewrite.Excludes | js/content-cleaner.js:65-66 | if every occurrence of a character starts a match whose replacement lacks it, the character is gone |
| Rewrite.OnlyDeletes | js/content-cleaner.js:17 | a replace whose replacements are empty only removes characters (multiset inclusion) |
| Escape.EscapeHtml | js/content-cleaner.js:76-80 | the escaped text holds no `<`, `>` or U+00A0; it is never shorter; text without `&<>` or U+00A0 is unchanged |
| Escape.UnescapeEscape | js/content-cleaner.js:76-80 | decoding the four character references gives back the original text: escaping loses nothing |
| CodePasses.FenceSound | js/content-cleaner.js:28-30 | every fenced-code match is a backtick fence, an optional word, a newline, and a lazy body up to the next fence |
| CodePasses.FenceComplete | js/content-cleaner.js:28-30 | every such fence is matched, with exactly that body and language |
| CodePasses.CodeBlockEscapes | js/content-cleaner.js:29 | the block is `<pre><code class="language-L">E</code></pre>`; E holds no `<` or `>` and decodes to the trimmed body |
| CodePasses.FencedBlockInText | js/content-cleaner.js:28-30 | a fenced block in text is replaced by its code block; the language defaults to `plaintext` |
| CodePasses.MatchInline | js/content-cleaner.js:32 | an inline-code match runs from a backtick to the next one and becomes `<code>` with the content unescaped |
| CodePasses.InlineComplete | js/content-cleaner.js:32 | every backtick span with non-empty content is matched |
| CodePasses.InlineSpanInText | js/content-cleaner.js:32 | a backtick span in text becomes a `<code>` element |
| UrlPasses.FirstAttrLeftmost | js/content-cleaner.js:36-37 | `match.match(/class="…"/)` gives the value of the leftmost occurrence |
| UrlPasses.FirstAttrNone | js/content-cleaner.js:36-39 | without an occurrence, the class or alt value is empty |
| UrlPasses.LastSrc | js/content-cleaner.js:34 | the greedy `[^>]*` makes the LAST `src="…"` before the first `>` be the one captured |
| UrlPasses.ImageSound | js/content-cleaner.js:34-44 | every image match is an `<img` tag up to its first `>` that contains a quoted src, rebuilt from the template |
| UrlPasses.ImageComplete | js/content-cleaner.js:34-44 | every such tag is matched and rebuilt |
| UrlPasses.ImageInText | js/content-cleaner.js:34-44 | one image tag in text, with any attributes before or after its src (none of them a second `src="`), becomes the template with its src, its class value (or empty) plus ` article-content-image`, the fixed style, and its alt value (or empty) |
| UrlPasses.RelativeSound | js/content-cleaner.js:46-47 | every `src=`/`href=` match is a quoted value on one line not starting with an absolute prefix, prefixed with `../../` |
| UrlPasses.RelativeComplete | js/content-cleaner.js:46-47 | every such value is matched |
| UrlPasses.AbsoluteBeforeQuote | js/content-cleaner.js:46-47 | the negative look-ahead rejects a value exactly when the value starts with an absolute prefix |
| UrlPasses.SrcInText | js/content-cleaner.js:46 | a `src` value gets `../../` unless it starts with `http`, `//` or `data:` |
| UrlPasses.HrefInText | js/content-cleaner.js:47 | an `href` value gets `../../` unless it starts with `http`, `//`, `mailto:` or `#` |
| UrlPasses.HrefRootRelative | js/content-cleaner.js:47 | `href="/x"` becomes `href="../..//x"` |
| UrlPasses.NoQuoteUnchanged | js/content-cleaner.js:46-47 | text without a quote holds no attribute value, and both relative-URL passes leave it unchanged |
| MarkdownPasses.HeaderSound | js/content-cleaner.js:49-52 | every header match is a line start, 1 to 6 `#`, white space and the rest of the line |
| MarkdownPasses.HeaderComplete | js/content-cleaner.js:49-52 | every such line is matched |
| MarkdownPasses.SevenHashesNoHeader | js/content-cleaner.js:49 | seven or more `#` never start a header |
| MarkdownPasses.HeaderLevelCount | js/content-cleaner.js:50 | the level is the number of leading `#` plus the number of `#` in the text |
| MarkdownPasses.HeaderInText | js/content-cleaner.js:49-52 | a header line between lines without `#` becomes `<hN>text</hN>`, N being its number of `#` |
| MarkdownPasses.LinkSound | js/content-cleaner.js:54 | every link match is `[text](url)` with no `]` in text and no `)` in url |
| MarkdownPasses.LinkComplete | js/content-cleaner.js:54 | every such link is matched and becomes `<a href="url">text</a>` |
| MarkdownPasses.LinkInText | js/content-cleaner.js:54 | a markdown link in text becomes an anchor element |
| MarkdownPasses.BoldSound | js/content-cleaner.js:56 | every bold match is `**t**` with no `*` in t |
| MarkdownPasses.BoldComplete | js/content-cleaner.js:56 | every such span is matched and becomes `<strong>` |
| MarkdownPasses.ItalicSound | js/content-cleaner.js:58 | every italic match is `*t*` with no `*` in t |
| MarkdownPasses.ItalicComplete | js/content-cleaner.js:58 | every such span is matched and becomes `<em>` |
| MarkdownPasses.NoStarUnchanged | js/content-cleaner.js:56-58 | text without `*` is left alone by both emphasis passes |
| MarkdownPasses.BoldInText | js/content-cleaner.js:56-58 | `**t**` becomes `<strong>t</strong>`, which the italic pass that follows leaves alone |
| MarkdownPasses.ItalicInText | js/content-cleaner.js:56-58 | `*t*` becomes `<em>t</em>` |
| MarkdownPasses.BoldThenItalic | js/content-cleaner.js:56-58 | `**a**` and a later `*b*` in one text become `<strong>a</strong>` and `<em>b</em>`, with no `*` left, because bold is rewritten first |
| MarkdownPasses.ItemSound | js/content-cleaner.js:60 | every item match is a line start, `-`, white space and the rest of a line |
| MarkdownPasses.ItemComplete | js/content-cleaner.js:60 | every such line is matched and becomes `<li>…</li>` |
| MarkdownPasses.EmptyItemTakesNextLine | js/content-cleaner.js:60 | `\s+` crosses a line break, so an empty item takes the next line as its text |
| MarkdownPasses.ItemLine | js/content-cleaner.js:61 | one repetition of the list group starts with `<li>` and ends with `\n` |
| MarkdownPasses.ItemsEnd | js/content-cleaner.js:61 | the greedy `+` takes the longest run of item lines |
| MarkdownPasses.TwoItemsWrapped | js/content-cleaner.js:61 | two item lines, each ending in `\n`, are wrapped in one `<ul>` |
| MarkdownPasses.LastItemLeftOut | js/content-cleaner.js:61 | an item without its `\n` stays outside the `<ul>` |
| MarkdownPasses.EntitySound | js/content-cleaner.js:63 | every entity match is `&amp;` followed by lower-case letters and `;` |
| MarkdownPasses.EntityComplete | js/content-cleaner.js:63 | every such sequence is matched and becomes `&name;` |
| MarkdownPasses.EntityInText | js/content-cleaner.js:63 | a doubly escaped entity loses its `amp;` |
| LayoutPasses.MatchParagraphBreak | js/content-cleaner.js:65 | a match covers two or more characters, all newlines, and becomes `</p><p>`; where none starts, no two newlines start either |
| LayoutPasses.LineBreaksEach | js/content-cleaner.js:66 | the `<br>` pass maps each `\n` to `<br>` and keeps every other character, in order |
| LayoutPasses.LineBreaksRemoveNewlines | js/content-cleaner.js:66 | after the line-break pass no `\n` is left |
| LayoutPasses.NewlineInText | js/content-cleaner.js:65-66 | a single newline becomes `<br>` |
| LayoutPasses.BlankLineInText | js/content-cleaner.js:65-66 | a run of two or more newlines becomes one `</p><p>` |
| LayoutPasses.MatchParagraph | js/content-cleaner.js:68 | a line is wrapped exactly when it is non-empty and does not start with `<h`, `<p`, `<ul` or `<pre` |
| LayoutPasses.WrapSingleLine | js/content-cleaner.js:68 | a one-line text is wrapped in `<p>` unless it is empty or starts a block |
| LayoutPasses.WrapKeepsNoNewline | js/content-cleaner.js:68 | wrapping adds no newline |
| LayoutPasses.MatchEmptyParagraph | js/content-cleaner.js:70 | a match is `<p>`, white space and `</p>`, and it is deleted |
| LayoutPasses.EmptyParagraphComplete | js/content-cleaner.js:70 | every such paragraph is matched |
| LayoutPasses.EmptyParagraphInText | js/content-cleaner.js:70 | an empty paragraph in text disappears |
| LayoutPasses.RemoveKeepsNoNewline | js/content-cleaner.js:70 | removing empty paragraphs adds no newline |
| ContentCleaner.CleanContent | js/content-cleaner.js:23-73 | falsy content gives `''`; the result holds no `\n` and is trimmed |
| ContentCleaner.TransformNoNewline | js/content-cleaner.js:65-70 | no newline survives the passes |
| ContentCleaner.PlainTextBecomesParagraph | js/content-cleaner.js:23-73 | one line of text without markup characters comes out as one paragraph, unchanged inside |
| ContentCleaner.LinkNotRewritten | js/content-cleaner.js:46-54 | a link built from `[t](u)` by the later link pass keeps `href="u"` exactly: the relative-URL passes ran before it existed |
| ContentCleaner.EntityInCodeRestored | js/content-cleaner.js:63 | an entity escaped inside a code block is turned back into `&name;` by the later entity fix |
| ContentCleaner.ImageTemplateBreak | js/content-cleaner.js:42-43 | the line break inside the image template becomes `<br>` |
| Excerpt.MatchImageTag | js/content-cleaner.js:15 | a match is `<img` up to the first `>`, replaced by itself between `<!-- ` and ` -->` |
| Excerpt.ImageTagComplete | js/content-cleaner.js:15 | every image tag is matched |
| Excerpt.ImageCommented | js/content-cleaner.js:15 | an image tag in text is wrapped in a comment |
| Excerpt.MatchTag | js/content-cleaner.js:17 | a match is `<`, a name not starting with an allowed tag, and everything up to the next `>`; it is deleted |
| Excerpt.TagComplete | js/content-cleaner.js:17 | every such tag is matched |
| Excerpt.TagNotMatched | js/content-cleaner.js:17 | an allowed tag, or a `<` with no `>` after it, is not matched |
| Excerpt.AllowedThrough | js/content-cleaner.js:17 | whether a tag is kept depends only on its own text up to its `>` |
| Excerpt.TagRemovedInText | js/content-cleaner.js:17 | a tag outside the allow-list is removed and the text around it kept |
| Excerpt.TagKeptInText | js/content-cleaner.js:17 | a tag on the allow-list is kept |
| Excerpt.AllowList | js/content-cleaner.js:17 | `<script>`, `</div>` and `<div>` are removed; `<strong>`, `</em>`, `<br>` and `<iframe>` are kept |
| Excerpt.StripOnlyDeletes | js/content-cleaner.js:17 | stripping only removes characters |
| Excerpt.CleanExcerpt | js/content-cleaner.js:10-20 | a missing or empty excerpt gives `''`; the result is trimmed |
| Excerpt.ImageLeavesCommentEnd | js/content-cleaner.js:15-19 | an image in an excerpt leaves only ` -->` behind |
| Excerpt.StripCanFormImage | js/content-cleaner.js:13-19 | `<i<x>mg>` comes out as `<img>` |
| Posts.Filter | js/content-loader.js:87 | `filter` keeps exactly the posts that satisfy the predicate |
| Posts.FilterHead | js/content-loader.js:87-88 | the first post kept is the first post that satisfies the predicate |
| Posts.FilterAppend | js/content-loader.js:87 | filtering distributes over concatenation |
| Posts.GetLatestPostByCategory | js/content-loader.js:86-89 | null exactly when no post has the category; otherwise a post of that category |
| Posts.LatestIsEarliest | js/content-loader.js:86-89 | the post found is the first of its category in list order |
| Posts.GetLatestBusinessUpdates | js/content-loader.js:81-83 | the first two updates, or all of them when there are fewer |
| Posts.PostsToShow | js/content-loader.js:304-309 | with a category selected, exactly the posts of that category ignoring case; otherwise all posts |
| Posts.SearchResults | js/content-loader.js:720-736 | a blank term searches nothing; otherwise exactly the posts whose lower-cased title, excerpt and content, joined by spaces, contain the lower-cased term |
| Posts.SearchIgnoresCase | js/content-loader.js:734-735 | terms that agree ignoring case match the same posts |
| Posts.SearchFindsParts | js/content-loader.js:734-735 | a term found in the title, the excerpt or the content matches |
| Pagination.ParseInt | js/content-loader.js:325 | `parseInt` gives NaN exactly when no decimal digit follows the blanks and sign, or `0x` follows them without a hex digit; a negative result needs a `-` sign |
| Pagination.CurrentPage | js/content-loader.js:325 | the page is never 0; a missing or unparseable parameter gives page 1; a non-zero parsed value is the page |
| Pagination.ParseIntPrinted | js/content-loader.js:325 | `parseInt` reads a printed integer back, whatever non-digit follows it (not `x` after a lone `0`) |
| Pagination.CurrentPageOfLink | js/content-loader.js:325 | the page number a link carries is the page read back from it |
| Pagination.TotalPages | js/content-loader.js:489 | `ceil(n / 4)`: zero exactly for no posts; otherwise the least number of pages of four that hold them |
| Pagination.PageIsSlice | js/content-loader.js:329-331 | page p ≥ 1 shows posts `4(p-1)` up to `4p`, as far as they exist; at most four |
| Pagination.PageSizes | js/content-loader.js:329-331 | every page before the last is full; the last page is the rest and is not empty |
| Pagination.PageBeyondLast | js/content-loader.js:329-331 | a page past the last is empty |
| Pagination.NegativePage | js/content-loader.js:329-331 | a negative page makes `slice` count from the end |
| Pagination.PagesCover | js/content-loader.js:329-331 | pages 1 to the last, in order, are all the posts exactly once |
| Pagination.BlogPageShowsSelected | js/content-loader.js:304-331 | the listed posts are at most four, all from the post list, all of the selected category |
| Pagination.CreatePaginationHtml | js/content-loader.js:486-528 | the bar built link by link equals the rendering of `PageLinks` |
| Pagination.NumberLinksHtml | js/content-loader.js:514-518 | the `for` loop renders the number links 1 to the total in order |
| Pagination.RenderAppend | js/content-loader.js:514-518 | rendering distributes over concatenation of links |
| Pagination.PaginationEmpty | js/content-loader.js:500-502 | the bar is empty exactly when there is at most one page |
| Pagination.PaginationShape | js/content-loader.js:507-525 | numbers 1 to the total in order; Previous first exactly when the current page is above 1; Next last exactly when it is below the total; one active link exactly when the current page exists |
| Pagination.NumbersActive | js/content-loader.js:515-517 | among the number links, one is active if the current page is among them, else none |
| Pagination.NumberLinkRendered | js/content-loader.js:514-518 | in the rendered number links, link i+1 follows those before it, leads to page i+1, and its class is `pagination-link active` exactly when i+1 is the current page |
| Pagination.LinksStayInRange | js/content-loader.js:507-525 | on an existing page, every link leads to an existing page |
| SearchHistory.Without | js/content-loader.js:703 | removing a term keeps exactly the other terms |
| SearchHistory.SaveSearchHistory | js/content-loader.js:609-629 | filter, `unshift` and `slice` compute `Saved`: unchanged for a blank term |
| SearchHistory.RemoveFromHistory | js/content-loader.js:700-709 | the new list is the old one without the term |
| SearchHistory.ClearSearchHistory | js/content-loader.js:711-718 | the list becomes empty |
| SearchHistory.SavedShape | js/content-loader.js:609-629 | the term comes first and occurs once; the others follow in their old order; the length is the old length less the term's occurrences plus one, capped at 10 |
| SearchHistory.SavedDistinct | js/content-loader.js:609-629 | saving keeps the terms distinct |
| SearchHistory.SavedTwice | js/content-loader.js:609-629 | saving the same term twice is saving it once |
| SearchHistory.RemoveAfterSave | js/content-loader.js:609-629 | removing the term just saved leaves the earlier list without it, cut to 9 |
| SearchHistory.WithoutIsSubsequence | js/content-loader.js:703 | removal keeps the order of the other terms |
| SearchHistory.WithoutLength | js/content-loader.js:703 | removal shortens the list by the term's occurrences |
| SearchHistory.WithoutTwice | js/content-loader.js:703 | removing twice is removing once |
| SearchHistory.Selection | js/content-loader.js:684-697 | an item is selected exactly when the new index is that of an existing item, and it is the item at the new index |
| SearchHistory.SelectionExists | js/content-loader.js:684-697 | from any current index, a key selects an item exactly when there are items |
| SearchHistory.NothingSelected | js/content-loader.js:684-689 | with nothing selected, down selects the first item and up the last |
| SearchHistory.UpUndoesDown | js/content-loader.js:684-689 | up undoes down and down undoes up |
| SearchHistory.DownsForward | js/content-loader.js:685 | before the last item, down moves one place forward each time |
| SearchHistory.DownsRound | js/content-loader.js:685 | pressing down once per item comes back to where it started |
| Categories.CountCategories | js/content-loader.js:226-229 | the `forEach` counts, for every category, its posts, in the order the categories first appear |
| Categories.OrderIsCategories | js/content-loader.js:226-231 | a category is listed exactly when some post has it |
| Categories.OrderMembers | js/content-loader.js:226-231 | a category is listed exactly when its count is positive |
| Categories.OrderDistinct | js/content-loader.js:226-231 | no category is listed twice |
| Categories.CountsSum | js/content-loader.js:226-229 | the counts add up to the number of posts |
| Categories.CreateCategories | js/content-loader.js:225-245 | one link per category, in order, carrying its count |
| Categories.ActiveLinks | js/content-loader.js:232-234 | a link is active exactly when a category is selected and equals it ignoring case; exactly the active link leads to `blog.html` |
| Categories.FollowLink | js/content-loader.js:234 | an inactive link carries the lower-cased category; for a category without `&`, `#`, `+` or `%`, which reads back unchanged, the posts it then selects are those of the category, ignoring case |

## Left out

- Fetching, JSON loading and date sorting and formatting (`loadBlogPosts`, `loadBusinessUpdates`, `formatDate`, `formatCommentDate`). These are network I/O and the wall clock.
- DOM wiring: `innerHTML` writes, event listeners, modals and toasts. Results are returned instead of written.
- `renderSearchHistory`: this markup is not modelled.
- `localStorage` and `JSON.parse` in `getSearchHistory`. The stored list is a parameter and a result, so a malformed stored value is not modelled.
- `highlightText`. It compiles arbitrary user input as a regular expression.
- Lazy image loading, `throttle` and timers. These are asynchronous.
- Share links, `renderHTML`, the card and sidebar templates, comments and their e-mail expression.
- The DOM node behind `escapeHtml`. Only the serialised text it produces is modelled.
- `Text.ToLower`: lower-cases ASCII letters only. The full Unicode mapping of `toLowerCase` is left out.
- `Pagination.ParseInt`: models `parseInt` on values it returns exactly. Digit strings past 2^53 lose precision as JavaScript numbers, and that rounding is not modelled.
- `Pagination.CurrentPageOfLink`: takes the raw value of the `page` parameter. The decoding that `URLSearchParams` does is not modelled.
- `Categories.FollowLink`: the link puts the lower-cased category into `?category=` without encoding it, and the blog page reads it back with `URLSearchParams`, which ends the value at `&` or `#` and decodes `+` and `%xx`. The lemma covers only categories without these four characters; for the others (`Q&A` reads back as `q`, `C++` as `c` and two spaces) the model states nothing about the posts shown.
- `Pagination.PageUrl`: the category goes into the URL as it is, as in the source. Categories holding `&`, `#` or spaces are not percent-encoded, and the model states nothing about reading them back.
- `Pagination.CreatePaginationHtml`: the loop over page numbers is the separate method `NumberLinksHtml`. The Previous and Next links are appended around it.
- `Categories.CountCategories`: the source counts into a plain `{}` object, so a category named after an `Object.prototype` member (`constructor`, `toString`, `valueOf`, `hasOwnProperty`, …) starts from the inherited function and gets a string instead of a count, and a category named `__proto__` is never stored and gets no link. The model counts into a map, as if those names were ordinary keys.
- `Categories.CountCategories`: the order is the order in which categories first appear. `Object.entries` lists integer-like keys first, in ascending order, and that case is not modelled.
- `Categories.CreateCategories`: returns link records. The `<li>` markup and its white space are not produced.
- `Posts.SearchResults`: the blank-term case clears the search (`clearSearch`). The model returns no result list for it.
