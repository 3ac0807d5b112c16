# List layout with tags: a Dafny model

This project models the list layout with tags of a blog built on Next.js (`layouts/ListLayoutWithTags.tsx`). The layout shows:

- a list of posts;
- every tag of the site, ranked by how many posts carry it;
- one link per tag that adds the tag to the filter route or removes it;
- a pagination block.

The filter set lives only in the route, `/tags/<slug1>&<slug2>&...`.

The model reduces the layout to the values that decide what it renders:

- **`JsText`** holds the few pieces of JavaScript's string and array library the layout depends on, with their semantics on strings of Unicode characters (see "## Left out" for UTF-16 indices):
  - `indexOf`, `includes` and `startsWith`;
  - `split` with a non-empty string separator, which searches left to right and gives `""` → `[""]`;
  - `join`;
  - the decimal text a template literal writes for an integer.
- **`TagFilter`** covers the tag segment of the route and the filter pieces, plus:
  - the active test, which checks for a *substring*;
  - the "remove" and "add" links of a tag;
  - the `/blog` heading switch.
- **`TagRanking`** sorts the keys of the tag-count table by descending count. `Array.prototype.sort` is stable, so it is modelled as a stable insertion sort.
- **`Pagination`** covers the section (the first path segment), the previous and next link slots, and when the block is shown.
- **`ListLayout`** covers the post list choice, the post entries, and the whole rendered page (`Render`).
- **`TagFilterCorrected`** holds the toggle the tag links evidently intend, with its properties proved. Beside it are concrete routes on which the links as written differ from it (see "## Findings"). The rest of the layout model keeps the links as written, since it models the program.
- **`Scenarios`** holds the layout on a few concrete routes.

Some external inputs become parameters:

- The slug function of the `github-slugger` library is a parameter `slugOf: string -> string`. Nothing is assumed about it beyond being a deterministic function, except where a lemma names a requirement.
- The router's current route is a parameter `pathname`.
- The imported tag-count table is a map `counts` together with `keys`, its key enumeration order. `IsKeyOrder` states that `keys` holds each key exactly once.

Three behaviours of the layout the model keeps as the code has them:

- The add link of a tag on a route without `/tags/` uses the raw name: on `/blog`, "Testing" links to `/tags/Testing`.
- The previous link of page 2 is `/<section>/`, with `<section>` the first segment of the current route.
- Page numbers are not range-checked: the links are computed for any integers.
- On a route without `/`, the section is `undefined` and the template literals write it as the text `undefined`: the links are `/undefined/` and `/undefined/page/<n>`.

## Model

| member | source | states |
|---|---|---|
| JsText.IndexOf | layouts/ListLayoutWithTags.tsx:111 | the result is present exactly when the text occurs, and is then its first occurrence |
| JsText.Includes | layouts/ListLayoutWithTags.tsx:111 | true exactly when the text occurs somewhere, including the empty text |
| JsText.StartsWith | layouts/ListLayoutWithTags.tsx:94 | true exactly when the prefix occurs at index 0 |
| JsText.Split | layouts/ListLayoutWithTags.tsx:111-116 | `String.prototype.split` on a non-empty separator: at least one piece; characterised by `SplitManyIffContains`, `SecondPieceText`, `SplitPiecesFree`, `SplitJoin` |
| JsText.Join | layouts/ListLayoutWithTags.tsx:121 | `Array.prototype.join`: the pieces with the separator between them; its inverse is stated by `SplitJoin` and `JoinSplit` |
| JsText.SplitManyIffContains | layouts/ListLayoutWithTags.tsx:111 | a split has a second piece exactly when the separator occurs |
| JsText.SecondPieceText | layouts/ListLayoutWithTags.tsx:111 | after the first occurrence at `i`, the second piece is the text from `i + \|sep\|` up to where that piece ends |
| JsText.PieceEndIsNextOccurrence | layouts/ListLayoutWithTags.tsx:111 | a piece ends at the next occurrence of the separator or at the end, with no occurrence before |
| JsText.SplitPiecesFree | layouts/ListLayoutWithTags.tsx:114-116 | no piece of a split holds the separator |
| JsText.SplitJoin | layouts/ListLayoutWithTags.tsx:114-121 | joining the pieces of a split with the same separator gives back the text |
| JsText.JoinSplit | layouts/ListLayoutWithTags.tsx:121 | pieces free of a one-character separator come back unchanged after join then split |
| JsText.SplitLeadingSeparator | layouts/ListLayoutWithTags.tsx:111 | separator followed by separator-free text splits into `""` and that text |
| JsText.ContainsInJoin | layouts/ListLayoutWithTags.tsx:121 | text found in one piece is found in the join |
| JsText.NotContainsJoin | layouts/ListLayoutWithTags.tsx:121 | text found in no piece, and free of the separator, is not found in the join |
| JsText.NatText | layouts/ListLayoutWithTags.tsx:56 | decimal digits only, at least one, no leading zero |
| JsText.IntText | layouts/ListLayoutWithTags.tsx:56 | non-empty, no `/` or `&`, starts with `-` exactly for negative numbers |
| JsText.IntTextRoundTrip | layouts/ListLayoutWithTags.tsx:41 | reading back the text of an integer gives the integer |
| TagFilter.TagSegment | layouts/ListLayoutWithTags.tsx:111 | the text after the first `/tags/`, absent without one; characterised by `TagSegmentIsTextAfterFirstMarker` and `NoSegmentWithoutMarker` |
| TagFilter.Filters | layouts/ListLayoutWithTags.tsx:148 | the filter pieces exist exactly when the tag segment does, and there is at least one |
| TagFilter.IsActive | layouts/ListLayoutWithTags.tsx:111 | a tag is active exactly when the route has a tag segment and the tag's slug occurs in it as a substring |
| TagFilter.RemoveAll | layouts/ListLayoutWithTags.tsx:117 | keeps exactly the pieces different from the slug, with their multiplicities; identity when the slug is absent; the order is stated by `RemoveAllKeepsOrder` |
| TagFilter.RemoveAllKeepsOrder | layouts/ListLayoutWithTags.tsx:117 | filtering a concatenation filters each part, so kept pieces stay in their original relative order |
| TagFilter.RemoveAllOnePiece | layouts/ListLayoutWithTags.tsx:117 | one piece is kept exactly when it differs from the slug |
| TagFilter.RemoveFilterHref | layouts/ListLayoutWithTags.tsx:113-122 | the route without every piece equal to the slug, or `/blog` when none is left; characterised by `RemoveFilterDropsTag` and `SubstringMatchRemovesNothing` |
| TagFilter.AddFilterHref | layouts/ListLayoutWithTags.tsx:147-154 | `/tags/` + raw name without a segment, else the pieces plus the slug; characterised by `AddFilterAppendsSlug`, `AddFilterWithoutSegmentUsesRawName`, `BareMarkerAddsEmptyPiece` |
| TagFilter.TagLinkFor | layouts/ListLayoutWithTags.tsx:111-160 | the item carries the tag's raw name and is removable exactly when the tag is active |
| TagFilter.ShowsTagsHeading | layouts/ListLayoutWithTags.tsx:94-103 | the "Tags" heading shows exactly when the route starts with `/blog` |
| TagFilter.TagSegmentIsTextAfterFirstMarker | layouts/ListLayoutWithTags.tsx:111 | the segment is the text after the first `/tags/` up to the next `/tags/` or the end |
| TagFilter.NoSegmentWithoutMarker | layouts/ListLayoutWithTags.tsx:111 | the segment is absent exactly when the route holds no `/tags/` |
| TagFilter.FilterPiecesAreWellFormed | layouts/ListLayoutWithTags.tsx:114-116 | the segment never holds `/tags/`; no piece holds `&` or `/tags/` |
| TagFilter.RouteRoundTrip | layouts/ListLayoutWithTags.tsx:153 | the route built from well-formed pieces has exactly those pieces as filters |
| TagFilter.BlogRouteHasNoFilters | layouts/ListLayoutWithTags.tsx:119 | `/blog` has no filter set |
| TagFilter.RemoveFilterDropsTag | layouts/ListLayoutWithTags.tsx:113-122 | the remove link is `/blog` exactly when every piece is the slug; otherwise its filters are the old pieces without the slug, in order |
| TagFilter.SubstringMatchRemovesNothing | layouts/ListLayoutWithTags.tsx:111-121 | when the slug is only a substring, the remove link is `/tags/` + the unchanged segment |
| TagFilter.AddFilterAppendsSlug | layouts/ListLayoutWithTags.tsx:148-153 | with a segment, the add link's filters are the old pieces followed by the slug, one more piece |
| TagFilter.AddFilterWithoutSegmentUsesRawName | layouts/ListLayoutWithTags.tsx:148-151 | without a segment, the add link is `/tags/` + the raw tag name |
| TagFilter.BareMarkerAddsEmptyPiece | layouts/ListLayoutWithTags.tsx:148-153 | on `/tags/` the add link is `/tags/&` + slug |
| TagFilter.TagLinkToggles | layouts/ListLayoutWithTags.tsx:111-154 | a whole-piece slug is removed; a substring-only slug keeps the filters; an inactive tag is appended (or linked by raw name) |
| TagRanking.Insert | layouts/ListLayoutWithTags.tsx:74 | insertion adds exactly one copy of the element |
| TagRanking.SortByCount | layouts/ListLayoutWithTags.tsx:74 | the result is a permutation of the input with counts never increasing |
| TagRanking.InsertKeepsDescending | layouts/ListLayoutWithTags.tsx:74 | inserting into a count-descending list keeps it count-descending |
| TagRanking.InsertKeepsEqualCountOrder | layouts/ListLayoutWithTags.tsx:74 | the inserted tag goes before the tags of equal count |
| TagRanking.SortByCountIsStable | layouts/ListLayoutWithTags.tsx:74 | tags of equal count keep their input order |
| TagRanking.SortedTags | layouts/ListLayoutWithTags.tsx:72-74 | the ranking is a key order of the table, as long as the keys, count-descending |
| TagRanking.SortedTagsRanksAllKeys | layouts/ListLayoutWithTags.tsx:72-74 | the ranking holds exactly the keys, each once, with `count[r[i]] >= count[r[i+1]]` |
| TagRanking.SortedTagsKeepsTieOrder | layouts/ListLayoutWithTags.tsx:73-74 | tags of equal count appear in their `Object.keys` order |
| Pagination.BasePath | layouts/ListLayoutWithTags.tsx:27 | `pathname.split('/')[1]`, absent without a `/`; characterised by `BasePathIsFirstSegment` |
| Pagination.TemplateText | layouts/ListLayoutWithTags.tsx:41-56 | the section text written into links: the section, or `"undefined"` when the route has no `/`; characterised by `SectionTextHasNoSeparator` |
| Pagination.PaginationLinks | layouts/ListLayoutWithTags.tsx:28-59 | the previous and next slots of the block, with the section written as `TemplateText` gives it (so `/undefined/` and `/undefined/page/<n>` on a route without `/`); characterised by `PaginationLinksAreNeighbours` and `ShownBlockHasALink` |
| Pagination.ShowPagination | layouts/ListLayoutWithTags.tsx:200 | the block shows exactly when the prop is given with more than one page |
| Pagination.BasePathIsFirstSegment | layouts/ListLayoutWithTags.tsx:27 | the section is absent exactly when the route has no `/`; otherwise it is the text between the first and the next `/`, free of `/` |
| Pagination.SectionTextHasNoSeparator | layouts/ListLayoutWithTags.tsx:27 | the section text written into links never holds `/` |
| Pagination.PageHrefSplits | layouts/ListLayoutWithTags.tsx:41 | the route of page 1 splits as `["", base, ""]`; other pages as `["", base, "page", n]` |
| Pagination.PageHrefRoundTrip | layouts/ListLayoutWithTags.tsx:41 | every page route reads back as its page number and stays in its section |
| Pagination.PaginationLinksAreNeighbours | layouts/ListLayoutWithTags.tsx:25-59 | previous exists exactly when `currentPage > 1` and leads to page `currentPage-1`: `/<section>/` for page 2, `/<section>/page/<currentPage-1>` beyond; next exists exactly when `currentPage < totalPages` and is `/<section>/page/<currentPage+1>`; both stay in the section |
| Pagination.PreviousLinkIsPageBefore | layouts/ListLayoutWithTags.tsx:28-46 | the previous slot is a link exactly when `currentPage > 1`, and is then the route of page `currentPage-1` of the section |
| Pagination.NextLinkIsPageAfter | layouts/ListLayoutWithTags.tsx:29-59 | the next slot is a link exactly when `currentPage < totalPages`, and is then `/<section>/page/<currentPage+1>`, read back as that page |
| Pagination.NumberedPageRoundTrip | layouts/ListLayoutWithTags.tsx:56 | `/<section>/page/<n>` reads back as page `n` of the section for every integer `n` |
| Pagination.ShownBlockHasALink | layouts/ListLayoutWithTags.tsx:28-29 | a shown block with the current page in range has at least one link |
| ListLayout.Render | layouts/ListLayoutWithTags.tsx:65-207 | the rendered page; characterised by `RenderRanksEveryTagOnce`, `RenderLinksEachTag`, `RenderListsDisplayPostsInOrder`, `UnfilteredRouteLinksUseRawNames` |
| ListLayout.DisplayPosts | layouts/ListLayoutWithTags.tsx:76 | the pre-sliced page when non-empty, otherwise all posts, in the given order |
| ListLayout.PostItemFor | layouts/ListLayoutWithTags.tsx:170-192 | the entry is keyed by the path, linked at `/<path>`, and shows the post's fields |
| ListLayout.TagLinks | layouts/ListLayoutWithTags.tsx:105-163 | one item per ranked tag, in ranking order |
| ListLayout.PostItems | layouts/ListLayoutWithTags.tsx:169-198 | one entry per displayed post, in order |
| ListLayout.TagLinksKeepNames | layouts/ListLayoutWithTags.tsx:105-108 | the items name the ranked tags in order |
| ListLayout.RenderRanksEveryTagOnce | layouts/ListLayoutWithTags.tsx:72-74 | the rendered tag list names exactly the table's tags, each once, counts never increasing |
| ListLayout.RenderLinksEachTag | layouts/ListLayoutWithTags.tsx:111-160 | each rendered tag has its route's link and is removable exactly when active |
| ListLayout.RenderListsDisplayPostsInOrder | layouts/ListLayoutWithTags.tsx:169-202 | entries follow the displayed posts in order; heading and pagination follow their conditions |
| ListLayout.UnfilteredRouteLinksUseRawNames | layouts/ListLayoutWithTags.tsx:148-151 | on a route without `/tags/`, no tag is active and each links to `/tags/<raw name>` |
| TagFilterCorrected.IsSelected | layouts/ListLayoutWithTags.tsx:111 | corrected active test: the slug is one of the `&`-pieces; characterised by `ToggleLinkFor` and `ToggleFlipsSelection` |
| TagFilterCorrected.ToggleHref | layouts/ListLayoutWithTags.tsx:113-154 | corrected link: removes the slug when selected, appends it otherwise; characterised by `ToggleFlipsSelection` and `ToggleTwiceRestoresFilters` |
| TagFilterCorrected.ToggleLinkFor | layouts/ListLayoutWithTags.tsx:111 | corrected: removable exactly when the slug is a whole filter piece |
| TagFilterCorrected.ToggleFlipsSelection | layouts/ListLayoutWithTags.tsx:111-154 | corrected: following a tag's link flips its selection and keeps every other slug's |
| TagFilterCorrected.ToggleTwiceRestoresFilters | layouts/ListLayoutWithTags.tsx:113-153 | corrected: toggling an unselected tag twice gives back the filter set |
| TagFilterCorrected.RemoveAllDropsLast | layouts/ListLayoutWithTags.tsx:117 | dropping the slug from pieces ending in it equals dropping it from the rest |
| TagFilterCorrected.SubstringActiveLinkGoesNowhere | layouts/ListLayoutWithTags.tsx:111 | as written: on `/tags/javascript` the tag with slug `java` is active and its link is the same route |
| TagFilterCorrected.ToggleAppendsSubstringTag | layouts/ListLayoutWithTags.tsx:111 | corrected: there, the toggle leads to `/tags/javascript&java` |
| TagFilterCorrected.RawNameLinkDoesNotSelect | layouts/ListLayoutWithTags.tsx:150 | as written: on `/blog`, "Next JS" links to `/tags/Next JS`, where it is neither active nor selected |
| TagFilterCorrected.ToggleSelectsBySlug | layouts/ListLayoutWithTags.tsx:150 | corrected: the toggle leads to `/tags/next-js`, where the tag is selected |
| Scenarios.RemoveFirstOfTwoTags | layouts/ListLayoutWithTags.tsx:113-122 | on `/tags/go&rust`, "Go" links to `/tags/rust` |
| Scenarios.RemoveLastTag | layouts/ListLayoutWithTags.tsx:118-120 | on `/tags/rust`, "Rust" links to `/blog` |
| Scenarios.AddFirstTagUsesRawName | layouts/ListLayoutWithTags.tsx:148-151 | on `/blog`, "Testing" links to `/tags/Testing` |
| Scenarios.FirstOfFivePages | layouts/ListLayoutWithTags.tsx:28-59 | page 1 of 5: no previous link, next `/blog/page/2` |
| Scenarios.LastOfFivePages | layouts/ListLayoutWithTags.tsx:28-59 | page 5 of 5: previous `/blog/page/4`, no next link |
| Scenarios.SecondOfFivePages | layouts/ListLayoutWithTags.tsx:41 | page 2 of 5: previous `/blog/`, next `/blog/page/3` |

The remove link (`TagFilter.RemoveFilterHref`) requires a tag segment. The layout builds it only for an active tag, and the active test already requires the segment. Building it without one would throw in the program.

## Left out

- `layouts/ProjectLayout.tsx` is not part of this model. It only composes markup, with buttons shown when a project has a demo or source link.
- Markup, CSS classes, the inline SVG, the `Link` and `Tag` components, the no-op `onClick`, and the "{currentPage} of {totalPages}" text are presentation only.
- The body of the `slug` function of `github-slugger` is not visible. It is the parameter `slugOf`, with no lowercasing or hyphenation assumed.
- The router hook `usePathname`, the imported tag-count table and the site metadata (description, locale) become parameters or are left out. So does the date formatting (`formatDate`), which is locale-dependent library code; the entry keeps the raw date.
- JavaScript numbers are modelled as unbounded integers. Page numbers never reach the range where doubles lose precision. Fractional page numbers are not modelled.
- `tags?.map` on a post without tags renders nothing. A post's tags are a sequence, with the empty sequence standing for a missing one.
- Sort comparators whose difference overflows or is `NaN` cannot arise with integer counts, so they are not modelled.
- JsText.IndexOf: strings are sequences of Unicode characters, not UTF-16 code units, so an index counts characters, and lone surrogates are not modelled. The layout uses only whether a text occurs and the split pieces, which agree on well-formed text.
- JsText.Split: requires a non-empty separator. The layout only splits on `/tags/`, `&` and `/`.
- TagFilter.AddFilterAppendsSlug: requires the slug to be a well-formed piece (no `&`, no `/tags/`). With an uninterpreted slug function, a slug holding `&` would add several pieces.
- TagFilter.TagLinkToggles: requires the slug to be a well-formed piece, for the same reason.
- TagFilterCorrected.ToggleFlipsSelection: requires the slug to be a well-formed piece, for the same reason.
- TagFilterCorrected.ToggleTwiceRestoresFilters: requires the slug to be a well-formed piece, for the same reason.

## Findings

| source | as written | input that shows it | evidently intended | confidence | as-written member | corrected member |
|---|---|---|---|---|---|---|
| layouts/ListLayoutWithTags.tsx:111 | a tag counts as active when its slug is a substring of the tag segment | route `/tags/javascript`, tag "Java" with slug `java`: shown active, and its remove link is `/tags/javascript` itself | active when the slug is one of the `&`-pieces, so the link adds `java` | medium (not executed) | TagFilterCorrected.SubstringActiveLinkGoesNowhere | TagFilterCorrected.ToggleFlipsSelection |
| layouts/ListLayoutWithTags.tsx:150 | with no tag segment, the add link uses the raw tag name | route `/blog`, tag "Next JS" with slug `next-js`: link `/tags/Next JS`, on which the tag is not active (shows only for a table key that differs from its slug; the tag-count table is not part of this model) | `/tags/` + slug, as the other branch does | medium (not executed) | TagFilterCorrected.RawNameLinkDoesNotSelect | TagFilterCorrected.ToggleSelectsBySlug |
