/**
 * The pagination block of the list layout: the section is the first
 * segment of the route, the previous and next links exist or give way to a
 * disabled button, and the block is shown only when there is more than one
 * page.
 */
module Pagination {
  import opened Options
  import opened JsText

  const PathSeparator: char := '/'

  /** The pagination prop of the layout; page numbers are integers, the current page counted from 1. */
  datatype PaginationProps = PaginationProps(totalPages: int, currentPage: int)

  /** The two link slots of the block; `None` is the disabled button. */
  datatype PageLinks = PageLinks(prev: Option<string>, next: Option<string>)

  /** `pathname.split('/')[1]`, `None` standing for `undefined`. */
  function BasePath(pathname: string): Option<string>
  {
    var parts := Split(pathname, [PathSeparator]);
    if |parts| >= 2 then Some(parts[1]) else None
  }

  /** What a template literal writes for a string that may be `undefined`. */
  function TemplateText(value: Option<string>): string
  {
    match value
    case Some(s) => s
    case None => "undefined"
  }

  /** The route of page `n` of a section: the section root for page 1. */
  function PageHref(base: string, n: int): string
  {
    if n == 1 then "/" + base + "/" else "/" + base + "/page/" + IntText(n)
  }

  /** The page a route of a section shows, read back from the route. */
  function PageNumberOf(href: string): Option<int>
  {
    var parts := Split(href, [PathSeparator]);
    if |parts| == 3 && parts[0] == "" && parts[2] == "" then Some(1)
    else if |parts| == 4 && parts[0] == "" && parts[2] == "page" then Some(ParseInt(parts[3]))
    else None
  }

  /** The `Pagination` component's two link slots on route `pathname`. */
  function PaginationLinks(pathname: string, props: PaginationProps): PageLinks
  {
    var basePath := TemplateText(BasePath(pathname));
    var current := props.currentPage;
    var prevPage := current - 1 > 0;
    var nextPage := current + 1 <= props.totalPages;
    PageLinks(
      if prevPage then
        Some(if current - 1 == 1 then "/" + basePath + "/" else "/" + basePath + "/page/" + IntText(current - 1))
      else None,
      if nextPage then Some("/" + basePath + "/page/" + IntText(current + 1)) else None)
  }

  /** `pagination && pagination.totalPages > 1`. */
  function ShowPagination(pagination: Option<PaginationProps>): (r: bool)
    ensures r <==> pagination.Some? && pagination.value.totalPages > 1
  {
    match pagination
    case None => false
    case Some(props) => props.totalPages > 1
  }

  // ---------------------------------------------------------------------

  /**
   * The section is absent exactly when the route holds no `/`; otherwise
   * it is the text between the first `/`, at `i`, and the next `/` or the
   * end, at `end`, and holds no `/`.
   */
  lemma BasePathIsFirstSegment(pathname: string) returns (i: nat, end: nat)
    ensures BasePath(pathname).None? <==> PathSeparator !in pathname
    ensures BasePath(pathname).Some? ==>
      && FirstOccurrence(pathname, [PathSeparator], i)
      && i + 1 <= end <= |pathname|
      && BasePath(pathname).value == pathname[i + 1..end]
      && (end == |pathname| || pathname[end] == PathSeparator)
      && PathSeparator !in BasePath(pathname).value
  {
    var sep := [PathSeparator];
    SplitManyIffContains(pathname, sep);
    ContainsChar(pathname, PathSeparator);
    i, end := 0, 0;
    if BasePath(pathname).Some? {
      i := IndexOf(pathname, sep).value;
      SecondPieceText(pathname, sep, i);
      PieceEndIsNextOccurrence(pathname, sep, i + 1);
      end := PieceEnd(pathname, sep, i + 1);
      if end < |pathname| {
        assert pathname[end] == pathname[end..end + 1][0];
      }
      forall k | i + 1 <= k < end
        ensures pathname[k] != PathSeparator
      {
        if pathname[k] == PathSeparator {
          assert pathname[k..k + 1] == sep;
          assert OccursAt(pathname, sep, k);
        }
      }
      var segment := pathname[i + 1..end];
      assert forall k :: 0 <= k < |segment| ==> segment[k] == pathname[i + 1 + k];
    }
  }

  /** The section text written into the links never holds `/`. */
  lemma SectionTextHasNoSeparator(pathname: string)
    ensures PathSeparator !in TemplateText(BasePath(pathname))
  {
    var _, _ := BasePathIsFirstSegment(pathname);
  }

  /** How the routes of page 1 and of later pages split on `/`. */
  lemma PageHrefSplits(base: string, n: int)
    requires PathSeparator !in base
    ensures n == 1 ==> Split(PageHref(base, n), [PathSeparator]) == ["", base, ""]
    ensures n != 1 ==> Split(PageHref(base, n), [PathSeparator]) == ["", base, "page", IntText(n)]
  {
    var sep := [PathSeparator];
    if n == 1 {
      assert Join(["", base, ""], sep) == "/" + base + "/" by {
        JoinCons("", [base, ""], sep);
        JoinCons(base, [""], sep);
      }
      JoinSplit(["", base, ""], PathSeparator);
    } else {
      var digits := IntText(n);
      assert Join(["", base, "page", digits], sep) == "/" + base + "/page/" + digits by {
        JoinCons("", [base, "page", digits], sep);
        JoinCons(base, ["page", digits], sep);
        JoinCons("page", [digits], sep);
      }
      JoinSplit(["", base, "page", digits], PathSeparator);
    }
  }

  /** Every page route reads back as its page number and stays in its section. */
  lemma PageHrefRoundTrip(base: string, n: int)
    requires PathSeparator !in base
    ensures PageNumberOf(PageHref(base, n)) == Some(n)
    ensures BasePath(PageHref(base, n)) == Some(base)
  {
    PageHrefSplits(base, n);
    if n != 1 {
      IntTextRoundTrip(n);
    }
  }

  /**
   * The previous link exists exactly when the current page is past the
   * first, the next link exactly when it is before the last; the previous
   * link of page 2 is the section root, that of a later page and the next
   * link are `/<section>/page/<n>`; each link leads to the page one before
   * or one after, in the same section.
   */
  lemma PaginationLinksAreNeighbours(pathname: string, props: PaginationProps)
    ensures var links, base, current := PaginationLinks(pathname, props), TemplateText(BasePath(pathname)), props.currentPage;
      && (links.prev.Some? <==> current > 1)
      && (links.next.Some? <==> current < props.totalPages)
      && (current == 2 ==> links.prev == Some("/" + base + "/"))
      && (current > 2 ==> links.prev == Some("/" + base + "/page/" + IntText(current - 1)))
      && (links.prev.Some? ==> PageNumberOf(links.prev.value) == Some(current - 1)
                               && BasePath(links.prev.value) == Some(base))
      && (links.next.Some? ==> links.next.value == "/" + base + "/page/" + IntText(current + 1)
                               && PageNumberOf(links.next.value) == Some(current + 1)
                               && BasePath(links.next.value) == Some(base))
  {
    PreviousLinkIsPageBefore(pathname, props);
    NextLinkIsPageAfter(pathname, props);
  }

  /** The previous slot: a link to page `currentPage - 1` of the section exactly when `currentPage > 1`. */
  lemma PreviousLinkIsPageBefore(pathname: string, props: PaginationProps)
    ensures var links, base, current := PaginationLinks(pathname, props), TemplateText(BasePath(pathname)), props.currentPage;
      && (links.prev.Some? <==> current > 1)
      && (current > 1 ==> links.prev == Some(PageHref(base, current - 1)))
      && (links.prev.Some? ==> PageNumberOf(links.prev.value) == Some(current - 1)
                               && BasePath(links.prev.value) == Some(base))
  {
    var base, current := TemplateText(BasePath(pathname)), props.currentPage;
    SectionTextHasNoSeparator(pathname);
    if current > 1 {
      PageHrefRoundTrip(base, current - 1);
    }
  }

  /** The next slot: `/<section>/page/<currentPage + 1>` exactly when `currentPage < totalPages`. */
  lemma NextLinkIsPageAfter(pathname: string, props: PaginationProps)
    ensures var links, base, current := PaginationLinks(pathname, props), TemplateText(BasePath(pathname)), props.currentPage;
      && (links.next.Some? <==> current < props.totalPages)
      && (links.next.Some? ==> links.next.value == "/" + base + "/page/" + IntText(current + 1)
                               && PageNumberOf(links.next.value) == Some(current + 1)
                               && BasePath(links.next.value) == Some(base))
  {
    var base, current := TemplateText(BasePath(pathname)), props.currentPage;
    SectionTextHasNoSeparator(pathname);
    if current < props.totalPages {
      NumberedPageRoundTrip(base, current + 1);
    }
  }

  /** `/<section>/page/<n>` reads back as page `n` of the section, for every `n`. */
  lemma NumberedPageRoundTrip(base: string, n: int)
    requires PathSeparator !in base
    ensures PageNumberOf("/" + base + "/page/" + IntText(n)) == Some(n)
    ensures BasePath("/" + base + "/page/" + IntText(n)) == Some(base)
  {
    var digits := IntText(n);
    assert Join(["", base, "page", digits], [PathSeparator]) == "/" + base + "/page/" + digits by {
      JoinCons("", [base, "page", digits], [PathSeparator]);
      JoinCons(base, ["page", digits], [PathSeparator]);
      JoinCons("page", [digits], [PathSeparator]);
    }
    JoinSplit(["", base, "page", digits], PathSeparator);
    IntTextRoundTrip(n);
  }

  /**
   * On a block that is shown, with the current page within range, at
   * least one of the two slots is a link.
   */
  lemma ShownBlockHasALink(pathname: string, pagination: Option<PaginationProps>)
    requires ShowPagination(pagination)
    requires 1 <= pagination.value.currentPage <= pagination.value.totalPages
    ensures var links := PaginationLinks(pathname, pagination.value);
      links.prev.Some? || links.next.Some?
  {
  }
}
