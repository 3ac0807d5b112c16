/**
 * The layout on a few concrete routes: toggling tags on `/tags/go&rust`,
 * `/tags/rust` and `/blog`, and the pagination slots of a five-page blog
 * listing. Each route and slug value is a parameter fixed by a
 * precondition rather than a literal inside the postcondition, which keeps
 * the solver from unfolding the literal text in every proof obligation.
 */
module Scenarios {
  import opened Options
  import opened JsText
  import opened TagFilter
  import opened Pagination
  import TagFilterCorrected

  /** The route `/tags/go&rust` has the filter pieces `go` and `rust`. */
  lemma GoRustFilters(pathname: string)
    requires pathname == "/tags/go&rust"
    ensures TagSegment(pathname) == Some("go&rust")
    ensures Filters(pathname) == Some(["go", "rust"])
  {
    var segment, pieces := "go&rust", ["go", "rust"];
    assert pathname == TagsMarker + segment;
    FirstCharOfOccurrence(segment, TagsMarker);
    SplitLeadingSeparator(TagsMarker, segment);
    assert Join(pieces, [FilterSeparator]) == segment by {
      JoinCons("go", ["rust"], [FilterSeparator]);
    }
    JoinSplit(pieces, FilterSeparator);
  }

  /** On `/tags/go&rust`, the link of tag "Go" removes `go` and leads to `/tags/rust`. */
  lemma RemoveFirstOfTwoTags(pathname: string, slugOf: string -> string)
    requires pathname == "/tags/go&rust"
    requires slugOf("Go") == "go"
    ensures TagLinkFor(pathname, "Go", slugOf) == TagLink("Go", true, "/tags/rust")
  {
    GoRustFilters(pathname);
    assert OccursAt("go&rust", "go", 0);
    var pieces := ["go", "rust"];
    assert RemoveAll(pieces, "go") == ["rust"] by {
      assert pieces[1..] == ["rust"];
      assert RemoveAll(["rust"], "go") == ["rust"];
    }
    assert IsActive(pathname, "Go", slugOf);
    assert RemoveFilterHref(pathname, "Go", slugOf) == TagsMarker + Join(["rust"], [FilterSeparator]);
    assert Join(["rust"], [FilterSeparator]) == "rust";
    assert TagsMarker + "rust" == "/tags/rust";
  }

  /** On `/tags/rust`, the link of tag "Rust" removes the last filter and leads to `/blog`. */
  lemma RemoveLastTag(pathname: string, slugOf: string -> string)
    requires pathname == "/tags/rust"
    requires slugOf("Rust") == "rust"
    ensures TagLinkFor(pathname, "Rust", slugOf) == TagLink("Rust", true, BlogRoute)
  {
    var segment := "rust";
    assert pathname == TagsMarker + segment;
    FirstCharOfOccurrence(segment, TagsMarker);
    SplitLeadingSeparator(TagsMarker, segment);
    assert Join([segment], [FilterSeparator]) == segment;
    JoinSplit([segment], FilterSeparator);
    assert OccursAt(segment, "rust", 0);
    assert RemoveAll([segment], "rust") == [];
  }

  /**
   * On `/blog`, the link of tag "Testing" leads to `/tags/Testing`, with
   * the raw name; the toggle with the slug leads to `/tags/testing`.
   */
  lemma AddFirstTagUsesRawName(pathname: string, slugOf: string -> string)
    requires pathname == BlogRoute
    requires slugOf("Testing") == "testing"
    ensures TagLinkFor(pathname, "Testing", slugOf) == TagLink("Testing", false, "/tags/Testing")
    ensures TagFilterCorrected.ToggleHref(pathname, "Testing", slugOf) == "/tags/testing"
  {
    BlogRouteHasNoFilters();
  }

  /** The section of `/blog` is `blog`. */
  lemma BlogSection(pathname: string)
    requires pathname == BlogRoute
    ensures TemplateText(BasePath(pathname)) == "blog"
  {
    assert Join(["", "blog"], [PathSeparator]) == pathname by {
      JoinCons("", ["blog"], [PathSeparator]);
    }
    JoinSplit(["", "blog"], PathSeparator);
  }

  /** Page 1 of 5 on `/blog`: a disabled "Previous" and a link to page 2. */
  lemma FirstOfFivePages(pathname: string)
    requires pathname == BlogRoute
    ensures PaginationLinks(pathname, PaginationProps(5, 1)) == PageLinks(None, Some("/blog/page/2"))
  {
    BlogSection(pathname);
    var links := PaginationLinks(pathname, PaginationProps(5, 1));
    assert links.prev == None;
    assert links.next == Some("/" + TemplateText(BasePath(pathname)) + "/page/" + IntText(2));
    assert IntText(2) == "2";
    assert "/" + "blog" + "/page/" + "2" == "/blog/page/2";
  }

  /** Page 5 of 5 on `/blog`: a link to page 4 and a disabled "Next". */
  lemma LastOfFivePages(pathname: string)
    requires pathname == BlogRoute
    ensures PaginationLinks(pathname, PaginationProps(5, 5)) == PageLinks(Some("/blog/page/4"), None)
  {
    BlogSection(pathname);
    var links := PaginationLinks(pathname, PaginationProps(5, 5));
    assert links.prev == Some("/" + TemplateText(BasePath(pathname)) + "/page/" + IntText(4));
    assert links.next == None;
    assert IntText(4) == "4";
    assert "/" + "blog" + "/page/" + "4" == "/blog/page/4";
  }

  /** Page 2 of 5 on `/blog`: "Previous" leads to the section root, "Next" to page 3. */
  lemma SecondOfFivePages(pathname: string)
    requires pathname == BlogRoute
    ensures PaginationLinks(pathname, PaginationProps(5, 2)) == PageLinks(Some("/blog/"), Some("/blog/page/3"))
  {
    BlogSection(pathname);
    var links := PaginationLinks(pathname, PaginationProps(5, 2));
    assert links.prev == Some("/" + TemplateText(BasePath(pathname)) + "/");
    assert links.next == Some("/" + TemplateText(BasePath(pathname)) + "/page/" + IntText(3));
    assert IntText(3) == "3";
    assert "/" + "blog" + "/" == "/blog/";
    assert "/" + "blog" + "/page/" + "3" == "/blog/page/3";
  }
}
