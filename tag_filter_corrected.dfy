/**
 * The toggle the tag list evidently intends: a tag is selected when its
 * slug is one of the filter pieces, and its link removes that piece when
 * selected and appends the slug otherwise, also on a route without a
 * filter set. Beside it, two routes on which the links as written fall
 * short of that toggle; there each route and slug value is a parameter
 * fixed by a precondition rather than a literal inside the postcondition,
 * which keeps the solver from unfolding the literal text in every proof
 * obligation.
 */
module TagFilterCorrected {
  import opened Options
  import opened JsText
  import opened TagFilter

  /** Tag `t` is selected on `pathname`: its slug is one of the filter pieces. */
  function IsSelected(pathname: string, t: string, slugOf: string -> string): bool
  {
    match Filters(pathname)
    case None => false
    case Some(pieces) => slugOf(t) in pieces
  }

  /** The link of tag `t`: its slug removed when selected, appended otherwise. */
  function ToggleHref(pathname: string, t: string, slugOf: string -> string): string
  {
    if IsSelected(pathname, t, slugOf) then RemoveFilterHref(pathname, t, slugOf)
    else
      match Filters(pathname)
      case None => TagsMarker + slugOf(t)
      case Some(pieces) => TagsMarker + Join(pieces + [slugOf(t)], [FilterSeparator])
  }

  /** The list item of tag `t` with the corrected test and link. */
  function ToggleLinkFor(pathname: string, t: string, slugOf: string -> string): (r: TagLink)
    ensures r.name == t
    ensures r.removable <==> Filters(pathname).Some? && slugOf(t) in Filters(pathname).value
  {
    TagLink(t, IsSelected(pathname, t, slugOf), ToggleHref(pathname, t, slugOf))
  }

  // ---------------------------------------------------------------------

  /**
   * Following the link of a tag flips whether that tag is selected, and
   * leaves the selection of every tag with another slug as it was.
   */
  lemma ToggleFlipsSelection(pathname: string, t: string, slugOf: string -> string)
    requires IsPiece(slugOf(t))
    ensures IsSelected(ToggleHref(pathname, t, slugOf), t, slugOf) <==> !IsSelected(pathname, t, slugOf)
    ensures forall u :: slugOf(u) != slugOf(t) ==>
      (IsSelected(ToggleHref(pathname, t, slugOf), u, slugOf) <==> IsSelected(pathname, u, slugOf))
  {
    var s := slugOf(t);
    var href := ToggleHref(pathname, t, slugOf);
    if IsSelected(pathname, t, slugOf) {
      var pieces := Filters(pathname).value;
      RemoveFilterDropsTag(pathname, t, slugOf);
      if href == BlogRoute {
        forall y | y in pieces
          ensures y == s
        {
          var k :| 0 <= k < |pieces| && pieces[k] == y;
        }
      }
    } else {
      match Filters(pathname)
      case None =>
        RouteRoundTrip([s]);
        assert Join([s], [FilterSeparator]) == s;
      case Some(pieces) =>
        assert href == AddFilterHref(pathname, t, slugOf);
        AddFilterAppendsSlug(pathname, t, slugOf);
    }
  }

  /**
   * Following the link of an unselected tag and then its link on the new
   * route gives back the filter set of the starting route (or none, when
   * it had none).
   */
  lemma ToggleTwiceRestoresFilters(pathname: string, t: string, slugOf: string -> string)
    requires IsPiece(slugOf(t))
    requires !IsSelected(pathname, t, slugOf)
    ensures Filters(ToggleHref(ToggleHref(pathname, t, slugOf), t, slugOf)) == Filters(pathname)
  {
    var s := slugOf(t);
    var middle := ToggleHref(pathname, t, slugOf);
    ToggleFlipsSelection(pathname, t, slugOf);
    var pieces: seq<string> := match Filters(pathname) case None => [] case Some(p) => p;
    assert Filters(middle) == Some(pieces + [s]) by {
      match Filters(pathname)
      case None =>
        RouteRoundTrip([s]);
        assert Join([s], [FilterSeparator]) == s;
        assert pieces + [s] == [s];
      case Some(p) =>
        assert pieces == p;
        assert middle == AddFilterHref(pathname, t, slugOf);
        AddFilterAppendsSlug(pathname, t, slugOf);
    }
    RemoveFilterDropsTag(middle, t, slugOf);
    RemoveAllDropsLast(pieces, s);
    assert s !in pieces;
    if Filters(pathname).None? {
      BlogRouteHasNoFilters();
    } else {
      assert pieces[0] in pieces;
      assert (pieces + [s])[0] != s;
    }
  }

  /** Removing `x` from a sequence that ends in `x` is removing it from the rest. */
  lemma RemoveAllDropsLast(a: seq<string>, x: string)
    ensures RemoveAll(a + [x], x) == RemoveAll(a, x)
  {
    RemoveAllKeepsOrder(a, [x], x);
    RemoveAllOnePiece(x, x);
  }

  // ---------------------------------------------------------------------
  // Two routes on which the links as written differ from the toggle.

  /**
   * On `/tags/javascript`, whose one filter piece is `javascript`, a tag
   * whose slug is `java` is shown as active because `java` is a substring
   * of the segment, and its "remove" link is the route itself; it is not
   * selected.
   */
  lemma SubstringActiveLinkGoesNowhere(pathname: string, slugOf: string -> string)
    requires pathname == "/tags/javascript"
    requires slugOf("Java") == "java"
    ensures Filters(pathname) == Some(["javascript"])
    ensures TagLinkFor(pathname, "Java", slugOf) == TagLink("Java", true, pathname)
    ensures !IsSelected(pathname, "Java", slugOf)
  {
    var segment := "javascript";
    assert pathname == TagsMarker + segment;
    FirstCharOfOccurrence(segment, TagsMarker);
    SplitLeadingSeparator(TagsMarker, segment);
    assert Join([segment], [FilterSeparator]) == segment;
    RouteRoundTrip([segment]);
    assert OccursAt(segment, "java", 0);
    SubstringMatchRemovesNothing(pathname, "Java", slugOf);
  }

  /** On `/tags/javascript`, the toggle of the tag with slug `java` appends it. */
  lemma ToggleAppendsSubstringTag(pathname: string, slugOf: string -> string)
    requires pathname == "/tags/javascript"
    requires slugOf("Java") == "java"
    ensures ToggleHref(pathname, "Java", slugOf) == pathname + "&java"
  {
    SubstringActiveLinkGoesNowhere(pathname, slugOf);
    JoinCons("javascript", ["java"], [FilterSeparator]);
    assert ["javascript"] + ["java"] == ["javascript", "java"];
  }

  /** The route `/tags/Next JS` has the one filter piece `Next JS`. */
  lemma RawNameRouteFilters(route: string)
    requires route == "/tags/Next JS"
    ensures TagSegment(route) == Some("Next JS")
    ensures Filters(route) == Some(["Next JS"])
  {
    var name := "Next JS";
    assert route == TagsMarker + name;
    FirstCharOfOccurrence(name, TagsMarker);
    SplitLeadingSeparator(TagsMarker, name);
    assert Join([name], [FilterSeparator]) == name;
    JoinSplit([name], FilterSeparator);
  }

  /**
   * On `/blog`, the link of tag "Next JS" (slug `next-js`) leads to
   * `/tags/Next JS`, on which the tag is neither shown active nor selected.
   */
  lemma RawNameLinkDoesNotSelect(pathname: string, route: string, slugOf: string -> string)
    requires pathname == BlogRoute && route == "/tags/Next JS"
    requires slugOf("Next JS") == "next-js"
    ensures TagLinkFor(pathname, "Next JS", slugOf) == TagLink("Next JS", false, route)
    ensures !IsActive(route, "Next JS", slugOf)
    ensures !IsSelected(route, "Next JS", slugOf)
  {
    BlogRouteHasNoFilters();
    assert TagsMarker + "Next JS" == route;
    RawNameRouteFilters(route);
    FirstCharOfOccurrence("Next JS", "next-js");
  }

  /** On `/blog`, the toggle of tag "Next JS" leads to `/tags/next-js`, on which it is selected. */
  lemma ToggleSelectsBySlug(pathname: string, route: string, slugOf: string -> string)
    requires pathname == BlogRoute && route == "/tags/next-js"
    requires slugOf("Next JS") == "next-js"
    ensures ToggleHref(pathname, "Next JS", slugOf) == route
    ensures IsSelected(route, "Next JS", slugOf)
  {
    var s := "next-js";
    assert TagsMarker + s == route;
    BlogRouteHasNoFilters();
    FirstCharOfOccurrence(s, TagsMarker);
    assert Join([s], [FilterSeparator]) == s;
    RouteRoundTrip([s]);
  }
}
