/**
 * The tag filter of the list layout. The active filter set lives only in
 * the route: `/tags/<slug1>&<slug2>&...`. Each tag of the ranking is shown
 * either as active (a link that removes it from the filter set) or as
 * inactive (a link that adds it). The slug function of the slugger library
 * is a parameter `slugOf`; nothing is assumed about it beyond being a
 * function.
 */
module TagFilter {
  import opened Options
  import opened JsText

  const TagsMarker: string := "/tags/"
  const BlogRoute: string := "/blog"
  const FilterSeparator: char := '&'

  /** A tag as the list shows it: its name, whether it is active, and its link. */
  datatype TagLink = TagLink(name: string, removable: bool, href: string)

  /** `pathname.split('/tags/')[1]`, `None` standing for `undefined`. */
  function TagSegment(pathname: string): Option<string>
  {
    var parts := Split(pathname, TagsMarker);
    if |parts| >= 2 then Some(parts[1]) else None
  }

  /** `pathname.split('/tags/')[1]?.split('&')`: the filter pieces of the route. */
  function Filters(pathname: string): (r: Option<seq<string>>)
    ensures r.Some? <==> TagSegment(pathname).Some?
    ensures r.Some? ==> |r.value| >= 1
  {
    match TagSegment(pathname)
    case None => None
    case Some(segment) => Some(Split(segment, [FilterSeparator]))
  }

  /**
   * A tag is shown as active when the route has a tag segment that holds
   * the tag's slug anywhere as a substring, not necessarily as a whole piece.
   */
  function IsActive(pathname: string, t: string, slugOf: string -> string): (r: bool)
    ensures r <==> TagSegment(pathname).Some? && Contains(TagSegment(pathname).value, slugOf(t))
  {
    match TagSegment(pathname)
    case None => false
    case Some(segment) => Includes(segment, slugOf(t))
  }

  /** `pieces.filter((x) => x !== tagSlug)`. */
  function RemoveAll(pieces: seq<string>, tagSlug: string): (r: seq<string>)
    ensures forall y :: y in r <==> y in pieces && y != tagSlug
    ensures forall y :: y != tagSlug ==> multiset(r)[y] == multiset(pieces)[y]
    ensures tagSlug !in pieces ==> r == pieces
    decreases |pieces|
  {
    if |pieces| == 0 then []
    else
      assert pieces == [pieces[0]] + pieces[1..];
      (if pieces[0] == tagSlug then [] else [pieces[0]]) + RemoveAll(pieces[1..], tagSlug)
  }

  /**
   * The link of an active tag: the route without every piece equal to the
   * tag's slug, or the blog route when no piece is left. The layout builds
   * it only for an active tag, so the tag segment is there.
   */
  function RemoveFilterHref(pathname: string, t: string, slugOf: string -> string): string
    requires TagSegment(pathname).Some?
  {
    var filters := RemoveAll(Split(TagSegment(pathname).value, [FilterSeparator]), slugOf(t));
    if |filters| == 0 then BlogRoute else TagsMarker + Join(filters, [FilterSeparator])
  }

  /**
   * The link of an inactive tag: with no tag segment, the tag's raw name
   * after the marker; otherwise the existing pieces followed by the slug.
   */
  function AddFilterHref(pathname: string, t: string, slugOf: string -> string): string
  {
    match Filters(pathname)
    case None => TagsMarker + t
    case Some(filters) => TagsMarker + Join(filters + [slugOf(t)], [FilterSeparator])
  }

  /** The list item rendered for tag `t` on route `pathname`. */
  function TagLinkFor(pathname: string, t: string, slugOf: string -> string): (r: TagLink)
    ensures r.name == t
    ensures r.removable <==> IsActive(pathname, t, slugOf)
  {
    if IsActive(pathname, t, slugOf) then TagLink(t, true, RemoveFilterHref(pathname, t, slugOf))
    else TagLink(t, false, AddFilterHref(pathname, t, slugOf))
  }

  /** `pathname.startsWith('/blog')`: the heading reads "Tags" instead of offering "Remove Filter(s)". */
  function ShowsTagsHeading(pathname: string): (r: bool)
    ensures r <==> OccursAt(pathname, BlogRoute, 0)
  {
    StartsWith(pathname, BlogRoute)
  }

  // ---------------------------------------------------------------------
  // What the route says about the filter set.

  /** A text that can stand as one filter piece without changing how the route splits. */
  ghost predicate IsPiece(s: string) {
    FilterSeparator !in s && !Contains(s, TagsMarker)
  }

  /**
   * The tag segment is absent exactly when the route holds no `/tags/`;
   * otherwise it is the text that starts right after the first `/tags/`
   * and runs up to the next `/tags/` or to the end of the route.
   */
  lemma TagSegmentIsTextAfterFirstMarker(pathname: string, i: nat)
    requires FirstOccurrence(pathname, TagsMarker, i)
    ensures TagSegment(pathname).Some?
    ensures var segment, start := TagSegment(pathname).value, i + |TagsMarker|;
      && start + |segment| <= |pathname|
      && pathname[start..start + |segment|] == segment
      && (start + |segment| == |pathname| || OccursAt(pathname, TagsMarker, start + |segment|))
      && (forall j :: start <= j < start + |segment| ==> !OccursAt(pathname, TagsMarker, j))
  {
    SecondPieceText(pathname, TagsMarker, i);
    PieceEndIsNextOccurrence(pathname, TagsMarker, i + |TagsMarker|);
  }

  lemma NoSegmentWithoutMarker(pathname: string)
    ensures TagSegment(pathname).None? <==> !Contains(pathname, TagsMarker)
  {
    SplitManyIffContains(pathname, TagsMarker);
  }

  /** The tag segment never holds `/tags/`, and no filter piece holds `&` or `/tags/`. */
  lemma FilterPiecesAreWellFormed(pathname: string)
    requires Filters(pathname).Some?
    ensures !Contains(TagSegment(pathname).value, TagsMarker)
    ensures forall k :: 0 <= k < |Filters(pathname).value| ==> IsPiece(Filters(pathname).value[k])
  {
    var segment := TagSegment(pathname).value;
    SplitPiecesFree(pathname, TagsMarker);
    var pieces := Split(segment, [FilterSeparator]);
    SplitPiecesFree(segment, [FilterSeparator]);
    forall k | 0 <= k < |pieces|
      ensures IsPiece(pieces[k])
    {
      ContainsChar(pieces[k], FilterSeparator);
      if Contains(pieces[k], TagsMarker) {
        SplitPieceInside(segment, [FilterSeparator], k, TagsMarker);
      }
    }
  }

  /** The route built from a non-empty list of well-formed pieces has exactly those pieces as filters. */
  lemma RouteRoundTrip(pieces: seq<string>)
    requires |pieces| >= 1
    requires forall k :: 0 <= k < |pieces| ==> IsPiece(pieces[k])
    ensures Filters(TagsMarker + Join(pieces, [FilterSeparator])) == Some(pieces)
  {
    var joined := Join(pieces, [FilterSeparator]);
    JoinedPiecesHoldNoMarker(pieces);
    SegmentAfterMarker(joined);
    assert forall k :: 0 <= k < |pieces| ==> FilterSeparator !in pieces[k] by {
      forall k | 0 <= k < |pieces| ensures FilterSeparator !in pieces[k] {
        assert IsPiece(pieces[k]);
      }
    }
    JoinSplit(pieces, FilterSeparator);
  }

  /** Well-formed pieces joined on `&` never form `/tags/`. */
  lemma JoinedPiecesHoldNoMarker(pieces: seq<string>)
    requires |pieces| >= 1
    requires forall k :: 0 <= k < |pieces| ==> IsPiece(pieces[k])
    ensures !Contains(Join(pieces, [FilterSeparator]), TagsMarker)
  {
    assert FilterSeparator !in TagsMarker by {
      assert TagsMarker == ['/', 't', 'a', 'g', 's', '/'];
    }
    assert forall k :: 0 <= k < |pieces| ==> !Contains(pieces[k], TagsMarker) by {
      forall k | 0 <= k < |pieces| ensures !Contains(pieces[k], TagsMarker) {
        assert IsPiece(pieces[k]);
      }
    }
    NotContainsJoin(pieces, FilterSeparator, TagsMarker);
  }

  /** The marker followed by text without it has that text as its tag segment. */
  lemma SegmentAfterMarker(x: string)
    requires !Contains(x, TagsMarker)
    ensures TagSegment(TagsMarker + x) == Some(x)
  {
    SplitLeadingSeparator(TagsMarker, x);
  }

  /**
   * The filter keeps the pieces in their original relative order:
   * filtering a concatenation filters each part.
   */
  lemma {:induction false} RemoveAllKeepsOrder(a: seq<string>, b: seq<string>, tagSlug: string)
    ensures RemoveAll(a + b, tagSlug) == RemoveAll(a, tagSlug) + RemoveAll(b, tagSlug)
    decreases |a|
  {
    if |a| == 0 {
      assert a + b == b;
    } else {
      var head: seq<string> := if a[0] == tagSlug then [] else [a[0]];
      calc {
        RemoveAll(a + b, tagSlug);
        { assert (a + b)[0] == a[0]; assert (a + b)[1..] == a[1..] + b; }
        head + RemoveAll(a[1..] + b, tagSlug);
        { RemoveAllKeepsOrder(a[1..], b, tagSlug); }
        head + (RemoveAll(a[1..], tagSlug) + RemoveAll(b, tagSlug));
        (head + RemoveAll(a[1..], tagSlug)) + RemoveAll(b, tagSlug);
      }
    }
  }

  /** One piece is kept exactly when it differs from the slug. */
  lemma RemoveAllOnePiece(x: string, tagSlug: string)
    ensures RemoveAll([x], tagSlug) == if x == tagSlug then [] else [x]
  {
    assert [x][1..] == [];
  }

  lemma BlogRouteHasNoFilters()
    ensures Filters(BlogRoute).None?
  {
    assert !Contains(BlogRoute, TagsMarker);
    NoSegmentWithoutMarker(BlogRoute);
  }

  // ---------------------------------------------------------------------
  // The links of active and inactive tags.

  /**
   * The link of an active tag drops every piece equal to the slug and
   * keeps the others in their order; it is exactly the blog route when no
   * piece is left.
   */
  lemma RemoveFilterDropsTag(pathname: string, t: string, slugOf: string -> string)
    requires TagSegment(pathname).Some?
    ensures var pieces := Filters(pathname).value;
      && (RemoveFilterHref(pathname, t, slugOf) == BlogRoute
          <==> forall k :: 0 <= k < |pieces| ==> pieces[k] == slugOf(t))
      && (RemoveFilterHref(pathname, t, slugOf) == BlogRoute ==> Filters(BlogRoute).None?)
      && (RemoveFilterHref(pathname, t, slugOf) != BlogRoute ==>
            Filters(RemoveFilterHref(pathname, t, slugOf)) == Some(RemoveAll(pieces, slugOf(t))))
  {
    var pieces := Filters(pathname).value;
    var kept := RemoveAll(pieces, slugOf(t));
    BlogRouteHasNoFilters();
    if |kept| == 0 {
      forall k | 0 <= k < |pieces|
        ensures pieces[k] == slugOf(t)
      {
        assert pieces[k] in pieces;
      }
    } else {
      assert kept[0] in kept;
      var href := TagsMarker + Join(kept, [FilterSeparator]);
      assert href[1] != BlogRoute[1];
      FilterPiecesAreWellFormed(pathname);
      forall k | 0 <= k < |kept|
        ensures IsPiece(kept[k])
      {
        assert kept[k] in kept;
        var j :| 0 <= j < |pieces| && pieces[j] == kept[k];
      }
      RouteRoundTrip(kept);
    }
  }

  /**
   * When the slug of an active tag is only a substring of the tag segment
   * and never a whole piece, its "remove" link leads back to the same
   * filter set.
   */
  lemma SubstringMatchRemovesNothing(pathname: string, t: string, slugOf: string -> string)
    requires IsActive(pathname, t, slugOf)
    requires slugOf(t) !in Filters(pathname).value
    ensures RemoveFilterHref(pathname, t, slugOf) == TagsMarker + TagSegment(pathname).value
    ensures Filters(RemoveFilterHref(pathname, t, slugOf)) == Filters(pathname)
  {
    var segment := TagSegment(pathname).value;
    SplitJoin(segment, [FilterSeparator]);
    RemoveFilterDropsTag(pathname, t, slugOf);
  }

  /**
   * With a tag segment, the link of an inactive tag keeps the filter
   * pieces in order and appends the slug as one more piece.
   */
  lemma AddFilterAppendsSlug(pathname: string, t: string, slugOf: string -> string)
    requires Filters(pathname).Some?
    requires IsPiece(slugOf(t))
    ensures Filters(AddFilterHref(pathname, t, slugOf)) == Some(Filters(pathname).value + [slugOf(t)])
    ensures |Filters(AddFilterHref(pathname, t, slugOf)).value| == |Filters(pathname).value| + 1
  {
    var pieces := Filters(pathname).value + [slugOf(t)];
    FilterPiecesAreWellFormed(pathname);
    RouteRoundTrip(pieces);
  }

  /**
   * Without a tag segment, the link of an inactive tag is the marker
   * followed by the raw tag name, not its slug; that name becomes the one
   * filter piece when it can stand as a piece.
   */
  lemma AddFilterWithoutSegmentUsesRawName(pathname: string, t: string, slugOf: string -> string)
    requires Filters(pathname).None?
    ensures AddFilterHref(pathname, t, slugOf) == TagsMarker + t
    ensures IsPiece(t) ==> Filters(AddFilterHref(pathname, t, slugOf)) == Some([t])
  {
    if IsPiece(t) {
      RouteRoundTrip([t]);
    }
  }

  /** On a bare `/tags/` route, adding a tag yields an empty first piece. */
  lemma BareMarkerAddsEmptyPiece(t: string, slugOf: string -> string)
    ensures AddFilterHref(TagsMarker, t, slugOf) == TagsMarker + [FilterSeparator] + slugOf(t)
  {
    SplitLeadingSeparator(TagsMarker, "");
    assert TagsMarker + "" == TagsMarker;
    assert Split("", [FilterSeparator]) == [""];
    JoinCons("", [slugOf(t)], [FilterSeparator]);
  }

  /**
   * The link of each tag: a tag whose slug is a whole piece is removed
   * from the filter set; a tag whose slug is only a substring keeps the
   * filter set; any other tag is appended.
   */
  lemma TagLinkToggles(pathname: string, t: string, slugOf: string -> string)
    requires IsPiece(slugOf(t))
    ensures var link := TagLinkFor(pathname, t, slugOf);
      && link.name == t
      && (Filters(pathname).Some? && slugOf(t) in Filters(pathname).value ==>
            link.removable && slugOf(t) !in RemoveAll(Filters(pathname).value, slugOf(t))
            && (link.href == BlogRoute || Filters(link.href) == Some(RemoveAll(Filters(pathname).value, slugOf(t)))))
      && (IsActive(pathname, t, slugOf) && slugOf(t) !in Filters(pathname).value ==>
            link.removable && Filters(link.href) == Filters(pathname))
      && (!IsActive(pathname, t, slugOf) ==>
            !link.removable
            && (Filters(pathname).Some? ==> Filters(link.href) == Some(Filters(pathname).value + [slugOf(t)]))
            && (Filters(pathname).None? ==> link.href == TagsMarker + t))
  {
    var s := slugOf(t);
    match Filters(pathname)
    case None =>
    case Some(pieces) =>
      if s in pieces {
        var k :| 0 <= k < |pieces| && pieces[k] == s;
        assert Contains(s, s) by { assert OccursAt(s, s, 0); }
        ContainsInJoin(pieces, [FilterSeparator], k, s);
        SplitJoin(TagSegment(pathname).value, [FilterSeparator]);
        assert IsActive(pathname, t, slugOf);
        RemoveFilterDropsTag(pathname, t, slugOf);
      } else if IsActive(pathname, t, slugOf) {
        SubstringMatchRemovesNothing(pathname, t, slugOf);
      } else {
        AddFilterAppendsSlug(pathname, t, slugOf);
      }
  }
}
