/**
 * The list layout with tags: which posts it lists, the ranked tag list
 * with one link per tag, the heading above the tags, and the pagination
 * block. Markup, styles and formatted dates are not modelled; what the
 * layout renders is reduced to the values that decide it.
 */
module ListLayout {
  import opened Options
  import opened JsText
  import opened TagFilter
  import opened TagRanking
  import opened Pagination

  /** The fields of a post the layout reads. */
  datatype Post = Post(path: string, date: string, title: string, summary: string, tags: seq<string>)

  /** One entry of the post list: its key, its link and the fields shown. */
  datatype PostItem = PostItem(key: string, href: string, date: string, title: string, summary: string, tags: seq<string>)

  /**
   * What the layout renders: the title, whether the tag block is headed
   * "Tags" (otherwise a "Remove Filter(s)" link to the blog route), the
   * tag links, the post entries and, when shown, the pagination slots.
   */
  datatype ListPage = ListPage(
    title: string,
    tagsHeading: bool,
    tagLinks: seq<TagLink>,
    items: seq<PostItem>,
    pagination: Option<PageLinks>)

  /** The posts the layout lists: the pre-sliced page when it is non-empty, otherwise all posts. */
  function DisplayPosts(posts: seq<Post>, initialDisplayPosts: seq<Post>): (r: seq<Post>)
    ensures |initialDisplayPosts| > 0 ==> r == initialDisplayPosts
    ensures |initialDisplayPosts| == 0 ==> r == posts
    ensures |r| == 0 <==> |posts| == 0 && |initialDisplayPosts| == 0
  {
    if |initialDisplayPosts| > 0 then initialDisplayPosts else posts
  }

  /** The entry of one post: keyed by its path, linked at `/<path>`. */
  function PostItemFor(post: Post): (r: PostItem)
    ensures r.href == "/" + r.key && r.key == post.path
    ensures r.title == post.title && r.date == post.date && r.summary == post.summary && r.tags == post.tags
  {
    PostItem(post.path, "/" + post.path, post.date, post.title, post.summary, post.tags)
  }

  /** `sortedTags.map(...)`: one list item per tag, in the order of the ranking. */
  function TagLinks(pathname: string, sortedTags: seq<string>, slugOf: string -> string): (r: seq<TagLink>)
    ensures |r| == |sortedTags|
    ensures forall i :: 0 <= i < |r| ==> r[i] == TagLinkFor(pathname, sortedTags[i], slugOf)
  {
    seq(|sortedTags|, i requires 0 <= i < |sortedTags| => TagLinkFor(pathname, sortedTags[i], slugOf))
  }

  /** `displayPosts.map(...)`: one entry per displayed post, in their order. */
  function PostItems(displayPosts: seq<Post>): (r: seq<PostItem>)
    ensures |r| == |displayPosts|
    ensures forall i :: 0 <= i < |r| ==> r[i] == PostItemFor(displayPosts[i])
  {
    seq(|displayPosts|, i requires 0 <= i < |displayPosts| => PostItemFor(displayPosts[i]))
  }

  /** The whole layout on route `pathname` with the tag-count table enumerated as `keys`. */
  function Render(
    pathname: string, title: string,
    keys: seq<string>, counts: map<string, int>, slugOf: string -> string,
    posts: seq<Post>, initialDisplayPosts: seq<Post>,
    pagination: Option<PaginationProps>): ListPage
    requires IsKeyOrder(keys, counts)
  {
    var sortedTags := SortedTags(keys, counts);
    var displayPosts := DisplayPosts(posts, initialDisplayPosts);
    ListPage(
      title,
      ShowsTagsHeading(pathname),
      TagLinks(pathname, sortedTags, slugOf),
      PostItems(displayPosts),
      if ShowPagination(pagination) then Some(PaginationLinks(pathname, pagination.value)) else None)
  }

  // ---------------------------------------------------------------------

  /** The names of a list of tag links, in order. */
  function TagNames(links: seq<TagLink>): seq<string>
  {
    seq(|links|, i requires 0 <= i < |links| => links[i].name)
  }

  /**
   * The tag list names every tag of the table exactly once, and counts
   * never increase from one tag to the next.
   */
  lemma RenderRanksEveryTagOnce(
    pathname: string, title: string,
    keys: seq<string>, counts: map<string, int>, slugOf: string -> string,
    posts: seq<Post>, initialDisplayPosts: seq<Post>,
    pagination: Option<PaginationProps>)
    requires IsKeyOrder(keys, counts)
    ensures var names := TagNames(Render(pathname, title, keys, counts, slugOf, posts, initialDisplayPosts, pagination).tagLinks);
      && (forall t :: t in names <==> t in counts)
      && Distinct(names)
      && |names| == |counts|
      && (forall i :: 0 <= i < |names| - 1 ==> counts[names[i]] >= counts[names[i + 1]])
  {
    var links := Render(pathname, title, keys, counts, slugOf, posts, initialDisplayPosts, pagination).tagLinks;
    var sortedTags := SortedTags(keys, counts);
    assert links == TagLinks(pathname, sortedTags, slugOf);
    TagLinksKeepNames(pathname, sortedTags, slugOf);
    SortedTagsRanksAllKeys(keys, counts);
  }

  lemma TagLinksKeepNames(pathname: string, tags: seq<string>, slugOf: string -> string)
    ensures TagNames(TagLinks(pathname, tags, slugOf)) == tags
  {
    var names := TagNames(TagLinks(pathname, tags, slugOf));
    forall i | 0 <= i < |tags|
      ensures names[i] == tags[i]
    {
      assert TagLinks(pathname, tags, slugOf)[i] == TagLinkFor(pathname, tags[i], slugOf);
    }
  }

  /** Each tag gets the link its route gives it, removable exactly when the tag is active. */
  lemma RenderLinksEachTag(
    pathname: string, title: string,
    keys: seq<string>, counts: map<string, int>, slugOf: string -> string,
    posts: seq<Post>, initialDisplayPosts: seq<Post>,
    pagination: Option<PaginationProps>)
    requires IsKeyOrder(keys, counts)
    ensures var links := Render(pathname, title, keys, counts, slugOf, posts, initialDisplayPosts, pagination).tagLinks;
      forall i :: 0 <= i < |links| ==>
        && links[i] == TagLinkFor(pathname, links[i].name, slugOf)
        && (links[i].removable <==> IsActive(pathname, links[i].name, slugOf))
  {
    var links := Render(pathname, title, keys, counts, slugOf, posts, initialDisplayPosts, pagination).tagLinks;
    assert links == TagLinks(pathname, SortedTags(keys, counts), slugOf);
  }

  /**
   * The post list shows the displayed posts in the order given, each
   * linked at `/<path>`; the heading reads "Tags" exactly on routes that
   * start with `/blog`; the pagination block is there exactly when the
   * prop is given with more than one page.
   */
  lemma RenderListsDisplayPostsInOrder(
    pathname: string, title: string,
    keys: seq<string>, counts: map<string, int>, slugOf: string -> string,
    posts: seq<Post>, initialDisplayPosts: seq<Post>,
    pagination: Option<PaginationProps>)
    requires IsKeyOrder(keys, counts)
    ensures var page, shown := Render(pathname, title, keys, counts, slugOf, posts, initialDisplayPosts, pagination),
                               if |initialDisplayPosts| > 0 then initialDisplayPosts else posts;
      && page.title == title
      && |page.items| == |shown|
      && (forall i :: 0 <= i < |shown| ==> page.items[i].href == "/" + shown[i].path && page.items[i].title == shown[i].title)
      && (page.tagsHeading <==> OccursAt(pathname, BlogRoute, 0))
      && (page.pagination.Some? <==> pagination.Some? && pagination.value.totalPages > 1)
      && (page.pagination.Some? ==> page.pagination.value == PaginationLinks(pathname, pagination.value))
  {
  }

  /**
   * On a route without `/tags/`, such as the blog route, no tag is active
   * and every tag links to the marker followed by its raw name.
   */
  lemma UnfilteredRouteLinksUseRawNames(
    pathname: string, title: string,
    keys: seq<string>, counts: map<string, int>, slugOf: string -> string,
    posts: seq<Post>, initialDisplayPosts: seq<Post>,
    pagination: Option<PaginationProps>)
    requires IsKeyOrder(keys, counts)
    requires !Contains(pathname, TagsMarker)
    ensures var links := Render(pathname, title, keys, counts, slugOf, posts, initialDisplayPosts, pagination).tagLinks;
      forall i :: 0 <= i < |links| ==> !links[i].removable && links[i].href == TagsMarker + links[i].name
  {
    NoSegmentWithoutMarker(pathname);
  }
}
