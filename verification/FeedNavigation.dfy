/** A reader in the OPDS catalog (`serveOPDS`, internal/server/opds.go), who follows the links of the feeds that are
    served: which views are reached from the start, and what the pages of a view list. */
module FeedNavigation {
  import opened Text
  import opened Opds
  import opened OpdsFeeds
  import Sorting

  /** The request of a navigation link: the first page of its view, without a search. */
  function FirstPage(view: View): Query {
    Query(view, "", 1)
  }

  function AnyBook(): Book -> bool {
    (b: Book) => true
  }

  /** Some feed that may be served for a view has this link. */
  ghost predicate HasLink(visible: seq<Book>, from: View, link: Link) {
    exists feed :: IsFeed(feed, visible, FirstPage(from), AnyBook()) && link in feed.navigation
  }

  // ---- every feed of a view has the same links ----

  lemma {:induction false} NamesListed(names: set<string>) returns (listed: seq<string>)
    ensures Names(listed, names)
  {
    listed := [];
    if names != {} {
      var name :| name in names;
      var rest := NamesListed(names - {name});
      listed := rest + [name];
      forall i | 0 <= i < |rest| ensures rest[i] != name {
        assert rest[i] in rest;
      }
      forall x ensures x in names <==> x in listed {
        assert x in names - {name} <==> x in rest;
      }
    }
  }

  /** A view has a navigation with each of its names. */
  lemma NavigationExists(visible: seq<Book>, view: View) returns (links: seq<Link>)
    requires view != Root
    ensures IsNavigation(links, visible, view)
    ensures forall name :: name in LinkNames(visible, view) ==> LinkTo(view, name) in links
  {
    var listed := NamesListed(LinkNames(visible, view));
    var sorted := Sorting.Sort(listed, NameOrder());
    SortNames(listed, LinkNames(visible, view));
    links := seq(|sorted|, i requires 0 <= i < |sorted| => LinkTo(view, sorted[i]));
    forall i | 0 <= i < |links| ensures links[i].title in LinkNames(visible, view) {
      assert sorted[i] in sorted;
    }
    forall name | name in LinkNames(visible, view)
      ensures LinkTo(view, name) in links && exists i :: 0 <= i < |links| && links[i].title == name
    {
      var i :| 0 <= i < |sorted| && sorted[i] == name;
      assert links[i] == LinkTo(view, name) && links[i].title == name;
    }
  }

  function FeedOf(visible: seq<Book>, view: View, links: seq<Link>): Feed {
    var q := FirstPage(view);
    var entries := Entries(visible, q, AnyBook());
    Feed(links, |entries|, PageOf(entries, 1, PAGE_SIZE), false, HasNext(entries, 1, PAGE_SIZE))
  }

  lemma LinksAre(visible: seq<Book>, view: View, link: Link)
    requires view != Root
    ensures HasLink(visible, view, link) <==>
              link.title in LinkNames(visible, view) && link == LinkTo(view, link.title)
  {
    if HasLink(visible, view, link) {
      var feed :| IsFeed(feed, visible, FirstPage(view), AnyBook()) && link in feed.navigation;
      var i :| 0 <= i < |feed.navigation| && feed.navigation[i] == link;
    }
    if link.title in LinkNames(visible, view) && link == LinkTo(view, link.title) {
      var links := NavigationExists(visible, view);
      assert IsFeed(FeedOf(visible, view, links), visible, FirstPage(view), AnyBook());
      assert link in FeedOf(visible, view, links).navigation;
    }
  }

  /** The links of the root lead to the views that they name. */
  lemma RootLinks(visible: seq<Book>, link: Link)
    ensures HasLink(visible, Root, link) <==>
              link in {Link("All books", All), Link("Recently added", Recent), Link("Folders", InFolder("")),
                       Link("Series", OfSeries(""))}
  {
    assert IsFeed(FeedOf(visible, Root, ROOT_LINKS), visible, FirstPage(Root), AnyBook());
  }

  /** The link for a folder leads to the path of that name below the view's own; there is one for every part that
      comes next in a membership. */
  lemma FolderLinks(visible: seq<Book>, folder: string, link: Link)
    ensures HasLink(visible, InFolder(folder), link) <==>
              && link.title in Children(visible, folder)
              && link.view == InFolder(if folder == "" then link.title else folder + "/" + link.title)
  {
    LinksAre(visible, InFolder(folder), link);
  }

  /** The link named for a series leads to the books of that series; there is one for every series of a visible book. */
  lemma SeriesLinks(visible: seq<Book>, series: string, link: Link)
    ensures HasLink(visible, OfSeries(series), link) <==>
              && series == "" && link.title != "" && link.view == OfSeries(link.title)
              && exists b :: b in visible && b.meta.series == link.title
  {
    LinksAre(visible, OfSeries(series), link);
  }

  lemma OtherLinks(visible: seq<Book>, view: View, link: Link)
    requires view == All || view == Recent
    ensures !HasLink(visible, view, link)
  {
  }

  // ---- following links ----

  /** The views that `n` links lead to from the root. */
  ghost predicate Visits(hasLink: (View, Link) -> bool, view: View, n: nat)
    decreases n
  {
    if n == 0 then view == Root
    else exists from, title :: Visits(hasLink, from, n - 1) && hasLink(from, Link(title, view))
  }

  /** The links of the feeds as they are served. */
  ghost function ServedLinks(visible: seq<Book>): (View, Link) -> bool {
    (from, link) => HasLink(visible, from, link)
  }

  ghost predicate Visited(visible: seq<Book>, view: View, n: nat) {
    Visits(ServedLinks(visible), view, n)
  }

  ghost predicate SeriesListed(visible: seq<Book>, series: string) {
    series != "" && exists b :: b in visible && b.meta.series == series
  }

  /** Where a reader can be after `n` links: at the root, at one of its four views, at a series of a visible book, or at
      a folder of `n - 2` parts on the way to a visible membership. */
  ghost predicate Reachable(visible: seq<Book>, view: View, n: nat) {
    match view
    case Root => n == 0
    case All => n == 1
    case Recent => n == 1
    case OfSeries(series) => (series == "" && n == 1) || (SeriesListed(visible, series) && n == 2)
    case InFolder(path) => (path == "" && n == 1) ||
        (n >= 2 && path != "" && |Split(path, '/')| == n - 1 && OnSomeWay(visible, path))
    case Unknown => false
  }

  lemma StepReachable(visible: seq<Book>, from: View, title: string, to: View, n: nat)
    requires Reachable(visible, from, n) && HasLink(visible, from, Link(title, to))
    ensures Reachable(visible, to, n + 1)
  {
    match from {
      case Root => RootLinks(visible, Link(title, to));
      case InFolder(path) =>
        FolderLinks(visible, path, Link(title, to));
        FolderStep(visible, path, title, n);
      case OfSeries(series) => SeriesLinks(visible, series, Link(title, to));
      case All => OtherLinks(visible, from, Link(title, to));
      case Recent => OtherLinks(visible, from, Link(title, to));
    }
  }

  lemma FolderStep(visible: seq<Book>, path: string, title: string, n: nat)
    requires Reachable(visible, InFolder(path), n) && title in Children(visible, path)
    ensures Reachable(visible, InFolder(Below(path, title)), n + 1)
  {
    if path != "" {
      var b, f :| b in visible && f in FoldersOf(b) && OnTheWay(path, f);
    }
    ChildLeadsOn(visible, path, title);
  }

  /** What holds at the root, and goes over from each view to those that it links to, holds wherever a reader gets. */
  lemma {:induction false} VisitsKeep(hasLink: (View, Link) -> bool, view: View, n: nat, keeps: (View, nat) -> bool)
    requires keeps(Root, 0) && Visits(hasLink, view, n)
    requires forall from, k: nat, title, to :: keeps(from, k) && hasLink(from, Link(title, to)) ==> keeps(to, k + 1)
    ensures keeps(view, n)
    decreases n
  {
    if n > 0 {
      var from, title :| Visits(hasLink, from, n - 1) && hasLink(from, Link(title, view));
      VisitsKeep(hasLink, from, n - 1, keeps);
      assert keeps(view, n - 1 + 1);
    }
  }

  lemma VisitedIsReachable(visible: seq<Book>, view: View, n: nat)
    requires Visited(visible, view, n)
    ensures Reachable(visible, view, n)
  {
    var keeps := (v: View, k: nat) => Reachable(visible, v, k);
    forall from: View, k: nat, title, to | keeps(from, k) && ServedLinks(visible)(from, Link(title, to))
      ensures keeps(to, k + 1)
    {
      StepReachable(visible, from, title, to, k);
    }
    VisitsKeep(ServedLinks(visible), view, n, keeps);
  }

  lemma ClickAny(hasLink: (View, Link) -> bool, from: View, link: Link, n: nat)
    requires Visits(hasLink, from, n) && hasLink(from, link)
    ensures Visits(hasLink, link.view, n + 1)
  {
    assert Link(link.title, link.view) == link;
  }

  lemma Click(visible: seq<Book>, from: View, link: Link, n: nat)
    requires Visited(visible, from, n) && HasLink(visible, from, link)
    ensures Visited(visible, link.view, n + 1)
  {
    ClickAny(ServedLinks(visible), from, link, n);
  }

  lemma RootClicks(visible: seq<Book>)
    ensures Visited(visible, All, 1) && Visited(visible, Recent, 1)
    ensures Visited(visible, InFolder(""), 1) && Visited(visible, OfSeries(""), 1)
  {
    RootLinks(visible, Link("All books", All));
    Click(visible, Root, Link("All books", All), 0);
    RootLinks(visible, Link("Recently added", Recent));
    Click(visible, Root, Link("Recently added", Recent), 0);
    RootLinks(visible, Link("Folders", InFolder("")));
    Click(visible, Root, Link("Folders", InFolder("")), 0);
    RootLinks(visible, Link("Series", OfSeries("")));
    Click(visible, Root, Link("Series", OfSeries("")), 0);
  }

  lemma {:induction false} FolderIsVisited(visible: seq<Book>, path: string, parts: nat)
    requires parts > 0 && |Split(path, '/')| == parts && OnSomeWay(visible, path)
    ensures Visited(visible, InFolder(path), parts + 1)
    decreases parts
  {
    var parent, name := ParentPath(path), LastPart(path);
    LastStep(visible, path, parts);
    if parts == 1 {
      RootClicks(visible);
    } else {
      FolderIsVisited(visible, parent, parts - 1);
    }
    FolderLinks(visible, parent, Link(name, InFolder(path)));
    Click(visible, InFolder(parent), Link(name, InFolder(path)), parts);
  }

  lemma SeriesIsVisited(visible: seq<Book>, series: string, n: nat)
    requires SeriesListed(visible, series) && Visited(visible, OfSeries(""), n)
    ensures Visited(visible, OfSeries(series), n + 1)
  {
    SeriesLinks(visible, "", Link(series, OfSeries(series)));
    Click(visible, OfSeries(""), Link(series, OfSeries(series)), n);
  }

  lemma ReachableIsVisited(visible: seq<Book>, view: View, n: nat)
    requires Reachable(visible, view, n)
    ensures Visited(visible, view, n)
  {
    if view.InFolder? && view.folder != "" {
      FolderIsVisited(visible, view.folder, n - 1);
    } else if view.OfSeries? && view.series != "" {
      RootClicks(visible);
      SeriesIsVisited(visible, view.series, n - 1);
    } else if view != Root {
      RootClicks(visible);
    }
  }

  /** Following the links of the feeds as they are served, a reader gets to exactly these views. */
  lemma VisitedIff(visible: seq<Book>, view: View, n: nat)
    ensures Visited(visible, view, n) <==> Reachable(visible, view, n)
  {
    if Visited(visible, view, n) {
      VisitedIsReachable(visible, view, n);
    }
    if Reachable(visible, view, n) {
      ReachableIsVisited(visible, view, n);
    }
  }

  // ---- what the pages of a view list ----

  function AllItems(feeds: seq<Feed>): seq<Book> {
    if feeds == [] then [] else AllItems(feeds[..|feeds| - 1]) + feeds[|feeds| - 1].items
  }

  /** The feeds of a view from its first page on, each but the last with a link to the next one. */
  ghost predicate PagesOf(feeds: seq<Feed>, visible: seq<Book>, view: View) {
    && feeds != [] && !feeds[|feeds| - 1].next
    && forall i :: 0 <= i < |feeds| ==>
         IsFeed(feeds[i], visible, Query(view, "", i + 1), AnyBook()) && (i < |feeds| - 1 ==> feeds[i].next)
  }

  /** The feed is this page of the books. */
  predicate IsPage(feed: Feed, books: seq<Book>, page: nat, size: nat) {
    page >= 1 && feed.items == PageOf(books, page, size) && feed.next == HasNext(books, page, size)
  }

  lemma PageIs(books: seq<Book>, n: nat, size: nat, from: nat, to: nat)
    requires n > 0 && size > 0 && from == Min((n - 1) * size, |books|) && to == Min(n * size, |books|)
    ensures from <= to && PageOf(books, n, size) == books[from..to] && (HasNext(books, n, size) <==> to < |books|)
  {
    var start := (n - 1) * size;
    assert n * size == start + size;
  }

  lemma {:induction false} PagesUpTo(feeds: seq<Feed>, books: seq<Book>, size: nat, n: nat, to: nat)
    requires n <= |feeds| && size > 0 && to == Min(n * size, |books|)
    requires forall i :: 0 <= i < |feeds| ==> IsPage(feeds[i], books, i + 1, size)
    ensures AllItems(feeds[..n]) == books[..to]
  {
    if n > 0 {
      var last: nat := n - 1;
      var from: nat := Min(last * size, |books|);
      PagesUpTo(feeds, books, size, last, from);
      assert IsPage(feeds[last], books, last + 1, size);
      PageIs(books, n, size, from, to);
      AllItemsSnoc(feeds, last);
      assert books[..to] == books[..from] + books[from..to];
    }
  }

  lemma AllItemsSnoc(feeds: seq<Feed>, last: nat)
    requires last < |feeds|
    ensures AllItems(feeds[..last + 1]) == AllItems(feeds[..last]) + feeds[last].items
  {
    assert feeds[..last + 1][..last] == feeds[..last];
  }

  lemma PagesAre(feeds: seq<Feed>, books: seq<Book>, size: nat)
    requires size > 0 && feeds != [] && !feeds[|feeds| - 1].next
    requires forall i :: 0 <= i < |feeds| ==> IsPage(feeds[i], books, i + 1, size)
    ensures AllItems(feeds) == books
  {
    var n := |feeds|;
    var from, to: nat := Min((n - 1) * size, |books|), Min(n * size, |books|);
    PagesUpTo(feeds, books, size, n, to);
    assert IsPage(feeds[n - 1], books, n - 1 + 1, size);
    PageIs(books, n, size, from, to);
    assert feeds[..n] == feeds;
  }

  /** Whether a visible book belongs to a view. */
  predicate Belongs(b: Book, view: View) {
    match view
    case InFolder(path) => path in FoldersOf(b)
    case OfSeries(series) => series != "" && b.meta.series == series
    case _ => view == All || view == Recent
  }

  /** Recent books stand newest first; among those of one time, and in every other view, books stand by title, and
      those of one title by identifier. */
  predicate InOrder(a: Book, b: Book, view: View) {
    && (view == Recent ==> a.added >= b.added)
    && (view != Recent || a.added == b.added ==>
          Less(a.meta.title, b.meta.title) || (a.meta.title == b.meta.title && Less(a.id, b.id)))
  }

  lemma PagesAreEntries(feeds: seq<Feed>, visible: seq<Book>, view: View, entries: seq<Book>)
    requires PagesOf(feeds, visible, view) && entries == Entries(visible, FirstPage(view), AnyBook())
    ensures AllItems(feeds) == entries
  {
    forall i | 0 <= i < |feeds|
      ensures IsPage(feeds[i], entries, i + 1, PAGE_SIZE)
    {
      assert IsFeed(feeds[i], visible, Query(view, "", i + 1), AnyBook());
    }
    PagesAre(feeds, entries, PAGE_SIZE);
  }

  lemma SortedInOrder(books: seq<Book>, view: View)
    requires Sorting.Sorted(books, Order(view == Recent))
    ensures forall i, j :: 0 <= i < j < |books| ==> InOrder(books[i], books[j], view)
  {
    forall i, j | 0 <= i < j < |books| ensures InOrder(books[i], books[j], view) {
      assert Order(view == Recent)(books[i], books[j]);
    }
  }

  /** The pages of a view list exactly its books, each once, in order; each says how many there are in all, and has a
      link to the page before it if there is one. */
  lemma PagesList(feeds: seq<Feed>, visible: seq<Book>, view: View)
    requires DistinctIds(visible) && PagesOf(feeds, visible, view)
    ensures forall b :: multiset(AllItems(feeds))[b] == if b in visible && Belongs(b, view) then 1 else 0
    ensures forall i, j :: 0 <= i < j < |AllItems(feeds)| ==> InOrder(AllItems(feeds)[i], AllItems(feeds)[j], view)
    ensures forall i :: 0 <= i < |feeds| ==> feeds[i].total == |AllItems(feeds)| && (feeds[i].previous <==> i > 0)
  {
    var entries := Entries(visible, FirstPage(view), AnyBook());
    PagesAreEntries(feeds, visible, view, entries);
    EntriesAre(visible, FirstPage(view), AnyBook(), (b: Book) => Belongs(b, view));
    SortedInOrder(entries, view);
    forall i | 0 <= i < |feeds| ensures feeds[i].total == |entries| && (feeds[i].previous <==> i > 0) {
      assert IsFeed(feeds[i], visible, Query(view, "", i + 1), AnyBook());
    }
  }
}
