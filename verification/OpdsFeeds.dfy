/** A feed of the OPDS catalog (`serveOPDS`, internal/server/opds.go): the selected books, in order, a page
    at a time. */
module OpdsFeeds {
  import opened Text
  import opened Opds
  import Sorting

  const PAGE_SIZE: nat := 50
  const MAX_PAGE: nat := 1000000
  const MAX_SEARCH := 512

  // ---- order ----

  /** The comparison of the sort; IDs make it total. */
  predicate Before(a: Book, b: Book, recent: bool) {
    if recent && a.added != b.added then a.added > b.added
    else if a.meta.title == b.meta.title then Less(a.id, b.id)
    else Less(a.meta.title, b.meta.title)
  }

  function Order(recent: bool): (Book, Book) -> bool {
    (a, b) => Before(a, b, recent)
  }

  lemma BeforeAsymmetric(a: Book, b: Book, recent: bool)
    requires Before(a, b, recent)
    ensures !Before(b, a, recent)
  {
    if a.meta.title == b.meta.title {
      if Less(a.id, b.id) && Less(b.id, a.id) {
        LessTransitive(a.id, b.id, a.id);
        LessIrreflexive(a.id);
      }
    } else if Less(a.meta.title, b.meta.title) && Less(b.meta.title, a.meta.title) {
      LessTransitive(a.meta.title, b.meta.title, a.meta.title);
      LessIrreflexive(a.meta.title);
    }
  }

  lemma BeforeTransitive(a: Book, b: Book, c: Book, recent: bool)
    requires Before(a, b, recent) && Before(b, c, recent)
    ensures Before(a, c, recent)
  {
    if a.meta.title == b.meta.title == c.meta.title {
      if Less(a.id, b.id) && Less(b.id, c.id) {
        LessTransitive(a.id, b.id, c.id);
      }
    } else if Less(a.meta.title, b.meta.title) && Less(b.meta.title, c.meta.title) {
      LessTransitive(a.meta.title, b.meta.title, c.meta.title);
      LessIrreflexive(a.meta.title);
      if a.meta.title == c.meta.title {
        LessIrreflexive(a.meta.title);
      }
    }
  }

  lemma BeforeTotal(a: Book, b: Book, recent: bool)
    requires a.id != b.id
    ensures Before(a, b, recent) || Before(b, a, recent)
  {
    LessTotal(a.id, b.id);
    LessTotal(a.meta.title, b.meta.title);
  }

  lemma OrderIsOrder(recent: bool)
    ensures Sorting.Transitive(Order(recent)) && Sorting.Antisymmetric(Order(recent))
  {
    forall a: Book, b: Book, c: Book | Before(a, b, recent) && Before(b, c, recent) ensures Before(a, c, recent) {
      BeforeTransitive(a, b, c, recent);
    }
    forall a: Book, b: Book | Before(a, b, recent) ensures !Before(b, a, recent) {
      BeforeAsymmetric(a, b, recent);
    }
  }

  function SortOf(books: seq<Book>, recent: bool): seq<Book> {
    Sorting.Sort(books, Order(recent))
  }

  /** With distinct IDs there is a sorted permutation. */
  lemma SortOfSorts(books: seq<Book>, recent: bool)
    requires DistinctIds(books)
    ensures Sorting.Sorted(SortOf(books, recent), Order(recent)) && multiset(SortOf(books, recent)) == multiset(books)
  {
    forall i, j | 0 <= i < j < |books|
        ensures Before(books[i], books[j], recent) || Before(books[j], books[i], recent) {
      BeforeTotal(books[i], books[j], recent);
    }
    OrderIsOrder(recent);
    Sorting.SortSorts(books, Order(recent));
    Sorting.SortKeeps(books, Order(recent));
  }

  /** And only one: whatever sorts the books, and whatever order they come in. */
  lemma SortUnique(a: seq<Book>, b: seq<Book>, recent: bool)
    requires multiset(a) == multiset(b) && Sorting.Sorted(a, Order(recent)) && Sorting.Sorted(b, Order(recent))
    ensures a == b
  {
    OrderIsOrder(recent);
    Sorting.SortUnique(a, b, Order(recent));
  }

  // ---- selection ----

  datatype View = Root | All | Recent | InFolder(folder: string) | OfSeries(series: string) | Unknown

  datatype Query = Query(view: View, search: string, page: int)

  function Filter(books: seq<Book>, keep: Book -> bool): seq<Book> {
    if books == [] then []
    else
      var before, b := Filter(books[..|books| - 1], keep), books[|books| - 1];
      if keep(b) then before + [b] else before
  }

  /** `filtered := books[:0]`: the filter writes over the array that it reads, and keeps what a copying one
      would. */
  method FilterInPlace(a: array<Book>, keep: Book -> bool) returns (n: nat)
    modifies a
    ensures n <= a.Length && a[..n] == Filter(old(a[..]), keep)
  {
    n := 0;
    ghost var all := a[..];
    for i := 0 to a.Length
      invariant n <= i && a[..n] == Filter(all[..i], keep)
      invariant a[i..] == all[i..]
    {
      var b := a[i];
      assert b == a[i..][0] == all[i];
      assert all[..i + 1][..i] == all[..i];
      assert forall k :: i + 1 <= k < a.Length ==> a[k] == a[i..][k - i];
      if keep(b) {
        a[n] := b;
        n := n + 1;
      }
      assert a[i + 1..] == all[i + 1..];
    }
    assert all[..|all|] == all;
  }

  function Selected(visible: seq<Book>, view: View): seq<Book> {
    match view
    case Root => []
    case All => visible
    case Recent => visible
    case InFolder(folder) => Inside(visible, folder)
    case OfSeries(series) => Filter(visible, OfSeriesOnly(series))
    case Unknown => []
  }

  lemma {:induction false} FilterDistinct(books: seq<Book>, keep: Book -> bool)
    requires DistinctIds(books)
    ensures DistinctIds(Filter(books, keep)) && forall b :: b in Filter(books, keep) <==> b in books && keep(b)
  {
    if books != [] {
      var front, b := books[..|books| - 1], books[|books| - 1];
      FilterDistinct(front, keep);
      assert books == front + [b];
      forall x | x in Filter(front, keep) ensures x.id != b.id {
        var k :| 0 <= k < |front| && front[k] == x;
        assert books[k].id != books[|books| - 1].id;
      }
    }
  }

  lemma {:induction false} InsideIsFilter(books: seq<Book>, folder: string)
    ensures Inside(books, folder) == Filter(books, (b: Book) => folder in FoldersOf(b))
  {
    if books != [] {
      InsideIsFilter(books[..|books| - 1], folder);
    }
  }

  /** The whole list of a feed: the books of the view that match the search, sorted. */
  function Entries(visible: seq<Book>, q: Query, matches: Book -> bool): seq<Book> {
    var selected := Selected(visible, q.view);
    SortOf(if q.search == "" then selected else Filter(selected, matches), q.view == Recent)
  }

  predicate QueryOk(q: Query) {
    q.view != Unknown && ByteLen(q.search) <= MAX_SEARCH && 1 <= q.page <= MAX_PAGE
  }

  // ---- pages ----

  function PageStart(total: nat, page: nat, size: nat): (start: nat)
    requires page >= 1
    ensures start <= total
  {
    Min((page - 1) * size, total)
  }

  function PageOf(books: seq<Book>, page: nat, size: nat): seq<Book>
    requires page >= 1
  {
    var start := PageStart(|books|, page, size);
    books[start..Min(start + size, |books|)]
  }

  predicate HasNext(books: seq<Book>, page: nat, size: nat)
    requires page >= 1
  {
    Min(PageStart(|books|, page, size) + size, |books|) < |books|
  }

  /** What a reader collects that starts at a page and follows `next`; nothing when a page is refused. */
  function Follow(books: seq<Book>, page: nat, size: nat, last: nat): Option<seq<Book>>
    requires page >= 1
    decreases last + 1 - page
  {
    if page > last then None
    else if !HasNext(books, page, size) then Some(PageOf(books, page, size))
    else
      match Follow(books, page + 1, size, last)
      case None => None
      case Some(rest) => Some(PageOf(books, page, size) + rest)
  }

  lemma {:induction false} FollowFrom(books: seq<Book>, page: nat, size: nat, last: nat)
    requires size >= 1 && 1 <= page <= last + 1 && (page == 1 || (page - 1) * size < |books|)
    ensures Follow(books, page, size, last) ==
              if page <= last && |books| <= last * size then Some(books[(page - 1) * size..]) else None
    decreases last + 1 - page
  {
    var start := (page - 1) * size;
    assert page * size == start + size;
    if page > last {
      assert start == last * size;
    } else if HasNext(books, page, size) {
      FollowFrom(books, page + 1, size, last);
      assert books[start..] == books[start..start + size] + books[start + size..];
      if page == last {
        assert last * size == start + size;
      }
    } else {
      Monotone(page, last, size);
      assert PageStart(|books|, page, size) == start && start + size >= |books|;
      assert books[start..|books|] == books[start..];
    }
  }

  lemma Monotone(a: nat, b: nat, size: nat)
    requires a <= b
    ensures a * size <= b * size
  {
  }

  /** Following `next` from the first page gives the whole list, each book once, exactly up to
      50 million books; the page after the millionth is refused. */
  lemma FollowGivesAll(books: seq<Book>)
    ensures Follow(books, 1, PAGE_SIZE, MAX_PAGE) == if |books| <= 50000000 then Some(books) else None
  {
    FollowFrom(books, 1, PAGE_SIZE, MAX_PAGE);
  }

  // ---- the request ----

  /** A navigation link: its title and the view it leads to. */
  datatype Link = Link(title: string, view: View)

  datatype Feed = Feed(navigation: seq<Link>, total: nat, items: seq<Book>, previous: bool, next: bool)

  const ROOT_LINKS := [Link("All books", All), Link("Recently added", Recent), Link("Folders", InFolder("")),
      Link("Series", OfSeries(""))]

  function SeriesOf(visible: seq<Book>): set<string> {
    set b | b in visible && b.meta.series != "" :: b.meta.series
  }

  /** The names that a view links to, and where each of them leads. */
  function LinkNames(visible: seq<Book>, view: View): set<string> {
    match view
    case InFolder(folder) => Children(visible, folder)
    case OfSeries(series) => if series == "" then SeriesOf(visible) else {}
    case _ => {}
  }

  function LinkTo(view: View, name: string): Link {
    Link(name, if view.InFolder? then InFolder(Below(view.folder, name)) else OfSeries(name))
  }

  /** The links of a view: the fixed ones of the root, or one for each name, in order. */
  ghost predicate IsNavigation(links: seq<Link>, visible: seq<Book>, view: View) {
    if view == Root then links == ROOT_LINKS
    else
      && (forall i :: 0 <= i < |links| ==>
            links[i].title in LinkNames(visible, view) && links[i] == LinkTo(view, links[i].title))
      && (forall i, j :: 0 <= i < j < |links| ==> Less(links[i].title, links[j].title))
      && (forall name :: name in LinkNames(visible, view) ==> exists i :: 0 <= i < |links| && links[i].title == name)
  }

  function NameOrder(): (string, string) -> bool {
    (a, b) => Less(a, b)
  }

  lemma NamesAreOrdered()
    ensures Sorting.Transitive(NameOrder())
  {
    forall a: string, b: string, c: string | Less(a, b) && Less(b, c) ensures Less(a, c) {
      LessTransitive(a, b, c);
    }
  }

  method Pick(names: set<string>) returns (name: string)
    requires names != {}
    ensures name in names
  {
    name :| name in names;
  }

  /** The names of a set, in any order. */
  method NamesOf(names: set<string>) returns (listed: seq<string>)
    ensures forall name :: name in names <==> name in listed
    ensures forall i, j :: 0 <= i < j < |listed| ==> listed[i] != listed[j]
  {
    listed := [];
    var todo := names;
    while todo != {}
      invariant todo <= names
      invariant forall name :: name in listed <==> name in names - todo
      invariant forall i, j :: 0 <= i < j < |listed| ==> listed[i] != listed[j]
      decreases todo
    {
      var name := Pick(todo);
      forall i | 0 <= i < |listed| ensures listed[i] != name {
        assert listed[i] in listed;
      }
      listed := listed + [name];
      todo := todo - {name};
    }
  }

  /** The names are those of a set, once each. */
  predicate Names(listed: seq<string>, names: set<string>) {
    && names == (set name | name in listed)
    && forall i, j :: 0 <= i < j < |listed| ==> listed[i] != listed[j]
  }

  predicate Ascending(names: seq<string>) {
    forall i, j :: 0 <= i < j < |names| ==> Less(names[i], names[j])
  }

  lemma SortNames(listed: seq<string>, names: set<string>)
    requires Names(listed, names)
    ensures var sorted := Sorting.Sort(listed, NameOrder());
            && (forall name :: name in names <==> name in sorted) && Ascending(sorted)
  {
    forall i, j | 0 <= i < j < |listed| ensures Less(listed[i], listed[j]) || Less(listed[j], listed[i]) {
      LessTotal(listed[i], listed[j]);
    }
    NamesAreOrdered();
    var sorted := Sorting.Sort(listed, NameOrder());
    Sorting.SortSorts(listed, NameOrder());
    Sorting.SortKeeps(listed, NameOrder());
    forall name ensures name in sorted <==> name in listed {
      assert name in sorted <==> name in multiset(sorted);
      assert name in listed <==> name in multiset(listed);
    }
    forall i, j | 0 <= i < j < |sorted| ensures Less(sorted[i], sorted[j]) {
      assert NameOrder()(sorted[i], sorted[j]);
    }
  }

  /** The names of a set, sorted. */
  method SortedNames(names: set<string>) returns (sorted: seq<string>)
    ensures forall name :: name in names <==> name in sorted
    ensures Ascending(sorted)
  {
    var listed := NamesOf(names);
    SortNames(listed, names);
    sorted := Sorting.Sort(listed, NameOrder());
  }

  method LinksTo(view: View, names: set<string>) returns (links: seq<Link>)
    ensures forall i :: 0 <= i < |links| ==> links[i].title in names && links[i] == LinkTo(view, links[i].title)
    ensures forall i, j :: 0 <= i < j < |links| ==> Less(links[i].title, links[j].title)
    ensures forall name :: name in names ==> exists i :: 0 <= i < |links| && links[i].title == name
  {
    var sorted := SortedNames(names);
    links := [];
    for i := 0 to |sorted|
      invariant |links| == i && forall k :: 0 <= k < i ==> links[k] == LinkTo(view, sorted[k])
    {
      links := links + [LinkTo(view, sorted[i])];
    }
    forall name | name in names ensures exists i :: 0 <= i < |links| && links[i].title == name {
      var i :| 0 <= i < |sorted| && sorted[i] == name;
      assert links[i].title == name;
    }
    forall i | 0 <= i < |links| ensures links[i].title in names {
      assert sorted[i] in sorted;
    }
  }

  lemma SelectedDistinct(visible: seq<Book>, view: View)
    requires DistinctIds(visible)
    ensures DistinctIds(Selected(visible, view))
  {
    match view {
      case InFolder(folder) =>
        InsideIsFilter(visible, folder);
        FilterDistinct(visible, (b: Book) => folder in FoldersOf(b));
      case OfSeries(series) => FilterDistinct(visible, OfSeriesOnly(series));
      case Root =>
      case All =>
      case Recent =>
      case Unknown =>
    }
  }

  /** The same books in another order give the same feed. */
  lemma EntriesOrderFree(a: seq<Book>, b: seq<Book>, q: Query, matches: Book -> bool)
    requires DistinctIds(a) && DistinctIds(b) && forall x :: x in a <==> x in b
    ensures Entries(a, q, matches) == Entries(b, q, matches)
  {
    var recent := q.view == Recent;
    var keep := (x: Book) => InView(x, q.view) && (q.search == "" || matches(x));
    EntriesAre(a, q, matches, keep);
    EntriesAre(b, q, matches, keep);
    SortUnique(Entries(a, q, matches), Entries(b, q, matches), recent);
  }

  predicate InView(b: Book, view: View) {
    match view
    case Root => false
    case All => true
    case Recent => true
    case InFolder(folder) => folder in FoldersOf(b)
    case OfSeries(series) => series != "" && b.meta.series == series
    case Unknown => false
  }

  lemma SelectedIff(visible: seq<Book>, view: View, b: Book)
    requires DistinctIds(visible)
    ensures b in Selected(visible, view) <==> b in visible && InView(b, view)
  {
    match view {
      case InFolder(folder) => InsideIff(visible, folder, b);
      case OfSeries(series) => FilterDistinct(visible, OfSeriesOnly(series));
      case Root =>
      case All =>
      case Recent =>
      case Unknown =>
    }
  }

  /** The entries of a feed are the visible books of the view that match, each once, in order. */
  lemma EntriesAre(visible: seq<Book>, q: Query, matches: Book -> bool, keep: Book -> bool)
    requires DistinctIds(visible)
    requires forall b :: b in visible ==> (keep(b) <==> InView(b, q.view) && (q.search == "" || matches(b)))
    ensures var entries := Entries(visible, q, matches);
            && Sorting.Sorted(entries, Order(q.view == Recent))
            && forall b :: multiset(entries)[b] == if b in visible && keep(b) then 1 else 0
  {
    var selected := Selected(visible, q.view);
    var chosen := if q.search == "" then selected else Filter(selected, matches);
    SelectedDistinct(visible, q.view);
    FilterDistinct(selected, matches);
    SortOfSorts(chosen, q.view == Recent);
    forall b: Book ensures multiset(chosen)[b] == if b in visible && keep(b) then 1 else 0 {
      SelectedIff(visible, q.view, b);
      DistinctOnce(chosen, b);
    }
  }

  lemma {:induction false} DistinctOnce(books: seq<Book>, b: Book)
    requires DistinctIds(books)
    ensures multiset(books)[b] == if b in books then 1 else 0
  {
    if books != [] {
      var front, last := books[..|books| - 1], books[|books| - 1];
      assert books == front + [last];
      DistinctOnce(front, b);
    }
  }

  function OfSeriesOnly(series: string): Book -> bool {
    (b: Book) => series != "" && b.meta.series == series
  }

  lemma SeriesSnoc(visible: seq<Book>, b: Book)
    ensures SeriesOf(visible + [b]) == SeriesOf(visible) + if b.meta.series != "" then {b.meta.series} else {}
  {
  }

  /** The loop of the series view, which finds the series and the books of one together. */
  method SeriesView(visible: seq<Book>, series: string) returns (filtered: seq<Book>, names: set<string>)
    ensures filtered == Selected(visible, OfSeries(series)) && names == SeriesOf(visible)
  {
    filtered, names := [], {};
    for i := 0 to |visible|
      invariant filtered == Filter(visible[..i], OfSeriesOnly(series)) && names == SeriesOf(visible[..i])
    {
      assert visible[..i + 1][..i] == visible[..i] && visible[..i + 1] == visible[..i] + [visible[i]];
      SeriesSnoc(visible[..i], visible[i]);
      if series != "" && visible[i].meta.series == series {
        filtered := filtered + [visible[i]];
      }
      if visible[i].meta.series != "" {
        names := names + {visible[i].meta.series};
      }
    }
    assert visible[..|visible|] == visible;
  }

  /** The `switch` on the view. */
  method Select(visible: seq<Book>, view: View) returns (books: seq<Book>, links: seq<Link>)
    requires view != Unknown
    ensures books == Selected(visible, view) && IsNavigation(links, visible, view)
  {
    books, links := visible, [];
    match view {
      case Root => books, links := [], ROOT_LINKS;
      case All =>
      case Recent =>
      case InFolder(folder) =>
        var children;
        books, children := FolderView(visible, folder);
        links := LinksTo(view, children);
      case OfSeries(series) =>
        var names;
        books, names := SeriesView(visible, series);
        if series == "" {
          links := LinksTo(view, names);
        }
    }
  }

  /** What the request answers: the links of the view, and one page of its entries. */
  ghost predicate IsFeed(feed: Feed, visible: seq<Book>, q: Query, matches: Book -> bool)
    requires q.page >= 1
  {
    var entries := Entries(visible, q, matches);
    && IsNavigation(feed.navigation, visible, q.view)
    && feed.total == |entries| && feed.items == PageOf(entries, q.page, PAGE_SIZE)
    && feed.previous == (q.page > 1) && feed.next == HasNext(entries, q.page, PAGE_SIZE)
  }

  /** The books of the view that match the search, through the filter over their own array. */
  method Search(books: seq<Book>, search: string, matches: Book -> bool) returns (found: seq<Book>)
    ensures found == if search == "" then books else Filter(books, matches)
  {
    found := books;
    if search != "" {
      var a := new Book[|books|](i requires 0 <= i < |books| => books[i]);
      assert a[..] == books;
      var n := FilterInPlace(a, matches);
      found := a[..n];
    }
  }

  /** The request, with the library's sort as a function; `SortUnique` says that any other would do. */
  method ServeFeed(visible: seq<Book>, q: Query, matches: Book -> bool) returns (feed: Option<Feed>)
    ensures feed.Some? <==> QueryOk(q)
    ensures feed.Some? ==> IsFeed(feed.value, visible, q, matches)
  {
    if q.view == Unknown {
      return None;
    }
    var books, links := Select(visible, q.view);
    if ByteLen(q.search) > MAX_SEARCH {
      return None;
    }
    books := Search(books, q.search, matches);
    books := SortOf(books, q.view == Recent);
    if q.page < 1 || q.page > MAX_PAGE {
      return None;
    }
    var start := Min((q.page - 1) * PAGE_SIZE, |books|);
    var end := Min(start + PAGE_SIZE, |books|);
    return Some(Feed(links, |books|, books[start..end], q.page > 1, end < |books|));
  }
}
