/** The OPDS catalog (internal/server/opds.go): the visible books, folder navigation, the in-place filters,
    the sort order and paging. */
module Opds {
  import opened Text
  import F = Folders
  import A = Accounts

  datatype Metadata = Metadata(title: string, author: string, series: string, folder: string,
      folders: Option<seq<string>>)

  datatype Book = Book(id: string, owner: string, meta: Metadata, added: int, format: string)

  /** A reader's privacy settings: none, a text that does not decode, or the books with a mode. */
  datatype Privacy = Unset | Unreadable | Modes(books: map<string, string>)

  predicate Excludes(privacy: Privacy, id: string) {
    match privacy
    case Unset => false
    case Unreadable => true
    case Modes(books) => id in books && books[id] != ""
  }

  /** One row of the query: a file's book and owner, the candidates of the reader's and of the owner's record of the
      book, as far as there is one, and the privacy settings of both. */
  datatype Row = Row(
    id: string, owner: string, mine: Option<seq<A.Candidate>>, owners: Option<seq<A.Candidate>>,
    privacy: Privacy, ownerPrivacy: Privacy)

  /** `json.Unmarshal` of a candidate's value into the metadata of a book. */
  type Decoder = A.Stored -> Option<Metadata>

  const NO_METADATA := Metadata("", "", "", "", None)

  /** The book of a row, unless a setting hides it or the record that counts is in conflict, deleted or unreadable;
      without any record there is only the file. */
  function BookOf(row: Row, decode: Decoder): Option<Book> {
    if Excludes(row.privacy, row.id) || Excludes(row.ownerPrivacy, row.id) then None
    else
      match (if row.mine.Some? then row.mine else row.owners)
      case None => Some(Book(row.id, row.owner, NO_METADATA, 0, ""))
      case Some(candidates) =>
        if !A.Settled(candidates) || decode(candidates[0].value).None? then None
        else Some(Book(row.id, row.owner, decode(candidates[0].value).value, candidates[0].createdAt, ""))
  }

  /** What the directory has for a book: its metadata, arrival time and format. */
  datatype Stored = Stored(meta: Metadata, modified: int, format: string)

  type Directory = Book -> Option<Stored>

  // ---- the visible books ----

  function Ids(books: seq<Book>): set<string> {
    set b | b in books :: b.id
  }

  predicate DistinctIds(books: seq<Book>) {
    forall i, j :: 0 <= i < j < |books| ==> books[i].id != books[j].id
  }

  /** The first row of each book that may be shown. */
  function Listed(rows: seq<Row>, decode: Decoder): seq<Book> {
    if rows == [] then []
    else
      var before, row := Listed(rows[..|rows| - 1], decode), rows[|rows| - 1];
      if row.id in Ids(before) || BookOf(row, decode).None? then before else before + [BookOf(row, decode).value]
  }

  function Finished(b: Book, stored: Stored): Book {
    var meta := if b.added == 0 then stored.meta else b.meta;
    b.(meta := if meta.title == "" then meta.(title := "Untitled") else meta, added := stored.modified,
       format := stored.format)
  }

  function Available(books: seq<Book>, directory: Directory): seq<Book> {
    if books == [] then []
    else
      var before, b := Available(books[..|books| - 1], directory), books[|books| - 1];
      if directory(b).Some? then before + [Finished(b, directory(b).value)] else before
  }

  lemma {:induction false} ListedDistinct(rows: seq<Row>, decode: Decoder)
    ensures DistinctIds(Listed(rows, decode))
    ensures forall id :: id in Ids(Listed(rows, decode)) <==>
              exists r :: r in rows && r.id == id && BookOf(r, decode).Some?
  {
    if rows != [] {
      var front, row := rows[..|rows| - 1], rows[|rows| - 1];
      ListedDistinct(front, decode);
      var before := Listed(front, decode);
      assert rows == front + [row];
      if BookOf(row, decode).Some? {
        var b := BookOf(row, decode).value;
        assert Ids(before + [b]) == Ids(before) + {row.id};
        forall i | 0 <= i < |before| ensures before[i].id in Ids(before) {
        }
      }
    }
  }

  /** A book comes from the first row that may show it, which is the reader's own file when there is one. */
  lemma {:induction false} ListedFirst(rows: seq<Row>, decode: Decoder, i: nat)
    requires i < |rows| && BookOf(rows[i], decode).Some?
    requires forall j :: 0 <= j < i ==> rows[j].id != rows[i].id || BookOf(rows[j], decode).None?
    ensures BookOf(rows[i], decode).value in Listed(rows, decode)
  {
    var front := rows[..|rows| - 1];
    if i < |rows| - 1 {
      ListedFirst(front, decode, i);
    } else {
      ListedDistinct(front, decode);
    }
  }

  lemma {:induction false} AvailableDistinct(books: seq<Book>, directory: Directory)
    requires DistinctIds(books)
    ensures DistinctIds(Available(books, directory)) && Ids(Available(books, directory)) <= Ids(books)
  {
    if books != [] {
      var front, b := books[..|books| - 1], books[|books| - 1];
      AvailableDistinct(front, directory);
      var before := Available(front, directory);
      assert books == front + [b];
      assert Ids(books) == Ids(front) + {b.id};
      if directory(b).Some? {
        assert Ids(before + [Finished(b, directory(b).value)]) == Ids(before) + {b.id};
      }
      forall i | 0 <= i < |before| ensures before[i].id != b.id {
        assert before[i].id in Ids(before);
        var k :| 0 <= k < |front| && front[k].id == before[i].id;
        assert books[k].id != books[|books| - 1].id;
      }
    }
  }

  /** `available := out[:0]`: the filter writes over the array that it reads. */
  method KeepAvailable(a: array<Book>, directory: Directory) returns (n: nat)
    modifies a
    ensures n <= a.Length && a[..n] == Available(old(a[..]), directory)
  {
    n := 0;
    ghost var all := a[..];
    for i := 0 to a.Length
      invariant n <= i && a[..n] == Available(all[..i], directory)
      invariant a[i..] == all[i..]
    {
      var b := a[i];
      assert b == a[i..][0] == all[i];
      assert all[..i + 1][..i] == all[..i];
      assert forall k :: i + 1 <= k < a.Length ==> a[k] == a[i..][k - i];
      if directory(b).Some? {
        a[n] := Finished(b, directory(b).value);
        n := n + 1;
      }
      assert a[i + 1..] == all[i + 1..];
    }
    assert all[..|all|] == all;
  }

  /** `opdsBooks`. */
  method OpdsBooks(rows: seq<Row>, decode: Decoder, directory: Directory) returns (books: seq<Book>)
    ensures books == Available(Listed(rows, decode), directory)
  {
    var out: seq<Book> := [];
    var seen: set<string> := {};
    for i := 0 to |rows|
      invariant out == Listed(rows[..i], decode) && seen == Ids(out)
    {
      assert rows[..i + 1][..i] == rows[..i];
      var row := rows[i];
      if row.id in seen || Excludes(row.privacy, row.id) || Excludes(row.ownerPrivacy, row.id) {
        continue;
      }
      var b := Book(row.id, row.owner, NO_METADATA, 0, "");
      var raw := row.mine;
      if raw.None? {
        raw := row.owners;
      }
      if raw.Some? {
        if |raw.value| != 1 || raw.value[0].deleted {
          continue;
        }
        var meta := decode(raw.value[0].value);
        if meta.None? {
          continue;
        }
        b := b.(meta := meta.value, added := raw.value[0].createdAt);
      }
      assert Ids(out + [b]) == Ids(out) + {b.id};
      seen := seen + {row.id};
      out := out + [b];
    }
    assert rows[..|rows|] == rows;
    var a := new Book[|out|](i requires 0 <= i < |out| => out[i]);
    assert a[..] == out;
    var n := KeepAvailable(a, directory);
    books := a[..n];
  }

  // ---- folder navigation ----

  function FoldersOf(b: Book): seq<string> {
    F.MetadataFolders(b.meta.folder, b.meta.folders)
  }

  /** The name that a membership contributes below a path, if any. */
  function ChildOf(folder: string, prefix: string): Option<string> {
    if prefix == "" then Some(Split(folder, '/')[0])
    else if prefix + "/" <= folder then Some(Split(folder[|prefix| + 1..], '/')[0])
    else None
  }

  predicate Contributes(folder: string, prefix: string, name: string) {
    name != "" && ChildOf(folder, prefix) == Some(name)
  }

  function Children(books: seq<Book>, prefix: string): set<string> {
    set b, f | b in books && f in FoldersOf(b) && ChildOf(f, prefix).Some? && ChildOf(f, prefix) != Some("") ::
      ChildOf(f, prefix).value
  }

  function Below(prefix: string, name: string): string {
    if prefix == "" then name else prefix + "/" + name
  }

  function Inside(books: seq<Book>, prefix: string): seq<Book> {
    if books == [] then []
    else
      var before, b := Inside(books[..|books| - 1], prefix), books[|books| - 1];
      if prefix in FoldersOf(b) then before + [b] else before
  }

  /** The loop of the folder view, which finds the children and the books of a path together. */
  method FolderView(books: seq<Book>, prefix: string) returns (filtered: seq<Book>, children: set<string>)
    ensures filtered == Inside(books, prefix) && children == Children(books, prefix)
  {
    filtered, children := [], {};
    for i := 0 to |books|
      invariant filtered == Inside(books[..i], prefix) && children == Children(books[..i], prefix)
    {
      assert books[..i + 1][..i] == books[..i] && books[..i + 1] == books[..i] + [books[i]];
      var b := books[i];
      var folders := FoldersOf(b);
      var matches := false;
      ghost var before := children;
      for k := 0 to |folders|
        invariant matches <==> prefix in folders[..k]
        invariant children == before + ChildrenOf(folders[..k], prefix)
      {
        var folder := folders[k];
        assert folders[..k + 1] == folders[..k] + [folder];
        ChildrenOfSnoc(folders[..k], folder, prefix);
        if folder == prefix {
          matches := true;
        }
        if prefix != "" && !(prefix + "/" <= folder) {
          continue;
        }
        var rest := if prefix == "" then folder else folder[|prefix| + 1..];
        var child := Split(rest, '/')[0];
        if child != "" {
          children := children + {child};
        }
      }
      assert folders[..|folders|] == folders;
      ChildrenSnoc(books[..i], b, prefix);
      if matches {
        filtered := filtered + [b];
      }
    }
    assert books[..|books|] == books;
  }

  function ChildrenOf(folders: seq<string>, prefix: string): set<string> {
    set f | f in folders && ChildOf(f, prefix).Some? && ChildOf(f, prefix) != Some("") :: ChildOf(f, prefix).value
  }

  lemma ChildrenOfSnoc(folders: seq<string>, folder: string, prefix: string)
    ensures ChildrenOf(folders + [folder], prefix) == ChildrenOf(folders, prefix) +
              if ChildOf(folder, prefix).Some? && ChildOf(folder, prefix) != Some("")
              then {ChildOf(folder, prefix).value} else {}
  {
  }

  lemma ChildrenSnoc(books: seq<Book>, b: Book, prefix: string)
    ensures Children(books + [b], prefix) == Children(books, prefix) + ChildrenOf(FoldersOf(b), prefix)
  {
  }

  /** A book is listed at a path exactly when the path is one of its memberships. */
  lemma {:induction false} InsideIff(books: seq<Book>, prefix: string, b: Book)
    ensures b in Inside(books, prefix) <==> b in books && prefix in FoldersOf(b)
  {
    if books != [] {
      InsideIff(books[..|books| - 1], prefix, b);
      assert books == books[..|books| - 1] + [books[|books| - 1]];
    }
  }

  /** `path` names a folder on the way to `folder`: its parts are the first ones of it, and none is empty. */
  predicate OnTheWay(path: string, folder: string) {
    Split(path, '/') <= Split(folder, '/') && forall p :: p in Split(path, '/') ==> p != ""
  }

  /** The parts of a path of the navigation; the root has none. */
  function PartsOf(prefix: string): seq<string> {
    if prefix == "" then [] else Split(prefix, '/')
  }

  lemma PartsBelow(prefix: string, name: string)
    requires '/' !in name
    ensures Split(Below(prefix, name), '/') == PartsOf(prefix) + [name]
  {
    SplitOfPiece(name, '/');
    if prefix != "" {
      assert prefix + "/" + name == prefix + ['/'] + name;
      SplitConcat(prefix, name, '/');
    }
  }

  /** One step down, for any membership: the child that it gives a path is its next part after those of the path,
      unless that is empty. */
  lemma ChildIsNextPart(folder: string, prefix: string, name: string)
    ensures Contributes(folder, prefix, name) <==>
              name != "" && '/' !in name && PartsOf(prefix) + [name] <= Split(folder, '/')
  {
    SplitPieces(folder, '/');
    var parts := Split(folder, '/');
    if prefix == "" {
      assert parts[0] in parts;
      assert [] + [name] == [name];
    } else {
      ChildUnderPrefix(folder, prefix, name);
    }
  }

  lemma ChildUnderPrefix(folder: string, prefix: string, name: string)
    requires prefix != ""
    ensures Contributes(folder, prefix, name) <==>
              name != "" && '/' !in name && Split(prefix, '/') + [name] <= Split(folder, '/')
  {
    var parts, above := Split(folder, '/'), Split(prefix, '/');
    if prefix + "/" <= folder {
      var rest := folder[|prefix| + 1..];
      assert folder == prefix + ['/'] + rest;
      SplitConcat(prefix, rest, '/');
      SplitPieces(rest, '/');
      var next := Split(rest, '/')[0];
      assert next in Split(rest, '/') && parts[..|above|] == above && parts[|above|] == next;
      assert above + [name] <= parts <==> name == next;
    } else if '/' !in name && above + [name] <= parts {
      PartsBelow(prefix, name);
      WayIsTextPrefix(Below(prefix, name), folder);
    }
  }

  lemma WayIsTextPrefix(path: string, folder: string)
    requires Split(path, '/') <= Split(folder, '/')
    ensures path <= folder
  {
    JoinOfSplit(path, '/');
    JoinOfSplit(folder, '/');
    JoinPrefix(Split(path, '/'), Split(folder, '/'));
  }

  lemma {:induction false} JoinPrefix(a: seq<string>, b: seq<string>)
    requires 1 <= |a| && a <= b
    ensures Join(a, '/') <= Join(b, '/')
  {
    if |a| > 1 {
      JoinPrefix(a[1..], b[1..]);
    }
  }

  /** The paths that `n` navigation links lead to from the root of the folder view. */
  ghost predicate Reached(books: seq<Book>, path: string, n: nat)
    decreases n
  {
    if n == 0 then path == ""
    else
      exists parent, name ::
        Reached(books, parent, n - 1) && name in Children(books, parent) && path == Below(parent, name)
  }

  ghost predicate OnSomeWay(books: seq<Book>, path: string) {
    exists b, f :: b in books && f in FoldersOf(b) && OnTheWay(path, f)
  }

  /** One link down from a path: to a path longer by one part that leads to a membership. */
  lemma ChildLeadsOn(books: seq<Book>, parent: string, name: string)
    requires name in Children(books, parent) && forall p :: p in PartsOf(parent) ==> p != ""
    ensures OnSomeWay(books, Below(parent, name))
    ensures |Split(Below(parent, name), '/')| == |PartsOf(parent)| + 1
  {
    var b, f :| b in books && f in FoldersOf(b) && name != "" && ChildOf(f, parent) == Some(name);
    ChildIsNextPart(f, parent, name);
    PartsBelow(parent, name);
    assert OnTheWay(Below(parent, name), f);
  }

  lemma LastStep(books: seq<Book>, path: string, n: nat)
    requires OnSomeWay(books, path) && |Split(path, '/')| == n
    ensures LastPart(path) in Children(books, ParentPath(path)) && path == Below(ParentPath(path), LastPart(path))
    ensures n == 1 <==> ParentPath(path) == ""
    ensures n > 1 ==> OnSomeWay(books, ParentPath(path)) && |Split(ParentPath(path), '/')| == n - 1
  {
    var b, f :| b in books && f in FoldersOf(b) && OnTheWay(path, f);
    ParentOf(path, f, n);
    ChildIsNextPart(f, ParentPath(path), LastPart(path));
  }

  lemma {:induction false} ReachedLeadsOn(books: seq<Book>, path: string, n: nat)
    requires n > 0 && Reached(books, path, n)
    ensures |Split(path, '/')| == n && OnSomeWay(books, path) && path != ""
    decreases n
  {
    var parent, name :| Reached(books, parent, n - 1) && name in Children(books, parent) && path == Below(parent, name);
    if n > 1 {
      ReachedLeadsOn(books, parent, n - 1);
      var b, f :| b in books && f in FoldersOf(b) && OnTheWay(parent, f);
    }
    ChildLeadsOn(books, parent, name);
  }

  lemma {:induction false} LeadingOnIsReached(books: seq<Book>, path: string, n: nat)
    requires n > 0 && |Split(path, '/')| == n && OnSomeWay(books, path)
    ensures Reached(books, path, n)
    decreases n
  {
    var parent, name := ParentPath(path), LastPart(path);
    LastStep(books, path, n);
    if n == 1 {
      assert Reached(books, parent, 0);
      StepDown(books, parent, name, 1);
    } else {
      LeadingOnIsReached(books, parent, n - 1);
      StepDown(books, parent, name, n);
    }
  }

  lemma StepDown(books: seq<Book>, parent: string, name: string, n: nat)
    requires n > 0 && Reached(books, parent, n - 1) && name in Children(books, parent)
    ensures Reached(books, Below(parent, name), n)
  {
  }

  /** Every path that navigation reaches, and no other, has no empty part and the first parts of a visible membership,
      well formed or not; and its depth is the number of its parts. */
  lemma NavigationReachesPrefixes(books: seq<Book>, path: string, n: nat)
    requires n > 0
    ensures Reached(books, path, n) <==>
              |Split(path, '/')| == n && exists b, f :: b in books && f in FoldersOf(b) && OnTheWay(path, f)
  {
    if Reached(books, path, n) {
      ReachedLeadsOn(books, path, n);
    } else if |Split(path, '/')| == n && OnSomeWay(books, path) {
      LeadingOnIsReached(books, path, n);
    }
  }

  /** A path of several parts is its parent and its last part. */
  lemma ParentParts(path: string)
    requires |Split(path, '/')| > 1 && Split(path, '/')[0] != ""
    ensures Split(ParentPath(path), '/') + [LastPart(path)] == Split(path, '/')
    ensures ParentPath(path) != "" && path == ParentPath(path) + "/" + LastPart(path)
  {
    SplitPieces(path, '/');
    var parts := Split(path, '/');
    var front, last := parts[..|parts| - 1], parts[|parts| - 1];
    assert parts == front + [last];
    JoinOfSplit(path, '/');
    JoinSnoc(front, last);
    SplitOfJoin(front, '/');
    JoinNotEmpty(front);
  }

  lemma ParentOf(path: string, folder: string, n: nat)
    requires OnTheWay(path, folder) && |Split(path, '/')| == n
    ensures LastPart(path) != "" && '/' !in LastPart(path) && path == Below(ParentPath(path), LastPart(path))
    ensures n == 1 <==> ParentPath(path) == ""
    ensures PartsOf(ParentPath(path)) + [LastPart(path)] == Split(path, '/')
    ensures n > 1 ==> |Split(ParentPath(path), '/')| == n - 1 && OnTheWay(ParentPath(path), folder)
  {
    SplitPieces(path, '/');
    var parts := Split(path, '/');
    assert parts[n - 1] in parts && parts[0] in parts;
    if n > 1 {
      ParentParts(path);
      assert forall p :: p in Split(ParentPath(path), '/') ==> p in parts;
    } else {
      JoinOfSplit(path, '/');
      assert parts == [] + [parts[0]];
    }
  }

  lemma JoinNotEmpty(parts: seq<string>)
    requires |parts| >= 1 && parts[0] != ""
    ensures Join(parts, '/') != ""
  {
  }

  lemma {:induction false} JoinSnoc(parts: seq<string>, last: string)
    requires |parts| >= 1
    ensures Join(parts + [last], '/') == Join(parts, '/') + "/" + last
  {
    if |parts| > 1 {
      assert (parts + [last])[1..] == parts[1..] + [last];
      JoinSnoc(parts[1..], last);
    } else {
      assert (parts + [last])[1..] == [last];
    }
  }
}
