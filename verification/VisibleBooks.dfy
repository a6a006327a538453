/** Which books the OPDS catalog shows a reader, and as what (`opdsBooks`, internal/server/opds.go). */
module VisibleBooks {
  import opened Text
  import opened Opds
  import A = Accounts

  /** Nothing hides the book: the settings can be read, and give it no mode. */
  predicate NotPrivate(settings: Privacy, id: string) {
    match settings
    case Unset => true
    case Unreadable => false
    case Modes(modes) => id !in modes || modes[id] == ""
  }

  /** The record that counts is the reader's own, and the owner's when the reader has none. */
  predicate Counts(row: Row, candidates: seq<A.Candidate>) {
    row.mine == Some(candidates) || (row.mine.None? && row.owners == Some(candidates))
  }

  /** A record that says what the book is. */
  predicate Legible(candidates: seq<A.Candidate>, decode: Decoder) {
    |candidates| == 1 && !candidates[0].deleted && decode(candidates[0].value).Some?
  }

  /** What a row shows: a book that neither the reader nor the owner hides, as the record that counts has it, if
      there is one. */
  ghost predicate Shows(row: Row, decode: Decoder, b: Book) {
    && NotPrivate(row.privacy, row.id) && NotPrivate(row.ownerPrivacy, row.id)
    && b.id == row.id && b.owner == row.owner
    && (forall candidates: seq<A.Candidate> :: Counts(row, candidates) ==>
          && Legible(candidates, decode) && decode(candidates[0].value) == Some(b.meta)
          && b.added == candidates[0].createdAt)
    && (row.mine.None? && row.owners.None? ==> b.meta == NO_METADATA && b.added == 0)
    && b.format == ""
  }

  lemma ShowsIff(row: Row, decode: Decoder, b: Book)
    ensures BookOf(row, decode) == Some(b) <==> Shows(row, decode, b)
  {
    if row.mine.Some? {
      assert Counts(row, row.mine.value);
    } else if row.owners.Some? {
      assert Counts(row, row.owners.value);
    }
  }

  /** A book that the reader or the owner gives a mode is shown by no row of theirs. */
  lemma PrivateIsHidden(row: Row, decode: Decoder)
    requires || row.privacy.Unreadable? || row.ownerPrivacy.Unreadable?
             || (row.privacy.Modes? && row.id in row.privacy.books && row.privacy.books[row.id] != "")
             || (row.ownerPrivacy.Modes? && row.id in row.ownerPrivacy.books && row.ownerPrivacy.books[row.id] != "")
    ensures BookOf(row, decode).None?
  {
    if BookOf(row, decode).Some? {
      ShowsIff(row, decode, BookOf(row, decode).value);
    }
  }

  /** Row `i` is the first one that shows its book, and this is what it shows. */
  ghost predicate FirstShown(rows: seq<Row>, decode: Decoder, i: nat, b: Book) {
    && i < |rows| && Shows(rows[i], decode, b)
    && forall j :: 0 <= j < i && rows[j].id == b.id ==> !exists other :: Shows(rows[j], decode, other)
  }

  /** The book with what the directory knows: its arrival and format, a title in any case, and the metadata of its file
      when no record said when it was added. */
  predicate ShownAs(c: Book, found: Stored, b: Book) {
    && b.id == c.id && b.owner == c.owner && b.added == found.modified && b.format == found.format
    && var meta := if c.added == 0 then found.meta else c.meta;
       && b.meta == meta.(title := b.meta.title)
       && b.meta.title == if meta.title != "" then meta.title else "Untitled"
  }

  lemma {:induction false} ListedIff(rows: seq<Row>, decode: Decoder, b: Book)
    ensures b in Listed(rows, decode) <==> exists i :: FirstShown(rows, decode, i, b)
  {
    if rows != [] {
      var front, n := rows[..|rows| - 1], |rows| - 1;
      ListedIff(front, decode, b);
      ListedDistinct(front, decode);
      ShowsIff(rows[n], decode, b);
      if i :| FirstShown(front, decode, i, b) {
        assert FirstShown(rows, decode, i, b);
      }
      LastListed(rows, decode, b);
    }
  }

  lemma LastListed(rows: seq<Row>, decode: Decoder, b: Book)
    requires rows != []
    ensures var front, n := rows[..|rows| - 1], |rows| - 1;
            && (FirstShown(rows, decode, n, b) <==>
                  BookOf(rows[n], decode) == Some(b) && b.id !in Ids(Listed(front, decode)))
            && (forall i: nat :: i < n ==> (FirstShown(rows, decode, i, b) <==> FirstShown(front, decode, i, b)))
  {
    var front, n := rows[..|rows| - 1], |rows| - 1;
    ShowsIff(rows[n], decode, b);
    ListedDistinct(front, decode);
    if b.id in Ids(Listed(front, decode)) {
      var r :| r in front && r.id == b.id && BookOf(r, decode).Some?;
      var j :| 0 <= j < n && front[j] == r;
      ShowsIff(rows[j], decode, BookOf(r, decode).value);
    } else {
      forall j | 0 <= j < n && rows[j].id == b.id ensures !exists other :: Shows(rows[j], decode, other) {
        if other :| Shows(rows[j], decode, other) {
          ShowsIff(rows[j], decode, other);
          assert front[j] in front;
        }
      }
    }
  }

  lemma {:induction false} AvailableIff(books: seq<Book>, directory: Directory, b: Book)
    ensures b in Available(books, directory) <==>
              exists c :: c in books && directory(c).Some? && ShownAs(c, directory(c).value, b)
  {
    if books != [] {
      var front, last := books[..|books| - 1], books[|books| - 1];
      AvailableIff(front, directory, b);
      assert books == front + [last];
      if directory(last).Some? {
        assert ShownAs(last, directory(last).value, b) <==> b == Finished(last, directory(last).value);
      }
    }
  }

  /** The catalog shows exactly the books that the first row to show them, and the directory, say. */
  lemma CatalogShows(rows: seq<Row>, decode: Decoder, directory: Directory, b: Book)
    ensures b in Available(Listed(rows, decode), directory) <==>
              exists i, c :: FirstShown(rows, decode, i, c) && directory(c).Some? && ShownAs(c, directory(c).value, b)
  {
    AvailableIff(Listed(rows, decode), directory, b);
    if c :| c in Listed(rows, decode) && directory(c).Some? && ShownAs(c, directory(c).value, b) {
      ListedIff(rows, decode, c);
    }
    if i, c :| FirstShown(rows, decode, i, c) && directory(c).Some? && ShownAs(c, directory(c).value, b) {
      ListedIff(rows, decode, c);
    }
  }
}
