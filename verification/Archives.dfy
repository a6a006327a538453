/** The ZIP container of a backup (internal/server/backup.go): its entry names, the pass that reads its
    entries, and the counting arguments that restore relies on. */
module Archives {
  import opened Text
  import Folders
  import opened Operations
  import BookFiles

  /** One entry of the ZIP container, with the size its header declares. */
  datatype ZipEntry = ZipEntry(name: string, declared: nat, content: BookFiles.Bytes, regular: bool)

  const MAX_TOTAL := 100 * 1024 * 1024 * 1024
  const DB_NAME := "quire.db"
  const MANIFEST_NAME := "manifest.json"

  // ---- names ----

  predicate AllHex(s: string) {
    forall c :: c in s ==> IsHex(c)
  }

  /** `objects/<64 hex>/<64 hex>.<format>` */
  predicate IsObjectName(name: string) {
    && |name| > 138 && name[..8] == "objects/" && AllHex(name[8..72]) && name[72] == '/'
    && AllHex(name[73..137]) && name[137] == '.' && name[138..] in BOOK_FORMATS
  }

  predicate IsArchiveName(name: string) {
    name == DB_NAME || IsObjectName(name)
  }

  function NameOf(owner: string, book: string, format: string): string {
    "objects/" + owner + "/" + book + "." + format
  }

  function OwnerPart(name: string): string
    requires IsObjectName(name)
  {
    name[8..72]
  }

  function BookPart(name: string): string
    requires IsObjectName(name)
  {
    name[73..137]
  }

  function FormatPart(name: string): string
    requires IsObjectName(name)
  {
    name[138..]
  }

  lemma FormatsArePlain(format: string)
    requires format in BOOK_FORMATS
    ensures '/' !in format && '.' !in format && 3 <= |format| <= 4
  {
  }

  lemma HexPart(name: string, lo: nat, hi: nat, c: char)
    requires lo <= hi <= |name| && AllHex(name[lo..hi]) && !IsHex(c)
    ensures forall i :: lo <= i < hi ==> name[i] != c
  {
    forall i | lo <= i < hi ensures name[i] != c {
      assert name[i] == name[lo..hi][i - lo];
      assert name[lo..hi][i - lo] in name[lo..hi];
    }
  }

  lemma TailPart(name: string, lo: nat, c: char)
    requires lo <= |name| && c !in name[lo..]
    ensures forall i :: lo <= i < |name| ==> name[i] != c
  {
    forall i | lo <= i < |name| ensures name[i] != c {
      assert name[i] == name[lo..][i - lo];
      assert name[lo..][i - lo] in name[lo..];
    }
  }

  /** An object name can be read in one way only, whatever strings the owner and the book are. */
  lemma NameDeterminesReference(owner: string, book: string, format: string)
    requires format in BOOK_FORMATS && IsObjectName(NameOf(owner, book, format))
    ensures OwnerPart(NameOf(owner, book, format)) == owner
    ensures BookPart(NameOf(owner, book, format)) == book
    ensures FormatPart(NameOf(owner, book, format)) == format
  {
    var name := NameOf(owner, book, format);
    FormatsArePlain(name[138..]);
    HexPart(name, 8, 72, '/');
    HexPart(name, 73, 137, '/');
    TailPart(name, 138, '/');
    assert name[8 + |owner|] == '/';
    assert |owner| == 64;
    HexPart(name, 73, 137, '.');
    TailPart(name, 138, '.');
    assert name[73 + |book|] == '.';
    assert |book| == 64;
    assert name[8..72] == owner && name[73..137] == book && name[138..] == format;
  }

  /** Hexadecimal digests make well-formed names. */
  lemma HexNamesAreObjectNames(owner: string, book: string, format: string)
    requires |owner| == 64 && AllHex(owner) && |book| == 64 && AllHex(book) && format in BOOK_FORMATS
    ensures IsObjectName(NameOf(owner, book, format))
  {
    var name := NameOf(owner, book, format);
    FormatsArePlain(format);
    assert name[..8] == "objects/" && name[8..72] == owner && name[73..137] == book && name[138..] == format;
  }

  lemma ObjectNamesAreNotSpecial(owner: string, book: string, format: string)
    ensures NameOf(owner, book, format) != DB_NAME && NameOf(owner, book, format) != MANIFEST_NAME
  {
    assert NameOf(owner, book, format)[0] == 'o';
  }

  // ---- entries ----

  function Names(archive: seq<ZipEntry>): set<string> {
    set e | e in archive :: e.name
  }

  predicate DistinctNames(archive: seq<ZipEntry>) {
    forall i, j :: 0 <= i < j < |archive| ==> archive[i].name != archive[j].name
  }

  function Total(archive: seq<ZipEntry>): nat {
    if archive == [] then 0 else Total(archive[..|archive| - 1]) + archive[|archive| - 1].declared
  }

  predicate EntryOk(e: ZipEntry) {
    e.regular && (IsArchiveName(e.name) || e.name == MANIFEST_NAME)
  }

  predicate EntriesOk(archive: seq<ZipEntry>) {
    DistinctNames(archive) && (forall e :: e in archive ==> EntryOk(e)) && Total(archive) <= MAX_TOTAL
  }

  function EntryMap(archive: seq<ZipEntry>): (m: map<string, ZipEntry>)
    ensures m.Keys == Names(archive)
  {
    if archive == [] then map[]
    else
      var last := archive[|archive| - 1];
      assert archive == archive[..|archive| - 1] + [last];
      EntryMap(archive[..|archive| - 1])[last.name := last]
  }

  lemma {:induction false} EntryMapHolds(archive: seq<ZipEntry>)
    ensures forall n :: n in EntryMap(archive) ==> EntryMap(archive)[n] in archive && EntryMap(archive)[n].name == n
  {
    if archive != [] {
      EntryMapHolds(archive[..|archive| - 1]);
    }
  }

  /** With distinct names the map finds every entry under its name. */
  lemma {:induction false} EntryMapFinds(archive: seq<ZipEntry>, i: nat)
    requires DistinctNames(archive) && i < |archive|
    ensures archive[i].name in EntryMap(archive) && EntryMap(archive)[archive[i].name] == archive[i]
  {
    if i < |archive| - 1 {
      EntryMapFinds(archive[..|archive| - 1], i);
    }
  }

  lemma SnocEntriesOk(front: seq<ZipEntry>, e: ZipEntry)
    ensures EntriesOk(front + [e]) <==>
              EntriesOk(front) && e.name !in Names(front) && EntryOk(e) && Total(front) + e.declared <= MAX_TOTAL
    ensures EntryMap(front + [e]) == EntryMap(front)[e.name := e]
    ensures Total(front + [e]) == Total(front) + e.declared
  {
    var all := front + [e];
    assert all[..|front|] == front && all[|front|] == e;
    if EntriesOk(all) {
      forall i, j | 0 <= i < j < |front| ensures front[i].name != front[j].name {
        assert all[i].name != all[j].name;
      }
      forall x | x in front ensures EntryOk(x) && x.name != e.name {
        var i :| 0 <= i < |front| && front[i] == x;
        assert all[i] in all && all[i].name != all[|front|].name;
      }
      assert all[|front|] in all;
    }
    if EntriesOk(front) && e.name !in Names(front) && EntryOk(e) {
      forall i, j | 0 <= i < j < |all| ensures all[i].name != all[j].name {
        if j == |front| {
          assert front[i] in front;
        }
      }
    }
  }

  lemma {:induction false} PrefixEntriesOk(archive: seq<ZipEntry>, n: nat)
    requires n <= |archive| && EntriesOk(archive)
    ensures EntriesOk(archive[..n])
    decreases |archive|
  {
    if n == |archive| {
      assert archive[..n] == archive;
    } else {
      var front := archive[..|archive| - 1];
      assert archive == front + [archive[|archive| - 1]] && front[..n] == archive[..n];
      SnocEntriesOk(front, archive[|archive| - 1]);
      PrefixEntriesOk(front, n);
    }
  }

  /** The pass over the directory of the container. */
  method ReadEntries(archive: seq<ZipEntry>) returns (entries: Option<map<string, ZipEntry>>)
    ensures entries.Some? <==> EntriesOk(archive)
    ensures entries.Some? ==> entries.value == EntryMap(archive)
  {
    var found: map<string, ZipEntry> := map[];
    var total := 0;
    for i := 0 to |archive|
      invariant found == EntryMap(archive[..i])
      invariant EntriesOk(archive[..i])
      invariant total == Total(archive[..i])
    {
      var e := archive[i];
      assert archive[..i + 1] == archive[..i] + [e];
      SnocEntriesOk(archive[..i], e);
      if e.name in found || !(IsArchiveName(e.name) || e.name == MANIFEST_NAME) || !e.regular
         || e.declared > MAX_TOTAL - total {
        if EntriesOk(archive) {
          PrefixEntriesOk(archive, i + 1);
        }
        return None;
      }
      total := total + e.declared;
      found := found[e.name := e];
    }
    assert archive[..|archive|] == archive;
    return Some(found);
  }

  // ---- counting ----

  lemma {:induction false} SubsetOfSameSize<T>(a: set<T>, b: set<T>)
    requires a <= b && |a| == |b|
    ensures a == b
  {
    if a != {} {
      var x :| x in a;
      SubsetOfSameSize(a - {x}, b - {x});
    } else {
      assert b == {};
    }
  }

  lemma OnlyElement<T>(s: set<T>)
    requires |s| == 1
    ensures forall x, y :: x in s && y in s ==> x == y
  {
    forall x, y | x in s && y in s ensures x == y {
      assert |s - {x}| == 0;
      assert y !in s - {x};
    }
  }

  datatype Reference = Reference(owner: string, book: string)

  /** The formats under which a name list has an object for this reference. */
  function FormatsFound(names: set<string>, ref: Reference): set<string> {
    FoundIn(names, ref, BOOK_FORMATS)
  }

  lemma FormatsDistinct()
    ensures Folders.Distinct(BOOK_FORMATS)
  {
  }

  function FoundIn(names: set<string>, ref: Reference, formats: seq<string>): set<string> {
    set format | format in formats && NameOf(ref.owner, ref.book, format) in names
  }

  lemma FoundInSnoc(names: set<string>, ref: Reference, formats: seq<string>, i: nat)
    requires i < |formats| && Folders.Distinct(formats)
    ensures |FoundIn(names, ref, formats[..i + 1])| ==
              |FoundIn(names, ref, formats[..i])| + if NameOf(ref.owner, ref.book, formats[i]) in names then 1 else 0
  {
    assert formats[..i + 1] == formats[..i] + [formats[i]];
    assert formats[i] !in formats[..i];
    var before := FoundIn(names, ref, formats[..i]);
    if NameOf(ref.owner, ref.book, formats[i]) in names {
      assert FoundIn(names, ref, formats[..i + 1]) == before + {formats[i]};
    } else {
      assert FoundIn(names, ref, formats[..i + 1]) == before;
    }
  }

  method CountFormats(names: set<string>, ref: Reference, formats: seq<string>) returns (found: nat)
    requires Folders.Distinct(formats)
    ensures found == |FoundIn(names, ref, formats)|
  {
    found := 0;
    for i := 0 to |formats|
      invariant found == |FoundIn(names, ref, formats[..i])|
    {
      FoundInSnoc(names, ref, formats, i);
      if NameOf(ref.owner, ref.book, formats[i]) in names {
        found := found + 1;
      }
    }
    assert formats[..|formats|] == formats;
  }

  /** The one name an accepted list has for a reference. */
  function FoundName(names: set<string>, ref: Reference): string
    requires |FormatsFound(names, ref)| == 1
  {
    OnlyElement(FormatsFound(names, ref));
    var format :| format in FormatsFound(names, ref);
    NameOf(ref.owner, ref.book, format)
  }

  predicate ArchiveNames(names: set<string>) {
    forall name :: name in names ==> IsArchiveName(name)
  }

  lemma FoundNameFacts(names: set<string>, ref: Reference)
    requires |FormatsFound(names, ref)| == 1 && ArchiveNames(names)
    ensures FoundName(names, ref) in names - {DB_NAME} && IsObjectName(FoundName(names, ref))
    ensures OwnerPart(FoundName(names, ref)) == ref.owner && BookPart(FoundName(names, ref)) == ref.book
  {
    var name := FoundName(names, ref);
    var format :| format in FormatsFound(names, ref) && name == NameOf(ref.owner, ref.book, format);
    ObjectNamesAreNotSpecial(ref.owner, ref.book, format);
    NameDeterminesReference(ref.owner, ref.book, format);
  }

  predicate AllFoundOnce(refs: set<Reference>, names: set<string>) {
    forall ref :: ref in refs ==> |FormatsFound(names, ref)| == 1
  }

  function FoundNames(refs: set<Reference>, names: set<string>): set<string>
    requires AllFoundOnce(refs, names)
  {
    set ref | ref in refs :: FoundName(names, ref)
  }

  /** References have different names, so there are as many names as references. */
  lemma {:induction false} FoundNamesCounted(refs: set<Reference>, names: set<string>)
    requires AllFoundOnce(refs, names) && ArchiveNames(names)
    ensures |FoundNames(refs, names)| == |refs|
  {
    if refs != {} {
      var ref :| ref in refs;
      var rest := refs - {ref};
      FoundNamesCounted(rest, names);
      assert FoundNames(refs, names) == FoundNames(rest, names) + {FoundName(names, ref)};
      FoundNameFacts(names, ref);
      forall r | r in rest ensures FoundName(names, r) != FoundName(names, ref) {
        FoundNameFacts(names, r);
      }
    }
  }

  /** Pigeonhole: when every reference is found once and the counts agree, every object name is the name
      of a reference. */
  lemma NamesAreReferences(refs: set<Reference>, names: set<string>)
    requires AllFoundOnce(refs, names) && ArchiveNames(names) && DB_NAME in names && |refs| + 1 == |names|
    ensures FoundNames(refs, names) == names - {DB_NAME}
    ensures forall name :: name in names - {DB_NAME} ==>
              IsObjectName(name) && Reference(OwnerPart(name), BookPart(name)) in refs
  {
    FoundNamesCounted(refs, names);
    forall ref | ref in refs ensures FoundName(names, ref) in names - {DB_NAME} {
      FoundNameFacts(names, ref);
    }
    SubsetOfSameSize(FoundNames(refs, names), names - {DB_NAME});
    forall name | name in names - {DB_NAME}
      ensures IsObjectName(name) && Reference(OwnerPart(name), BookPart(name)) in refs
    {
      assert name in FoundNames(refs, names);
      var ref :| ref in refs && name == FoundName(names, ref);
      FoundNameFacts(names, ref);
    }
  }
}
