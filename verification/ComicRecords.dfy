/** An archive with two `ComicInfo.xml` members (internal/server/formats.go, internal/server/comic_archives.go): it is
    accepted as a CBZ and as a CBR, and shows a different record as each. */
module ComicRecords {
  import opened Text
  import opened Comics
  import opened Cbz
  import Avif
  import Json

  // ---- any rules on names ----

  ghost predicate IsRecord(m: Member, d: Decoders) {
    && HeaderOk(m, d) && d.isInfo(m.name) && !d.isImage(m.name) && |m.content| == m.size && d.parse(m.content).Some?
    && ZipMemberOk(m, d)
  }

  ghost predicate IsPage(m: Member, d: Decoders) {
    HeaderOk(m, d) && d.isImage(m.name) && !d.isInfo(m.name) && ContentOk(m, d) && ZipMemberOk(m, d)
  }

  /** A page and two records, in the order of their names. */
  ghost predicate TwoRecords(page: Member, first: Member, second: Member, d: Decoders) {
    && IsPage(page, d) && IsRecord(first, d) && IsRecord(second, d) && Sorted([page, first, second])
    && TrimSlash(page.name) != TrimSlash(first.name) && TrimSlash(page.name) != TrimSlash(second.name)
    && TrimSlash(first.name) != TrimSlash(second.name)
  }

  lemma SizesOfThree(a: Member, b: Member, c: Member)
    ensures Sizes([a, b, c]) == a.size + b.size + c.size
  {
    assert [a, b, c][..2] == [a, b] && [a, b][..1] == [a] && [a][..0] == [];
    assert Sizes([a]) == a.size && Sizes([a, b]) == a.size + b.size;
  }

  lemma ThreeNames(a: string, b: string, c: string)
    requires a != b && a != c && b != c
    ensures |{a, b, c}| == 3
  {
  }

  lemma CleansOfThree(a: Member, b: Member, c: Member)
    ensures Cleans([a, b, c]) == {TrimSlash(a.name), TrimSlash(b.name), TrimSlash(c.name)}
    ensures RawNames([a, b, c]) == {a.name, b.name, c.name}
  {
    var members := [a, b, c];
    assert members[0] in members && members[1] in members && members[2] in members;
  }

  lemma TwoRecordsInspected(page: Member, first: Member, second: Member, stored: nat, d: Decoders)
    requires TwoRecords(page, first, second, d) && stored <= MAX_STORED
    requires page.size + first.size + second.size <= stored + EXPANSION
    ensures Inspected([page, first, second], stored, d).Some?
  {
    SizesOfThree(page, first, second);
    CleansOfThree(page, first, second);
    ThreeNames(TrimSlash(page.name), TrimSlash(first.name), TrimSlash(second.name));
    assert page in [page, first, second];
  }

  lemma TwoRecordsValid(page: Member, first: Member, second: Member, stored: nat, d: Decoders)
    requires TwoRecords(page, first, second, d) && stored <= MAX_STORED
    requires page.size + first.size + second.size <= stored + EXPANSION
    ensures ZipOk([page, first, second], stored, d)
  {
    SizesOfThree(page, first, second);
    CleansOfThree(page, first, second);
    ThreeNames(page.name, first.name, second.name);
  }

  lemma FirstOfThree(page: Member, first: Member, second: Member, d: Decoders)
    requires !Usable(page, Record, d) && Usable(first, Record, d) && Usable(second, Record, d)
    ensures FirstUsable([page, first, second], Record, d) == Some(first)
    ensures LastUsable([page, first, second], Record, d) == Some(second)
  {
    assert [page, first, second][..2] == [page, first] && [page, first][..1] == [page] && [page][..0] == [];
    assert FirstUsable([page], Record, d) == None;
    assert FirstUsable([page, first], Record, d) == Some(first);
  }

  /** Both accept it; the inspection shows the first record, the sorted pass the second. */
  lemma TwoRecordsShown(page: Member, first: Member, second: Member, stored: nat, d: Decoders)
    requires TwoRecords(page, first, second, d) && stored <= MAX_STORED
    requires page.size + first.size + second.size <= stored + EXPANSION
    ensures var members := [page, first, second];
            && Inspected(members, stored, d).Some? && ZipOk(members, stored, d)
            && Some(Inspected(members, stored, d).value.info) == d.parse(first.content)
            && Some(RecordOf(LastUsable(members, Record, d), d)) == d.parse(second.content)
  {
    var members := [page, first, second];
    TwoRecordsInspected(page, first, second, stored, d);
    TwoRecordsValid(page, first, second, stored, d);
    InspectedReadable(members, stored, d);
    FirstIsLeast(members, Record, d);
    FirstOfThree(page, first, second, d);
  }

  // ---- the program's rules ----

  lemma {:induction false} ShortName(name: string)
    requires forall c :: c in name ==> c < '\U{80}'
    ensures ByteLen(name) == |name|
  {
    if name != "" {
      assert name[0] in name && forall c :: c in name[1..] ==> c in name;
      ShortName(name[1..]);
    }
  }

  predicate PlainChar(c: char) {
    'a' <= c <= 'z' || 'A' <= c <= 'Z' || c == '1' || c == '/' || c == '.'
  }

  lemma PlainName(name: string)
    requires 0 < |name| <= 1024 && (forall c :: c in name ==> PlainChar(c)) && name[|name| - 1] != '/'
    requires forall part :: part in Split(name, '/') ==> part != "" && part != "." && part != ".."
    ensures NameOk(name) && ZipNameOk(name) && TrimSlash(name) == name
  {
    ShortName(name);
  }

  /** A file name of a stem and an extension. */
  predicate IsFile(base: string, stem: string, ext: string) {
    base == stem + ['.'] + ext && stem != "" && ext != "" && forall c :: c in stem + ext ==>
        PlainChar(c) && c != '/' && c != '.'
  }

  lemma FilePieces(base: string, stem: string, ext: string)
    requires IsFile(base, stem, ext)
    ensures Split(base, '.') == [stem, ext] && '/' !in base && base != "." && base != ".." && base != ""
  {
    assert forall c :: c in stem ==> c in stem + ext;
    assert forall c :: c in ext ==> c in stem + ext;
    SplitOfPieceAndRest(stem, ext, '.');
    SplitOfPiece(ext, '.');
    assert stem[0] in stem && base[0] == stem[0];
  }

  /** A file at the top: its only part, its last part and its extension. */
  lemma TopFile(base: string, stem: string, ext: string)
    requires IsFile(base, stem, ext) && |base| <= 64
    ensures NameOk(base) && ZipNameOk(base) && TrimSlash(base) == base
    ensures LastPart(base) == base && Extension(base) == "." + ext
  {
    FilePieces(base, stem, ext);
    SplitOfPiece(base, '/');
    PlainName(base);
  }

  lemma FolderParts(name: string, folder: string, base: string)
    requires name == folder + ['/'] + base && '/' !in folder && '/' !in base
    ensures Split(name, '/') == [folder, base] && LastPart(name) == base
  {
    SplitOfPieceAndRest(folder, base, '/');
    SplitOfPiece(base, '/');
  }

  /** A file in a folder. */
  lemma FolderFile(name: string, folder: string, base: string, stem: string, ext: string)
    requires name == folder + ['/'] + base && IsFile(base, stem, ext) && |base| <= 64
    requires |folder| == 1 && 'a' <= folder[0] <= 'z'
    ensures NameOk(name) && ZipNameOk(name) && TrimSlash(name) == name
    ensures LastPart(name) == base && Extension(name) == "." + ext
  {
    FilePieces(base, stem, ext);
    FolderParts(name, folder, base);
    forall c | c in name ensures PlainChar(c) {
      assert c in folder || c == '/' || c in stem || c == '.' || c in ext;
      assert c in stem || c in ext ==> c in stem + ext;
    }
    assert name[|name| - 1] == base[|base| - 1] && base[|base| - 1] in base;
    PlainName(name);
  }

  /** What the program's rules say of the three names. */
  ghost predicate PageNameOk(name: string) {
    && NameOk(name) && ZipNameOk(name) && TrimSlash(name) == name
    && IsImage(name) && !IsInfo(name) && !IsAvifName(name)
  }

  ghost predicate RecordNameOk(name: string) {
    NameOk(name) && ZipNameOk(name) && TrimSlash(name) == name && IsInfo(name) && !IsImage(name)
  }

  lemma PageName(name: string, stem: string, ext: string)
    requires IsFile(name, stem, ext) && |name| == 5 && Lower("." + ext) == ".jpg" && Json.Fold("." + ext) == ".jpg"
    ensures PageNameOk(name)
  {
    TopFile(name, stem, ext);
    assert |Json.Fold(name)| == 5 && |"comicinfo.xml"| == 13;
  }

  lemma RecordName(name: string, folder: string, base: string, stem: string, ext: string)
    requires name == folder + ['/'] + base && IsFile(base, stem, ext) && |base| <= 64
    requires |folder| == 1 && 'a' <= folder[0] <= 'z' && Json.Fold(base) == "comicinfo.xml"
               && Lower("." + ext) == ".xml"
    ensures RecordNameOk(name)
  {
    FolderFile(name, folder, base, stem, ext);
  }

  // ---- the archive ----

  function MemberOf(name: string, content: Avif.Buffer): Member {
    Member(name, |content|, Regular, false, content)
  }

  predicate PageDecodes(page: Avif.Buffer, d: Decoders) {
    d.config(page).Some? && d.config(page).value.0 > 0 && d.config(page).value.1 > 0
    && d.config(page).value.0 * d.config(page).value.1 <= 100_000_000
  }

  lemma PageIsPage(name: string, page: Avif.Buffer, d: Decoders)
    requires PageNameOk(name) && |page| <= MiB && PageDecodes(page, d) && name != ""
    ensures IsPage(MemberOf(name, page), WithProgramRules(d))
  {
  }

  lemma RecordIsRecord(name: string, content: Avif.Buffer, d: Decoders)
    requires RecordNameOk(name) && |content| <= MiB && d.parse(content).Some? && name != ""
    ensures IsRecord(MemberOf(name, content), WithProgramRules(d))
  {
  }

  /** Any page and records with such names, in order. */
  lemma NamedRecordsDiffer(
      d: Decoders, p: string, a: string, b: string, page: Avif.Buffer, first: Avif.Buffer, second: Avif.Buffer,
          stored: nat)
    requires PageNameOk(p) && RecordNameOk(a) && RecordNameOk(b) && p != "" && a != "" && b != ""
    requires Less(p, a) && Less(p, b) && Less(a, b) && p != a && p != b && a != b
    requires |page| <= MiB && |first| <= MiB && |second| <= MiB && stored <= MAX_STORED && PageDecodes(page, d)
    requires d.parse(first).Some? && d.parse(second).Some?
    ensures Differ([MemberOf(p, page), MemberOf(a, first), MemberOf(b, second)], stored, WithProgramRules(d),
                   d.parse(first), d.parse(second))
  {
    PageIsPage(p, page, d);
    RecordIsRecord(a, first, d);
    RecordIsRecord(b, second, d);
    TwoRecordsShown(MemberOf(p, page), MemberOf(a, first), MemberOf(b, second), stored, WithProgramRules(d));
  }

  /** Valid as a CBZ and as a CBR, with one record shown by the inspection and the other by the sorted pass. */
  predicate Differ(members: seq<Member>, stored: nat, d: Decoders, inspected: Option<Info>, sorted: Option<Info>) {
    && Inspected(members, stored, d).Some? && ZipOk(members, stored, d)
    && Some(Inspected(members, stored, d).value.info) == inspected
    && Some(RecordOf(LastUsable(members, Record, d), d)) == sorted
  }

  lemma JpgCase(ext: string)
    requires ext == "jpg"
    ensures Lower("." + ext) == ".jpg" && Json.Fold("." + ext) == ".jpg"
  {
  }

  lemma InfoCase(base: string, stem: string, ext: string)
    requires base == "ComicInfo.xml" && stem == "ComicInfo" && ext == "xml"
    ensures IsFile(base, stem, ext) && Json.Fold(base) == "comicinfo.xml" && Lower("." + ext) == ".xml"
  {
    assert base == stem + ['.'] + ext;
  }

  lemma ProgramRecord(name: string, folder: string, base: string)
    requires base == "ComicInfo.xml" && name == folder + ['/'] + base && |folder| == 1 && 'a' <= folder[0] <= 'z'
    ensures RecordNameOk(name)
  {
    var stem, ext := "ComicInfo", "xml";
    InfoCase(base, stem, ext);
    RecordName(name, folder, base, stem, ext);
  }

  lemma ProgramPage(name: string)
    requires name == "1.jpg"
    ensures PageNameOk(name)
  {
    var stem, ext := "1", "jpg";
    JpgCase(ext);
    assert name == stem + ['.'] + ext;
    PageName(name, stem, ext);
  }

  lemma InOrder(p: string, a: string, b: string)
    requires p != "" && a != "" && b != "" && p[0] == '1' && a[0] == 'a' && b[0] == 'b'
    ensures Less(p, a) && Less(p, b) && Less(a, b)
  {
  }

  /** A page `1.jpg` with `a/ComicInfo.xml` and `b/ComicInfo.xml`, of small contents that decode: as a CBZ it is
      valid and shows the second record, as a CBR or CB7 it is valid and shows the first. */
  lemma RecordsDiffer(
      d: Decoders, p: string, base: string, a: string, b: string,
      page: Avif.Buffer, first: Avif.Buffer, second: Avif.Buffer, stored: nat)
    requires p == "1.jpg" && base == "ComicInfo.xml" && a == "a" + ['/'] + base && b == "b" + ['/'] + base
    requires |page| <= MiB && |first| <= MiB && |second| <= MiB && stored <= MAX_STORED && PageDecodes(page, d)
    requires d.parse(first).Some? && d.parse(second).Some?
    ensures Differ([MemberOf(p, page), MemberOf(a, first), MemberOf(b, second)], stored, WithProgramRules(d),
                   d.parse(first), d.parse(second))
  {
    ProgramPage(p);
    ProgramRecord(a, "a", base);
    ProgramRecord(b, "b", base);
    InOrder(p, a, b);
    NamedRecordsDiffer(d, p, a, b, page, first, second, stored);
  }
}
