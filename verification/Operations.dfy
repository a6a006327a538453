/** Outbox operations and their validation (internal/server/sync.go, `validateOperation`). */
module Operations {
  import opened Text
  import opened Json
  import opened Folders

  /** The raw `value` of an operation: left out of the request, or a JSON text of `size` bytes. */
  datatype Payload = Absent | Given(value: Value, size: nat)

  datatype Operation = Operation(
    id: string, bookId: string, kind: string, recordId: string,
    baseRevision: int, deleted: bool, value: Payload)

  /** What the stored digest tells apart. Marshalling writes an absent value as null and drops
      the white space of a given one, so neither difference survives; SHA-256 is injective. */
  function Digest(op: Operation): Operation {
    op.(value := Given(if op.value.Absent? then Null else op.value.value, 0))
  }

  predicate IsHex(c: char) {
    'a' <= c <= 'f' || '0' <= c <= '9'
  }

  predicate IsAlnum(c: char) {
    'A' <= c <= 'Z' || 'a' <= c <= 'z' || '0' <= c <= '9'
  }

  predicate IsBookId(s: string) {
    |s| == 64 && forall c :: c in s ==> IsHex(c)
  }

  predicate IsId(s: string) {
    1 <= |s| <= 128 && IsAlnum(s[0]) &&
    forall c :: c in s ==> IsAlnum(c) || c == '.' || c == '_' || c == ':' || c == '-'
  }

  const BOOK_FORMATS := ["epub", "cbz", "cbr", "cb7", "fb2", "fbz", "mobi", "azw3", "pdf"]

  predicate ValidFormat(format: string) {
    format in BOOK_FORMATS
  }

  const BOOK_SCHEMA: map<string, FieldType> := map[
    "inlibrary" := BoolPointer, "title" := Text, "format" := Text, "folder" := Text,
    "folders" := TextList, "author" := Text, "series" := Text, "volume" := NumberPointer]

  const POSITION_SCHEMA: map<string, FieldType> := map[
    "cfi" := Text, "fraction" := NumberPointer, "section" := Text,
    "completedchapter" := IntPointer, "currentchapter" := IntPointer]

  const ANNOTATION_SCHEMA: map<string, FieldType> := map[
    "kind" := Text, "cfi" := Text, "text" := Text, "note" := Text, "section" := Text]

  function FoldersField(fields: seq<Field>): seq<string> {
    var list := PointerField(fields, "folders");
    if list.Some? && list.value.Arr? then Texts(list.value.items) else []
  }

  predicate ValidBookValue(v: Value) {
    && Strict(v, BOOK_SCHEMA)
    && var m := ToMap(v.fields);
       var title, author, series := TextField(v.fields, "title"), TextField(v.fields, "author"),
           TextField(v.fields, "series");
       var folder, format := TextField(v.fields, "folder"), TextField(v.fields, "format");
       && title != "" && ByteLen(title) <= 2048 && ByteLen(author) <= 2048 && ByteLen(series) <= 2048
       && ValidFolder(folder) && (format != "" ==> ValidFormat(format))
       && ("format" in m ==> ValidFormat(format))
       && ("folders" in m ==>
             && m["folders"] != Null && ValidList(FoldersField(v.fields))
             && ("folder" in m ==> folder == Primary(FoldersField(v.fields))))
       && ("folder" in m ==> m["folder"] != Null)
       && ("format" in m ==> m["format"] != Null)
       && ("inLibrary" in m ==> m["inLibrary"] != Null)
  }

  /** A `*string` field: None when it ends up nil. */
  function TextPointerField(fields: seq<Field>, name: string): Option<string> {
    var v := PointerField(fields, name);
    if v.Some? && v.value.Str? then Some(v.value.s) else None
  }

  function NumberField(fields: seq<Field>, name: string): Option<real> {
    var v := PointerField(fields, name);
    if v.Some? && v.value.Num? then Some(v.value.n) else None
  }

  predicate Within(n: Option<real>, low: real, high: real) {
    n.Some? ==> low <= n.value <= high
  }

  predicate ValidPositionValue(v: Value) {
    && Strict(v, POSITION_SCHEMA)
    && var cfi := TextPointerField(v.fields, "cfi");
       var fraction := NumberField(v.fields, "fraction");
       && cfi.Some? && ByteLen(cfi.value) <= 8192
       && fraction.Some? && 0.0 <= fraction.value <= 1.0
       && (cfi.value == "" ==> fraction.value == 1.0)
       && ByteLen(TextField(v.fields, "section")) <= 2048
       && Within(NumberField(v.fields, "completedchapter"), 0.0, 100000.0)
       && Within(NumberField(v.fields, "currentchapter"), 1.0, 100000.0)
  }

  predicate ValidAnnotationValue(v: Value) {
    && Strict(v, ANNOTATION_SCHEMA)
    && var kind, cfi := TextField(v.fields, "kind"), TextField(v.fields, "cfi");
       && (kind == "bookmark" || kind == "highlight")
       && cfi != "" && ByteLen(cfi) <= 8192 && ByteLen(TextField(v.fields, "section")) <= 2048
  }

  predicate ValidOperation(op: Operation) {
    && IsId(op.id) && IsId(op.recordId) && IsBookId(op.bookId) && op.baseRevision >= 0
    && (op.value.Given? ==> op.value.size <= 32768)
    && (op.kind == "book" || op.kind == "position" || op.kind == "annotation")
    && (op.kind != "annotation" ==> op.recordId == "default")
    && (if op.deleted then op.value.Absent? || op.value.value == Null
        else
          && op.value.Given? && op.value.value != Null
          && (op.kind == "book" ==> ValidBookValue(op.value.value))
          && (op.kind == "position" ==> ValidPositionValue(op.value.value))
          && (op.kind == "annotation" ==> ValidAnnotationValue(op.value.value)))
  }

  predicate IsBookEdit(op: Operation) {
    op.kind == "book" && !op.deleted
  }

  /** The folder checks of the validator, asked of the keys spelled exactly `folders` and `folder`:
      the ones that canonicalisation reads. The validator itself reads the struct fields, which a
      key differing by case can overwrite. */
  predicate ExactFoldersOk(m: map<string, Value>) {
    if "folders" in m then ListAt(m, "folders").Some? && ValidList(ListAt(m, "folders").value)
    else "folder" in m ==> ValidFolder(TextAt(m, "folder"))
  }

  lemma TypedMembers(v: Value, key: string)
    requires Strict(v, BOOK_SCHEMA) && key in ToMap(v.fields)
    ensures Fold(key) in BOOK_SCHEMA && TypeOk(BOOK_SCHEMA[Fold(key)], ToMap(v.fields)[key])
  {
    ToMapHasOnlyFields(v.fields, key);
  }

  lemma FoldOfNames()
    ensures Fold("folder") == "folder" && Fold("folders") == "folders"
  {
  }

  /** When an accepted book value is canonicalised over nothing or over a canonical value, the
      result is canonical exactly when the exact-key folder checks pass. */
  lemma AcceptedBookCanonicalIff(v: Value, previous: map<string, Value>)
    requires ValidBookValue(v)
    requires previous == map[] || IsCanonical(previous)
    ensures IsCanonical(Canonical(ToMap(v.fields), previous)) <==> ExactFoldersOk(ToMap(v.fields))
  {
    var m := ToMap(v.fields);
    CanonicalIffValidList(m, previous);
    FoldOfNames();
    if "folders" in m {
      TypedMembers(v, "folders");
    } else if "folder" in m {
      TypedMembers(v, "folder");
      var folders, folder := Memberships(previous), TextAt(m, "folder");
      assert ValidList(folders);
      if ValidFolder(folder) {
        LegacyEditReplacesOnlyPrimary(folders, folder);
      } else if folder != Primary(folders) {
        assert LegacyEdit(folders, folder)[0] == folder;
        assert folder in LegacyEdit(folders, folder);
      }
    }
  }

  /** A value whose keys hold no case variant of `folder` or `folders` always passes. */
  lemma PlainKeysAreExact(v: Value)
    requires ValidBookValue(v) && NoVariant(v.fields, "folder") && NoVariant(v.fields, "folders")
    ensures ExactFoldersOk(ToMap(v.fields))
  {
    var m := ToMap(v.fields);
    FoldOfNames();
    if "folders" in m {
      TypedMembers(v, "folders");
      ListReadingsAgree(v.fields, "folders");
    } else if "folder" in m {
      TypedMembers(v, "folder");
      forall f | f in v.fields && f.key == "folder" ensures f.value.Str? || f.value.Null? {
        assert Fold(f.key) == "folder" && BOOK_SCHEMA["folder"] == FieldType.Text;
      }
      TextReadingsAgree(v.fields, "folder");
    }
  }

  const CASE_VARIANT := [Field("title", Str("T")), Field("folder", Str("..")), Field("Folder", Str(""))]

  lemma CaseVariantText(name: string)
    ensures TextField(CASE_VARIANT, name) == if name == "title" then "T" else ""
  {
    var fields := CASE_VARIANT;
    assert Fold("title") == "title" && Fold("folder") == "folder" && Fold("Folder") == "folder";
    assert fields[..2][..1] == fields[..1] && fields[..1][..0] == [];
    assert TextField(fields[..1], name) == if name == "title" then "T" else "";
    assert TextField(fields[..2], name) == if name == "title" then "T" else if name == "folder" then ".." else "";
  }

  lemma CaseVariantMap()
    ensures ToMap(CASE_VARIANT) == map["title" := Str("T"), "folder" := Str(".."), "Folder" := Str("")]
  {
    var fields := CASE_VARIANT;
    assert fields[..2][..1] == fields[..1] && fields[..1][..0] == [];
    assert ToMap(fields[..1]) == map["title" := Str("T")];
    assert ToMap(fields[..2]) == map["title" := Str("T"), "folder" := Str("..")];
  }

  lemma CaseVariantStrict()
    ensures Strict(Obj(CASE_VARIANT), BOOK_SCHEMA)
  {
    assert Fold("title") == "title" && Fold("folder") == "folder" && Fold("Folder") == "folder";
  }

  lemma CaseVariantAccepted()
    ensures ValidBookValue(Obj(CASE_VARIANT))
  {
    CaseVariantStrict();
    CaseVariantMap();
    CaseVariantText("title");
    CaseVariantText("author");
    CaseVariantText("series");
    CaseVariantText("folder");
    CaseVariantText("format");
    assert ByteLen("T") == 1 by {
      assert ByteLen("T"[1..]) == 0;
    }
  }

  /** The documented guarantee is false for some accepted values: here the validator reads the
      empty `Folder`, canonicalisation reads `folder`, and an invalid path becomes a membership. */
  lemma CaseVariantBreaksCanonical()
    ensures ValidBookValue(Obj(CASE_VARIANT))
    ensures !IsCanonical(Canonical(ToMap(CASE_VARIANT), map[]))
  {
    CaseVariantAccepted();
    CaseVariantMap();
    DotsInvalid();
    AcceptedBookCanonicalIff(Obj(CASE_VARIANT), map[]);
  }

  lemma DotsInvalid()
    ensures !ValidFolder("..")
  {
    SplitOfPiece("..", '/');
    assert ".." in Split("..", '/');
  }
}
