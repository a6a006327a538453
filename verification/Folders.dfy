/** Folder memberships of a book (internal/server/folders.go): what a list of memberships may
    hold, and how a legacy or a modern client value becomes the canonical one. */
module Folders {
  import opened Text
  import opened Json

  predicate IsControl(c: char) {
    c < ' ' || '\U{7F}' <= c <= '\U{9F}'
  }

  predicate IsSpace(c: char) {
    '\U{9}' <= c <= '\U{D}' || c == ' ' || c == '\U{85}' || c == '\U{A0}' || c == '\U{1680}' ||
    '\U{2000}' <= c <= '\U{200A}' || c == '\U{2028}' || c == '\U{2029}' || c == '\U{202F}' ||
    c == '\U{205F}' || c == '\U{3000}'
  }

  predicate ValidPart(p: string) {
    p != "" && p != "." && p != ".." && ByteLen(p) <= 255 && !IsSpace(p[0]) && !IsSpace(p[|p| - 1])
  }

  predicate ValidFolder(folder: string) {
    folder == "" ||
    (&& ByteLen(folder) <= 1024
     && (forall c :: c in folder ==> c != '\\' && c != ':' && !IsControl(c))
     && |Split(folder, '/')| <= 32
     && forall p :: p in Split(folder, '/') ==> ValidPart(p))
  }

  predicate Distinct(folders: seq<string>) {
    forall i, j :: 0 <= i < j < |folders| ==> folders[i] != folders[j]
  }

  /** A well-formed membership list: at most 32 different, valid, non-empty paths. */
  predicate ValidList(folders: seq<string>) {
    |folders| <= 32 && Distinct(folders) && forall f :: f in folders ==> f != "" && ValidFolder(f)
  }

  /** The one-pass check with a `seen` set accepts exactly the well-formed lists. */
  method ValidFolders(folders: seq<string>) returns (ok: bool)
    ensures ok <==> ValidList(folders)
  {
    if |folders| > 32 {
      return false;
    }
    var seen: set<string> := {};
    for i := 0 to |folders|
      invariant seen == set f | f in folders[..i]
      invariant Distinct(folders[..i])
      invariant forall f :: f in folders[..i] ==> f != "" && ValidFolder(f)
    {
      var folder := folders[i];
      if folder == "" || !ValidFolder(folder) || folder in seen {
        assert folder in folders;
        if folder in seen {
          var j :| 0 <= j < i && folders[j] == folder;
          assert !Distinct(folders);
        }
        return false;
      }
      assert folders[..i + 1] == folders[..i] + [folder];
      seen := seen + {folder};
    }
    assert folders[..|folders|] == folders;
    return true;
  }

  function Primary(folders: seq<string>): string {
    if |folders| > 0 then folders[0] else ""
  }

  function MetadataFolders(folder: string, folders: Option<seq<string>>): seq<string> {
    match folders
    case Some(list) => list
    case None => if folder != "" && ValidFolder(folder) then [folder] else []
  }

  function Without(folders: seq<string>, folder: string): (r: seq<string>)
    ensures |r| <= |folders|
    ensures forall f :: f in r <==> f in folders && f != folder
  {
    if folders == [] then []
    else
      var front := Without(folders[..|folders| - 1], folder);
      var last := folders[|folders| - 1];
      if last == folder then front else front + [last]
  }

  /** The memberships a decoded previous value stands for. */
  function Memberships(previous: map<string, Value>): seq<string> {
    MetadataFolders(TextAt(previous, "folder"), ListAt(previous, "folders"))
  }

  /** A legacy primary-folder edit of a membership list. */
  function LegacyEdit(folders: seq<string>, folder: string): seq<string> {
    if folder == Primary(folders) then folders
    else (if folder != "" then [folder] else []) + Without(if |folders| > 0 then folders[1..] else [], folder)
  }

  /** The memberships after `incoming` is applied over `old`. */
  function NextMemberships(incoming: map<string, Value>, previous: map<string, Value>): seq<string> {
    if "folders" in incoming then
      var list := ListAt(incoming, "folders");
      if list.Some? then list.value else []
    else if "folder" in incoming then LegacyEdit(Memberships(previous), TextAt(incoming, "folder"))
    else Memberships(previous)
  }

  /** The canonical form of `incoming`, given the decoded previous value (empty when there is none). */
  function Canonical(incoming: map<string, Value>, previous: map<string, Value>): map<string, Value> {
    var folders := NextMemberships(incoming, previous);
    var out := incoming["folder" := Str(Primary(folders))]["folders" := StrArr(folders)];
    if "format" !in incoming && "format" in previous then out["format" := previous["format"]] else out
  }

  /** The loop of a legacy edit that changes the primary folder. */
  method ReplacePrimary(folders: seq<string>, folder: string) returns (next: seq<string>)
    requires folder != Primary(folders)
    ensures next == LegacyEdit(folders, folder)
  {
    var current := if |folders| > 0 then folders[1..] else [];
    var rest := Others(current, folder);
    next := (if folder != "" then [folder] else []) + rest;
  }

  method Others(current: seq<string>, folder: string) returns (rest: seq<string>)
    ensures rest == Without(current, folder)
  {
    rest := [];
    for i := 0 to |current|
      invariant rest == Without(current[..i], folder)
    {
      WithoutStep(current, folder, i);
      if current[i] != folder {
        rest := rest + [current[i]];
      }
    }
    assert current[..|current|] == current;
  }

  lemma WithoutStep(folders: seq<string>, folder: string, i: nat)
    requires i < |folders|
    ensures Without(folders[..i + 1], folder) ==
              Without(folders[..i], folder) + if folders[i] == folder then [] else [folders[i]]
  {
    assert folders[..i + 1][..i] == folders[..i];
  }

  /** `canonicalBookFolders` as the program runs it. */
  method CanonicalBookFolders(value: map<string, Value>, previous: map<string, Value>)
    returns (out: map<string, Value>)
    ensures out == Canonical(value, previous)
  {
    out := value;
    var folder := TextAt(value, "folder");
    var folders: Option<seq<string>> := None;
    if "folders" in value {
      folders := ListAt(value, "folders");
    } else {
      var current := Memberships(previous);
      var primary := Primary(current);
      if "folder" in value && folder != primary {
        current := ReplacePrimary(current, folder);
      }
      folders := Some(current);
    }
    var list := if folders.Some? then folders.value else [];
    assert list == NextMemberships(value, previous);
    folder := "";
    if |list| > 0 {
      folder := list[0];
    }
    out := out["folder" := Str(folder)];
    out := out["folders" := StrArr(list)];
    if "format" !in value && "format" in previous {
      out := out["format" := previous["format"]];
    }
  }

  /** The value carries a well-formed `folders` list whose head is its `folder`. */
  predicate IsCanonical(m: map<string, Value>) {
    && ListAt(m, "folders").Some?
    && m["folders"] == StrArr(ListAt(m, "folders").value)
    && ValidList(ListAt(m, "folders").value)
    && "folder" in m && m["folder"] == Str(Primary(ListAt(m, "folders").value))
  }

  lemma CanonicalMemberships(incoming: map<string, Value>, previous: map<string, Value>)
    ensures ListAt(Canonical(incoming, previous), "folders") == Some(NextMemberships(incoming, previous))
    ensures Memberships(Canonical(incoming, previous)) == NextMemberships(incoming, previous)
  {
    TextsOfStrArr(NextMemberships(incoming, previous));
  }

  lemma CanonicalIffValidList(incoming: map<string, Value>, previous: map<string, Value>)
    ensures IsCanonical(Canonical(incoming, previous)) <==> ValidList(NextMemberships(incoming, previous))
  {
    CanonicalMemberships(incoming, previous);
  }

  /** Canonicalising twice, over the same or over any other previous value without a format of
      its own to add, changes nothing more. */
  lemma CanonicalIdempotent(incoming: map<string, Value>, previous: map<string, Value>, other: map<string, Value>)
    requires "format" in Canonical(incoming, previous) || "format" !in other
    ensures Canonical(Canonical(incoming, previous), other) == Canonical(incoming, previous)
    ensures Canonical(Canonical(incoming, previous), previous) == Canonical(incoming, previous)
  {
    CanonicalMemberships(incoming, previous);
  }

  lemma {:induction false} WithoutKeepsOrder(folders: seq<string>, folder: string)
    requires Distinct(folders)
    ensures Distinct(Without(folders, folder))
    ensures folder !in folders ==> Without(folders, folder) == folders
  {
    if folders != [] {
      var front := folders[..|folders| - 1];
      assert Distinct(front) && folders[|folders| - 1] !in front;
      WithoutKeepsOrder(front, folder);
      assert folders == front + [folders[|folders| - 1]];
    }
  }

  /** Without the primary, `Without` keeps the remaining memberships in order. */
  lemma {:induction false} WithoutSplit(before: seq<string>, folder: string, after: seq<string>)
    requires folder !in before && folder !in after
    ensures Without(before + [folder] + after, folder) == before + after
    decreases |after|
  {
    var all := before + [folder] + after;
    if after == [] {
      assert all[..|all| - 1] == before;
      WithoutNone(before, folder);
    } else {
      var front := after[..|after| - 1];
      assert all[..|all| - 1] == before + [folder] + front;
      WithoutSplit(before, folder, front);
      assert after == front + [after[|after| - 1]];
    }
  }

  lemma {:induction false} WithoutNone(folders: seq<string>, folder: string)
    requires folder !in folders
    ensures Without(folders, folder) == folders
  {
    if folders != [] {
      WithoutNone(folders[..|folders| - 1], folder);
      assert folders == folders[..|folders| - 1] + [folders[|folders| - 1]];
    }
  }

  lemma RestMembers(folders: seq<string>, f: string)
    requires Distinct(folders) && |folders| > 0
    ensures f in folders[1..] <==> f in folders && f != folders[0]
  {
    assert folders == [folders[0]] + folders[1..];
    if f in folders[1..] {
      var i :| 0 <= i < |folders| - 1 && folders[1..][i] == f;
      assert folders[i + 1] == f;
    }
  }

  lemma EditedMembers(folders: seq<string>, folder: string, f: string)
    requires Distinct(folders) && folder != Primary(folders)
    ensures f in LegacyEdit(folders, folder) <==>
              (f == folder && f != "") || (f in folders && f != Primary(folders) && f != folder)
  {
    if |folders| > 0 {
      RestMembers(folders, f);
    }
  }

  lemma EditedDistinct(folders: seq<string>, folder: string)
    requires Distinct(folders) && folder != Primary(folders) && |folders| <= 32
    ensures Distinct(LegacyEdit(folders, folder)) && |LegacyEdit(folders, folder)| <= 32
  {
    var rest := if |folders| > 0 then folders[1..] else [];
    assert Distinct(rest);
    WithoutKeepsOrder(rest, folder);
    var others := Without(rest, folder);
    assert folder !in others && |others| <= |rest|;
  }

  /** A legacy edit of a well-formed list to a valid path (or to none) is well formed again. It
      becomes the primary, every membership but the old primary stays, and nothing else appears. */
  lemma LegacyEditReplacesOnlyPrimary(folders: seq<string>, folder: string)
    requires ValidList(folders) && ValidFolder(folder)
    ensures ValidList(LegacyEdit(folders, folder))
    ensures folder != "" ==> Primary(LegacyEdit(folders, folder)) == folder
    ensures forall f :: f in LegacyEdit(folders, folder) <==>
                        (f == folder && f != "") || (f in folders && (f != Primary(folders) || f == folder))
    ensures folder == "" ==> LegacyEdit(folders, folder) == folders[if |folders| > 0 then 1 else 0..]
  {
    if folder != Primary(folders) {
      EditedDistinct(folders, folder);
      forall f: string
        ensures f in LegacyEdit(folders, folder) <==>
                  (f == folder && f != "") || (f in folders && f != Primary(folders) && f != folder)
      {
        EditedMembers(folders, folder, f);
      }
      if folder == "" && |folders| > 0 {
        WithoutNone(folders[1..], folder);
      }
    }
  }

  /** The other memberships keep their order: a path already held moves to the front, and a new
      one takes the place of the old primary. */
  lemma LegacyEditOrder(folders: seq<string>, before: seq<string>, folder: string, after: seq<string>)
    requires ValidList(folders) && folder != "" && folder != Primary(folders) && |folders| > 0
    ensures folders[1..] == before + [folder] + after ==> LegacyEdit(folders, folder) == [folder] + before + after
    ensures folder !in folders ==> LegacyEdit(folders, folder) == [folder] + folders[1..]
  {
    if folders[1..] == before + [folder] + after {
      var rest := folders[1..];
      forall i | 0 <= i < |rest| && i != |before| ensures rest[i] != folder {
        assert rest[|before|] == folder;
        assert folders[1 + i] != folders[1 + |before|];
      }
      forall x | x in before ensures x != folder {
        var i :| 0 <= i < |before| && before[i] == x;
        assert rest[i] == x;
      }
      forall x | x in after ensures x != folder {
        var i :| 0 <= i < |after| && after[i] == x;
        assert rest[|before| + 1 + i] == x;
      }
      WithoutSplit(before, folder, after);
    }
    if folder !in folders {
      WithoutNone(folders[1..], folder);
    }
  }
}
