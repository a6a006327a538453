/** Book files (internal/server/files.go, internal/server/library_management.go): the `files` table and the
    object directory it refers to, through uploads, deletes, scans, watch and library removal, and a crash
    at any point between a database commit and a file operation. */
module BookFiles {
  import opened Text
  import Folders
  import opened Operations

  type Bytes = seq<nat>

  /** SHA-256 in hex, the format detection that reads only the content, and the upload limit. */
  datatype Env = Env(hash: Bytes -> string, detect: Bytes -> Option<string>, maxUpload: nat)

  ghost predicate EnvOk(env: Env) {
    forall content :: env.detect(content).Some? ==> env.detect(content).value in BOOK_FORMATS
  }

  datatype Kind = Upload | Watch

  /** The primary key of a row. */
  datatype FileKey = FileKey(user: string, book: string, kind: Kind, source: string)

  datatype ObjectName = ObjectName(owner: string, book: string, format: string)

  datatype Files = Files(rows: map<FileKey, nat>, objects: map<ObjectName, Bytes>)

  datatype FileError = Invalid | TooLarge | Watched | NotFound | Failed

  type Outcome<+T> = Result<T, FileError>

  // ---- single effects ----

  /** `stage`: hash, check and detect, and put the object in place unless it is there already. */
  function Stage(s: Files, env: Env, user: string, content: Bytes, expected: string): Outcome<(Files, string)> {
    if |content| > env.maxUpload then Err(TooLarge)
    else if expected != "" && expected != env.hash(content) then Err(Invalid)
    else if env.detect(content).None? then Err(Invalid)
    else
      var name := ObjectName(user, env.hash(content), env.detect(content).value);
      Ok((if name in s.objects then s else s.(objects := s.objects[name := content]), name.book))
  }

  /** What may be uploaded when this digest is expected; an empty one is none. */
  predicate Acceptable(env: Env, content: Bytes, expected: string) {
    && |content| <= env.maxUpload && env.detect(content).Some?
    && (expected == "" || expected == env.hash(content))
  }

  function Answer(env: Env, content: Bytes, expected: string): Outcome<string> {
    if Acceptable(env, content, expected) then Ok(env.hash(content))
    else Err(if |content| > env.maxUpload then TooLarge else Invalid)
  }

  /** The user's object of this content is in the directory; it was put there now, or was there and stays. */
  predicate HoldsContent(was: map<ObjectName, Bytes>, now: map<ObjectName, Bytes>, user: string, content: Bytes,
      env: Env)
  {
    && env.detect(content).Some?
    && var name := ObjectName(user, env.hash(content), env.detect(content).value);
       now == if name in was then was else was[name := content]
  }

  predicate HasObject(s: Files, user: string, book: string) {
    exists format :: format in BOOK_FORMATS && ObjectName(user, book, format) in s.objects
  }

  function FirstFormat(s: Files, user: string, book: string, formats: seq<string>): string {
    if formats == [] then "epub"
    else if ObjectName(user, book, formats[0]) in s.objects then formats[0]
    else FirstFormat(s, user, book, formats[1..])
  }

  /** `objectPath`: the first format, in order, that is in the directory. */
  function ObjectPath(s: Files, user: string, book: string): ObjectName {
    ObjectName(user, book, FirstFormat(s, user, book, BOOK_FORMATS))
  }

  lemma {:induction false} PathReadsObjects(s: Files, t: Files, user: string, book: string, formats: seq<string>)
    requires s.objects == t.objects
    ensures FirstFormat(s, user, book, formats) == FirstFormat(t, user, book, formats)
  {
    if formats != [] {
      PathReadsObjects(s, t, user, book, formats[1..]);
    }
  }

  /** The path of a book with an object is one of its objects. */
  lemma {:induction false} PathIsObject(s: Files, user: string, book: string, formats: seq<string>, format: string)
    requires format in formats && ObjectName(user, book, format) in s.objects
    ensures ObjectName(user, book, FirstFormat(s, user, book, formats)) in s.objects
  {
    if formats[0] != format {
      PathIsObject(s, user, book, formats[1..], format);
    }
  }

  function RemoveObject(s: Files, user: string, book: string): Files {
    s.(objects := s.objects - {ObjectPath(s, user, book)})
  }

  function RowsOf(s: Files, user: string, book: string, kind: Kind): set<FileKey> {
    set k | k in s.rows && k.user == user && k.book == book && k.kind == kind
  }

  predicate IsWatchRow(k: FileKey, user: string, watch: string) {
    k.user == user && k.kind == Watch && watch + "/" <= k.source
  }

  function WithoutRows(s: Files, gone: set<FileKey>): Files {
    s.(rows := s.rows - gone)
  }

  function WatchRows(s: Files, user: string, watch: string): set<FileKey> {
    set k | k in s.rows && IsWatchRow(k, user, watch)
  }

  function OwnerRows(s: Files, owner: string): set<FileKey> {
    set k | k in s.rows && k.user == owner
  }

  /** One file of a walk that was staged. */
  datatype Item = Item(book: string, path: string, title: string, size: nat)

  function ItemKey(user: string, watch: string, item: Item): FileKey {
    FileKey(user, item.book, Watch, watch + "/" + item.path)
  }

  /** The folder of a path relative to the watched root. */
  function FolderOf(path: string): string {
    ParentPath(path)
  }

  /** The inserts of a scan's transaction; a repeated key or an invalid folder fails it. */
  function InsertItems(s: Files, user: string, watch: string, items: seq<Item>): Outcome<Files> {
    if items == [] then Ok(s)
    else
      var before := InsertItems(s, user, watch, items[..|items| - 1]);
      var item := items[|items| - 1];
      if before.Err? then before
      else if ItemKey(user, watch, item) in before.value.rows then Err(Failed)
      else if !Folders.ValidFolder(FolderOf(item.path)) then Err(Invalid)
      else Ok(before.value.(rows := before.value.rows[ItemKey(user, watch, item) := item.size]))
  }

  // ---- crash safety ----

  /** What a request that holds the file lock has done so far and will do next. */
  datatype Phase =
    | Idle
    | Staged(user: string, book: string, size: nat)
    | Scanning(watch: string, user: string, items: seq<Item>)
    | Removing(owner: string, books: seq<string>)

  /** The watched roots and libraries with their owners, and the phase of the lock holder. */
  datatype System = System(files: Files, watches: map<string, string>, libraries: map<string, string>, phase: Phase)

  /** One atomic effect. A crash forgets the phase; so does a request that fails. */
  datatype Effect =
    | StageUpload(user: string, content: Bytes, expected: string)
    | CommitUpload
    | CommitDelete(user: string, book: string)
    | AddWatch(watch: string, user: string)
    | AddLibrary(library: string, owner: string)
    | BeginScan(watch: string)
    | StageItem(path: string, title: string, content: Bytes)
    | CommitScan
    | CommitRemoveWatch(watch: string)
    | CommitDeleteLibrary(library: string, books: seq<string>)
    | RemoveNext
    | Crash

  function Do(sys: System, effect: Effect, env: Env): System {
    match effect
    case StageUpload(user, content, expected) =>
      var out := Stage(sys.files, env, user, content, expected);
      if sys.phase != Idle || out.Err? then sys
      else sys.(files := out.value.0, phase := Staged(user, out.value.1, |content|))
    case CommitUpload =>
      if !sys.phase.Staged? then sys
      else
        var key := FileKey(sys.phase.user, sys.phase.book, Upload, "");
        sys.(files := sys.files.(rows := sys.files.rows[key := sys.phase.size]), phase := Idle)
    case CommitDelete(user, book) =>
      if sys.phase != Idle || RowsOf(sys.files, user, book, Upload) == {} then sys
      else
        sys.(files := WithoutRows(sys.files, RowsOf(sys.files, user, book, Upload)),
             phase := if RowsOf(sys.files, user, book, Watch) == {} then Removing(user, [book]) else Idle)
    case AddWatch(watch, user) => if watch in sys.watches then sys else sys.(watches := sys.watches[watch := user])
    case AddLibrary(library, owner) =>
      if library in sys.libraries then sys else sys.(libraries := sys.libraries[library := owner])
    case BeginScan(watch) =>
      if sys.phase != Idle || watch !in sys.watches then sys
      else sys.(phase := Scanning(watch, sys.watches[watch], []))
    case StageItem(path, title, content) =>
      if !sys.phase.Scanning? then sys
      else
        var out := Stage(sys.files, env, sys.phase.user, content, "");
        if out.Err? then sys.(phase := Idle)
        else sys.(files := out.value.0,
                  phase := sys.phase.(items := sys.phase.items + [Item(out.value.1, path, title, |content|)]))
    case CommitScan =>
      if !sys.phase.Scanning? then sys
      else
        var user, watch := sys.phase.user, sys.phase.watch;
        var out := InsertItems(WithoutRows(sys.files, WatchRows(sys.files, user, watch)), user, watch, sys.phase.items);
        sys.(files := if out.Ok? then out.value else sys.files, phase := Idle)
    case CommitRemoveWatch(watch) =>
      if sys.phase != Idle || watch !in sys.watches then sys
      else sys.(files := WithoutRows(sys.files, WatchRows(sys.files, sys.watches[watch], watch)),
                watches := sys.watches - {watch})
    case CommitDeleteLibrary(library, books) =>
      if sys.phase != Idle || library !in sys.libraries then sys
      else
        var owner := sys.libraries[library];
        sys.(files := WithoutRows(sys.files, OwnerRows(sys.files, owner)),
             watches := map w | w in sys.watches && sys.watches[w] != owner :: sys.watches[w],
             libraries := sys.libraries - {library}, phase := Removing(owner, books))
    case RemoveNext =>
      if !sys.phase.Removing? then sys
      else if sys.phase.books == [] then sys.(phase := Idle)
      else sys.(files := RemoveObject(sys.files, sys.phase.owner, sys.phase.books[0]),
                phase := sys.phase.(books := sys.phase.books[1..]))
    case Crash => sys.(phase := Idle)
  }

  /** Every row of the table has its object in the directory. */
  ghost predicate Backed(s: Files) {
    forall k :: k in s.rows ==> HasObject(s, k.user, k.book)
  }

  /** Every object is named by its digest and its detected format. */
  ghost predicate Sound(s: Files, env: Env) {
    forall o :: o in s.objects ==>
      o.book == env.hash(s.objects[o]) && env.detect(s.objects[o]) == Some(o.format) && o.format in BOOK_FORMATS
  }

  ghost predicate PhaseOk(sys: System) {
    match sys.phase
    case Idle => true
    case Staged(user, book, _) => HasObject(sys.files, user, book)
    case Scanning(_, user, items) => forall item :: item in items ==> HasObject(sys.files, user, item.book)
    case Removing(owner, books) => forall k :: k in sys.files.rows ==> k.user == owner ==> k.book !in books
  }

  ghost predicate SystemOk(sys: System, env: Env) {
    Backed(sys.files) && Sound(sys.files, env) && PhaseOk(sys)
  }

  lemma StageFacts(s: Files, env: Env, user: string, content: Bytes, expected: string)
    requires EnvOk(env) && Stage(s, env, user, content, expected).Ok?
    ensures var (t, book) := Stage(s, env, user, content, expected).value;
            && t.rows == s.rows && book == env.hash(content) && HasObject(t, user, book)
            && (forall o :: o in s.objects ==> o in t.objects && t.objects[o] == s.objects[o])
            && (Sound(s, env) ==> Sound(t, env))
  {
    var t := Stage(s, env, user, content, expected).value.0;
    assert ObjectName(user, env.hash(content), env.detect(content).value) in t.objects;
  }

  lemma MoreObjectsStillBacked(s: Files, t: Files, user: string, book: string)
    requires HasObject(s, user, book) && forall o :: o in s.objects ==> o in t.objects
    ensures HasObject(t, user, book)
  {
    var format :| format in BOOK_FORMATS && ObjectName(user, book, format) in s.objects;
    assert ObjectName(user, book, format) in t.objects;
  }

  lemma StageKeepsOk(sys: System, env: Env, user: string, content: Bytes, expected: string)
    requires SystemOk(sys, env) && EnvOk(env) && Stage(sys.files, env, user, content, expected).Ok?
    ensures var t := Stage(sys.files, env, user, content, expected).value.0;
            Backed(t) && Sound(t, env) && PhaseOk(sys.(files := t))
  {
    StageFacts(sys.files, env, user, content, expected);
    var t := Stage(sys.files, env, user, content, expected).value.0;
    forall u, b | HasObject(sys.files, u, b) ensures HasObject(t, u, b) {
      MoreObjectsStillBacked(sys.files, t, u, b);
    }
  }

  /** Removing the object of a book without rows leaves every other object. */
  lemma RemoveKeepsOthers(s: Files, owner: string, book: string)
    requires Backed(s) && forall k :: k in s.rows ==> k.user == owner ==> k.book != book
    ensures Backed(RemoveObject(s, owner, book))
  {
    var t := RemoveObject(s, owner, book);
    forall k | k in t.rows ensures HasObject(t, k.user, k.book) {
      assert HasObject(s, k.user, k.book);
      var format :| format in BOOK_FORMATS && ObjectName(k.user, k.book, format) in s.objects;
      assert ObjectName(k.user, k.book, format) in t.objects;
    }
  }

  function ItemKeys(user: string, watch: string, items: seq<Item>): set<FileKey> {
    set item | item in items :: ItemKey(user, watch, item)
  }

  lemma ItemKeysSnoc(user: string, watch: string, items: seq<Item>)
    requires items != []
    ensures ItemKeys(user, watch, items) ==
              ItemKeys(user, watch, items[..|items| - 1]) + {ItemKey(user, watch, items[|items| - 1])}
  {
    assert items == items[..|items| - 1] + [items[|items| - 1]];
  }

  lemma {:induction false} InsertItemsFacts(s: Files, user: string, watch: string, items: seq<Item>)
    requires InsertItems(s, user, watch, items).Ok?
    ensures var t := InsertItems(s, user, watch, items).value;
            && t.objects == s.objects
            && t.rows.Keys == s.rows.Keys + ItemKeys(user, watch, items)
            && forall k :: k in s.rows ==> t.rows[k] == s.rows[k]
  {
    if items != [] {
      InsertItemsFacts(s, user, watch, items[..|items| - 1]);
      ItemKeysSnoc(user, watch, items);
    }
  }

  predicate HasSize(rows: map<FileKey, nat>, user: string, watch: string, item: Item) {
    ItemKey(user, watch, item) in rows && rows[ItemKey(user, watch, item)] == item.size
  }

  lemma {:induction false} InsertItemsSizes(s: Files, user: string, watch: string, items: seq<Item>)
    requires InsertItems(s, user, watch, items).Ok?
    ensures forall i :: 0 <= i < |items| ==>
              HasSize(InsertItems(s, user, watch, items).value.rows, user, watch, items[i])
  {
    if items != [] {
      var front, last := items[..|items| - 1], items[|items| - 1];
      InsertItemsSizes(s, user, watch, front);
      var before, after := InsertItems(s, user, watch, front).value.rows, InsertItems(s, user, watch, items).value.rows;
      assert after == before[ItemKey(user, watch, last) := last.size] && ItemKey(user, watch, last) !in before;
      forall i | 0 <= i < |items| ensures HasSize(after, user, watch, items[i]) {
        if i < |front| {
          assert HasSize(before, user, watch, front[i]);
        }
      }
    }
  }

  lemma StagedOk(sys: System, effect: Effect, env: Env)
    requires SystemOk(sys, env) && EnvOk(env) && (effect.StageUpload? || effect.StageItem?)
    ensures SystemOk(Do(sys, effect, env), env)
  {
    var user := if effect.StageUpload? then effect.user else if sys.phase.Scanning? then sys.phase.user else "";
    var expected := if effect.StageUpload? then effect.expected else "";
    if Stage(sys.files, env, user, effect.content, expected).Ok? {
      StageKeepsOk(sys, env, user, effect.content, expected);
      StageFacts(sys.files, env, user, effect.content, expected);
    }
  }

  lemma CommitScanOk(sys: System, env: Env)
    requires SystemOk(sys, env)
    ensures SystemOk(Do(sys, CommitScan, env), env)
  {
    if sys.phase.Scanning? {
      var user, watch := sys.phase.user, sys.phase.watch;
      var cleared := WithoutRows(sys.files, WatchRows(sys.files, user, watch));
      var out := InsertItems(cleared, user, watch, sys.phase.items);
      if out.Ok? {
        InsertItemsFacts(cleared, user, watch, sys.phase.items);
        CommitScanBacked(sys.files, cleared, out.value, user, watch, sys.phase.items);
      }
    }
  }

  lemma RemovalOk(sys: System, effect: Effect, env: Env)
    requires SystemOk(sys, env) && (effect.RemoveNext? || effect.CommitDelete?)
    ensures SystemOk(Do(sys, effect, env), env)
  {
    if effect.CommitDelete? {
      DeleteLeavesNoRows(sys, effect.user, effect.book);
    } else if sys.phase.Removing? && sys.phase.books != [] {
      assert sys.phase.books[0] in sys.phase.books;
      RemoveKeepsOthers(sys.files, sys.phase.owner, sys.phase.books[0]);
    }
  }

  /** Every single effect, crashes included, keeps every row backed by its object. */
  lemma EffectOk(sys: System, effect: Effect, env: Env)
    requires SystemOk(sys, env) && EnvOk(env)
    ensures SystemOk(Do(sys, effect, env), env)
  {
    match effect {
      case StageUpload(_, _, _) => StagedOk(sys, effect, env);
      case StageItem(_, _, _) => StagedOk(sys, effect, env);
      case CommitScan => CommitScanOk(sys, env);
      case CommitDelete(_, _) => RemovalOk(sys, effect, env);
      case RemoveNext => RemovalOk(sys, effect, env);
      case CommitUpload =>
      case AddWatch(_, _) =>
      case AddLibrary(_, _) =>
      case BeginScan(_) =>
      case CommitRemoveWatch(_) =>
      case CommitDeleteLibrary(_, _) =>
      case Crash =>
    }
  }

  lemma CommitScanBacked(s: Files, cleared: Files, t: Files, user: string, watch: string, items: seq<Item>)
    requires Backed(s) && cleared.objects == s.objects == t.objects && cleared.rows.Keys <= s.rows.Keys
    requires t.rows.Keys == cleared.rows.Keys + ItemKeys(user, watch, items)
    requires forall item :: item in items ==> HasObject(s, user, item.book)
    ensures Backed(t)
  {
    forall k | k in t.rows ensures HasObject(t, k.user, k.book) {
      if k in cleared.rows {
        MoreObjectsStillBacked(s, t, k.user, k.book);
      } else {
        var item :| item in items && k == ItemKey(user, watch, item);
        MoreObjectsStillBacked(s, t, user, item.book);
      }
    }
  }

  /** After the upload rows go and no watch row was there, no row of the book is left. */
  lemma DeleteLeavesNoRows(sys: System, user: string, book: string)
    ensures RowsOf(sys.files, user, book, Watch) == {} ==>
              forall k :: k in WithoutRows(sys.files, RowsOf(sys.files, user, book, Upload)).rows ==>
                k.user == user ==> k.book != book
  {
    var uploads, watched := RowsOf(sys.files, user, book, Upload), RowsOf(sys.files, user, book, Watch);
    forall k | k in sys.files.rows && k.user == user && k.book == book ensures k in uploads || k in watched {
      assert k.kind == Upload || k.kind == Watch;
    }
  }

  function Run(sys: System, effects: seq<Effect>, env: Env): System {
    if effects == [] then sys else Do(Run(sys, effects[..|effects| - 1], env), effects[|effects| - 1], env)
  }

  /** In every state any run reaches, crashes anywhere, every row has its object, and every object is
      named by its digest and format; so no book has objects of two formats. */
  lemma {:induction false} RunBacked(sys: System, effects: seq<Effect>, env: Env)
    requires SystemOk(sys, env) && EnvOk(env)
    ensures SystemOk(Run(sys, effects, env), env)
  {
    if effects != [] {
      RunBacked(sys, effects[..|effects| - 1], env);
      EffectOk(Run(sys, effects[..|effects| - 1], env), effects[|effects| - 1], env);
    }
  }

  /** SHA-256 being injective, equal digests mean equal content and so one format. */
  lemma OneFormatPerBook(s: Files, env: Env, a: ObjectName, b: ObjectName)
    requires Sound(s, env) && a in s.objects && b in s.objects && a.book == b.book
    requires forall x: Bytes, y: Bytes :: env.hash(x) == env.hash(y) ==> x == y
    ensures s.objects[a] == s.objects[b] && a.format == b.format
  {
    assert env.hash(s.objects[a]) == env.hash(s.objects[b]);
  }

  // ---- where rows come from ----

  /** This effect offered an acceptable content with this digest and size: an upload for an upload's row, and a scanned
      file for a watch's. */
  predicate Offers(env: Env, effect: Effect, kind: Kind, book: string, size: nat) {
    match effect
    case StageUpload(_, content, expected) =>
      kind == Upload && Acceptable(env, content, expected) && book == env.hash(content) && size == |content|
    case StageItem(_, _, content) =>
      kind == Watch && Acceptable(env, content, "") && book == env.hash(content) && size == |content|
    case _ => false
  }

  ghost predicate Offered(env: Env, effects: seq<Effect>, kind: Kind, book: string, size: nat) {
    exists i :: 0 <= i < |effects| && Offers(env, effects[i], kind, book, size)
  }

  ghost predicate RowsOffered(start: System, sys: System, effects: seq<Effect>, env: Env) {
    forall k :: k in sys.files.rows ==>
      || (k in start.files.rows && sys.files.rows[k] == start.files.rows[k])
      || Offered(env, effects, k.kind, k.book, sys.files.rows[k])
  }

  ghost predicate PhaseOffered(sys: System, effects: seq<Effect>, env: Env) {
    match sys.phase
    case Staged(_, book, size) => Offered(env, effects, Upload, book, size)
    case Scanning(_, _, items) =>
      forall i :: 0 <= i < |items| ==> Offered(env, effects, Watch, items[i].book, items[i].size)
    case _ => true
  }

  lemma OfferedMore(env: Env, effects: seq<Effect>, effect: Effect, kind: Kind, book: string, size: nat)
    requires Offered(env, effects, kind, book, size) || Offers(env, effect, kind, book, size)
    ensures Offered(env, effects + [effect], kind, book, size)
  {
    var more := effects + [effect];
    if Offered(env, effects, kind, book, size) {
      var i :| 0 <= i < |effects| && Offers(env, effects[i], kind, book, size);
      assert more[i] == effects[i];
    } else {
      assert more[|effects|] == effect;
    }
  }

  lemma RowsOfferedMore(start: System, sys: System, effects: seq<Effect>, effect: Effect, env: Env)
    requires RowsOffered(start, sys, effects, env) && PhaseOffered(sys, effects, env)
    ensures RowsOffered(start, sys, effects + [effect], env) && PhaseOffered(sys, effects + [effect], env)
  {
    forall kind, book, size | Offered(env, effects, kind, book, size)
      ensures Offered(env, effects + [effect], kind, book, size)
    {
      OfferedMore(env, effects, effect, kind, book, size);
    }
  }

  lemma StageOffers(start: System, sys: System, effects: seq<Effect>, effect: Effect, env: Env)
    requires RowsOffered(start, sys, effects, env) && PhaseOffered(sys, effects, env)
    requires effect.StageUpload? || effect.StageItem?
    ensures var after := Do(sys, effect, env);
            RowsOffered(start, after, effects + [effect], env) && PhaseOffered(after, effects + [effect], env)
  {
    RowsOfferedMore(start, sys, effects, effect, env);
    var kind := if effect.StageUpload? then Upload else Watch;
    if Offers(env, effect, kind, env.hash(effect.content), |effect.content|) {
      OfferedMore(env, effects, effect, kind, env.hash(effect.content), |effect.content|);
    }
  }

  lemma EffectOffers(start: System, sys: System, effects: seq<Effect>, effect: Effect, env: Env)
    requires RowsOffered(start, sys, effects, env) && PhaseOffered(sys, effects, env)
    ensures var after := Do(sys, effect, env);
            RowsOffered(start, after, effects + [effect], env) && PhaseOffered(after, effects + [effect], env)
  {
    if effect.StageUpload? || effect.StageItem? {
      StageOffers(start, sys, effects, effect, env);
    } else {
      RowsOfferedMore(start, sys, effects, effect, env);
      if effect.CommitScan? && sys.phase.Scanning? {
        CommitOffers(start, sys, effects + [effect], env);
      }
    }
  }

  lemma CommitOffers(start: System, sys: System, effects: seq<Effect>, env: Env)
    requires sys.phase.Scanning? && RowsOffered(start, sys, effects, env) && PhaseOffered(sys, effects, env)
    ensures RowsOffered(start, Do(sys, CommitScan, env), effects, env)
  {
    var user, watch, items := sys.phase.user, sys.phase.watch, sys.phase.items;
    var cleared := WithoutRows(sys.files, WatchRows(sys.files, user, watch));
    var out := InsertItems(cleared, user, watch, items);
    if out.Ok? {
      InsertItemsFacts(cleared, user, watch, items);
      forall k | k in out.value.rows && k !in cleared.rows
        ensures Offered(env, effects, k.kind, k.book, out.value.rows[k])
      {
        InsertedOffered(cleared, user, watch, items, effects, env, k);
      }
    }
  }

  lemma InsertedOffered(cleared: Files, user: string, watch: string, items: seq<Item>, effects: seq<Effect>,
      env: Env, k: FileKey)
    requires InsertItems(cleared, user, watch, items).Ok? && k in ItemKeys(user, watch, items)
    requires forall i :: 0 <= i < |items| ==> Offered(env, effects, Watch, items[i].book, items[i].size)
    ensures k in InsertItems(cleared, user, watch, items).value.rows
    ensures Offered(env, effects, k.kind, k.book, InsertItems(cleared, user, watch, items).value.rows[k])
  {
    InsertItemsSizes(cleared, user, watch, items);
    var item :| item in items && k == ItemKey(user, watch, item);
    var i :| 0 <= i < |items| && items[i] == item;
    assert HasSize(InsertItems(cleared, user, watch, items).value.rows, user, watch, items[i]);
  }

  /** Whatever effects a run consists of, each of its rows was there at the start, or an acceptable content of that
      digest and size was offered: by an upload with no other digest expected, or by a scanned file. */
  lemma {:induction false} RowsComeFromContent(start: System, effects: seq<Effect>, env: Env)
    requires start.phase == Idle
    ensures var sys := Run(start, effects, env);
            RowsOffered(start, sys, effects, env) && PhaseOffered(sys, effects, env)
  {
    if effects != [] {
      var front := effects[..|effects| - 1];
      RowsComeFromContent(start, front, env);
      EffectOffers(start, Run(start, front, env), front, effects[|effects| - 1], env);
      assert effects == front + [effects[|effects| - 1]];
    }
  }

  /** After a library goes, no row and no watch of its owner is left, and those of all others are as they were. */
  ghost predicate OwnerGone(was: System, now: System, library: string)
    requires library in was.libraries
  {
    var owner := was.libraries[library];
    && now.libraries == was.libraries - {library}
    && (forall k :: k in now.files.rows <==> k in was.files.rows && k.user != owner)
    && (forall k :: k in now.files.rows ==> now.files.rows[k] == was.files.rows[k])
    && (forall w :: w in now.watches <==> w in was.watches && was.watches[w] != owner)
    && (forall w :: w in now.watches ==> now.watches[w] == was.watches[w])
    && (forall o :: o in now.files.objects ==> o in was.files.objects &&
                                               now.files.objects[o] == was.files.objects[o])
  }

  // ---- the requests ----

  class FileStore {
    var rows: map<FileKey, nat>
    var objects: map<ObjectName, Bytes>
    var watches: map<string, string>
    var libraries: map<string, string>
    const env: Env

    constructor (env: Env)
      ensures State() == System(Files(map[], map[]), map[], map[], Idle) && this.env == env
    {
      rows, objects, watches, libraries := map[], map[], map[], map[];
      this.env := env;
    }

    function Contents(): Files
      reads this
    {
      Files(rows, objects)
    }

    function State(): System
      reads this
    {
      System(Contents(), watches, libraries, Idle)
    }

    method StageObject(user: string, content: Bytes, expected: string) returns (out: Outcome<string>)
      modifies this`objects
      ensures match Stage(old(Contents()), env, user, content, expected)
              case Err(e) => out == Err(e) && Contents() == old(Contents())
              case Ok(staged) => out == Ok(staged.1) && Contents() == staged.0
      ensures out == Answer(env, content, expected)
      ensures out.Err? ==> objects == old(objects)
      ensures out.Ok? ==> HoldsContent(old(objects), objects, user, content, env)
    {
      if |content| > env.maxUpload {
        return Err(TooLarge);
      }
      var id := env.hash(content);
      if expected != "" && expected != id {
        return Err(Invalid);
      }
      var format := env.detect(content);
      if format.None? {
        return Err(Invalid);
      }
      var target := ObjectName(user, id, format.value);
      if target !in objects {
        objects := objects[target := content];
      }
      return Ok(id);
    }

    /** An upload is its two effects, and nothing on failure. It is accepted exactly when the content is within the
        limit, has a known format, and has the expected digest if one is given; then its object is in the directory,
        its row holds its size, and no other object and no other row is touched. */
    method UploadFile(owner: string, content: Bytes, expected: string) returns (out: Outcome<string>)
      modifies this`objects, this`rows
      ensures State() == Run(old(State()), [StageUpload(owner, content, expected), CommitUpload], env)
      ensures out.Err? ==> State() == old(State())
      ensures out.Ok? <==> Acceptable(env, content, expected)
      ensures out.Err? ==> out.error == if |content| > env.maxUpload then TooLarge else Invalid
      ensures out.Ok? ==> out.value == env.hash(content)
      ensures out.Ok? ==> rows == old(rows)[FileKey(owner, env.hash(content), Upload, "") := |content|]
      ensures out.Ok? ==> HoldsContent(old(objects), objects, owner, content, env)
    {
      ghost var effects := [StageUpload(owner, content, expected), CommitUpload];
      assert effects[..1] == [effects[0]] && effects[..1][..0] == [];
      assert Run(old(State()), effects[..1], env) == Do(old(State()), effects[0], env);
      out := StageObject(owner, content, expected);
      if out.Ok? {
        rows := rows[FileKey(owner, out.value, Upload, "") := |content|];
      }
    }

    /** Deleting an upload leaves every watch row and every row of other books and users, and removes the
        object only when no row of that owner and book remains. */
    method DeleteUpload(user: string, book: string) returns (out: Outcome<()>)
      modifies this`objects, this`rows
      ensures State() == Run(old(State()), [CommitDelete(user, book), RemoveNext, RemoveNext], env)
      ensures out.Ok? <==> exists k :: k in old(rows) && k.user == user && k.book == book && k.kind == Upload
      ensures out == Err(Watched) <==> out.Err? && exists k :: k in old(rows) && k.user == user && k.book == book
      ensures forall k :: k in old(rows) && (k.user != user || k.book != book || k.kind == Watch) ==>
                k in rows && rows[k] == old(rows)[k]
      ensures forall k :: k in rows ==>
                k in old(rows) && (out.Ok? ==> k.user != user || k.book != book || k.kind == Watch)
      ensures objects != old(objects) ==> forall k :: k in rows ==> k.user != user || k.book != book
      ensures out.Ok? && (forall k :: k in rows ==> k.user != user || k.book != book) ==>
                objects == old(objects) - {ObjectPath(old(Contents()), user, book)}
    {
      ghost var start := State();
      ThreeEffects(start, CommitDelete(user, book), RemoveNext, RemoveNext, env);
      var uploads, watched := RowsOf(Contents(), user, book, Upload), RowsOf(Contents(), user, book, Watch);
      if uploads == {} {
        assert forall k :: k in rows && k.user == user && k.book == book ==> k.kind == Upload || k in watched;
        assert forall k :: k in rows && k.user == user && k.book == book && k.kind == Upload ==> k in uploads;
        if watched != {} {
          var k :| k in watched;
          return Err(Watched);
        }
        return Err(NotFound);
      }
      var upload :| upload in uploads;
      DeleteLeavesNoRows(start, user, book);
      rows := rows - uploads;
      if watched == {} {
        PathReadsObjects(Contents(), old(Contents()), user, book, BOOK_FORMATS);
        objects := objects - {ObjectPath(Contents(), user, book)};
      }
      return Ok(());
    }

    /** The identifier is random; a used one fails the insert. */
    method AddWatchedRoot(watch: string, user: string) returns (ok: bool)
      modifies this`watches
      ensures State() == Do(old(State()), AddWatch(watch, user), env)
      ensures ok == (watch !in old(watches)) && watches == if ok then old(watches)[watch := user] else old(watches)
    {
      ok := watch !in watches;
      if ok {
        watches := watches[watch := user];
      }
    }

    method CreateLibrary(library: string, owner: string) returns (ok: bool)
      modifies this`libraries
      ensures State() == Do(old(State()), AddLibrary(library, owner), env)
      ensures ok == (library !in old(libraries))
      ensures libraries == if ok then old(libraries)[library := owner] else old(libraries)
    {
      ok := library !in libraries;
      if ok {
        libraries := libraries[library := owner];
      }
    }

    method RemoveWatch(watch: string) returns (out: Outcome<()>)
      modifies this`rows, this`watches
      ensures State() == Do(old(State()), CommitRemoveWatch(watch), env)
      ensures out == if watch in old(watches) then Ok(()) else Err(NotFound)
      ensures watches == old(watches) - {watch}
      ensures forall k :: k in rows <==>
                k in old(rows) && (watch in old(watches) ==> !IsWatchRow(k, old(watches)[watch], watch))
      ensures forall k :: k in rows ==> rows[k] == old(rows)[k]
    {
      if watch !in watches {
        return Err(NotFound);
      }
      rows := rows - WatchRows(Contents(), watches[watch], watch);
      watches := watches - {watch};
      return Ok(());
    }

    /** Deleting a library removes its owner's rows in one commit, then the objects one by one. The
        sequence of books is what the query before the commit returned. */
    method DeleteLibrary(library: string, books: seq<string>) returns (out: Outcome<()>)
      modifies this
      ensures library !in old(libraries) ==> out == Err(NotFound) && State() == old(State())
      ensures library in old(libraries) ==>
                out.Ok? && State().(phase := Removing(old(libraries)[library], [])) ==
                  RemoveAll(Do(old(State()), CommitDeleteLibrary(library, books), env), |books|, env)
      ensures library in old(libraries) ==>
                && OwnerGone(old(State()), State(), library)
                && forall o :: o in old(objects) && o !in objects ==>
                     o.owner == old(libraries)[library] && o.book in books
    {
      if library !in libraries {
        return Err(NotFound);
      }
      ghost var committed := Do(State(), CommitDeleteLibrary(library, books), env);
      var owner := libraries[library];
      rows := rows - OwnerRows(Contents(), owner);
      watches := map w | w in watches && watches[w] != owner :: watches[w];
      libraries := libraries - {library};
      RemoveObjects(owner, books, committed);
      return Ok(());
    }

    /** The objects of a deleted library's books, one by one. */
    method RemoveObjects(owner: string, books: seq<string>, ghost committed: System)
      requires State().(phase := Removing(owner, books)) == committed
      modifies this`objects
      ensures State().(phase := Removing(owner, [])) == RemoveAll(committed, |books|, env)
      ensures forall o :: o in old(objects) && o !in objects ==> o.owner == owner && o.book in books
      ensures forall o :: o in objects ==> o in old(objects) && objects[o] == old(objects)[o]
    {
      for i := 0 to |books|
        invariant State().(phase := Removing(owner, books[i..])) == RemoveAll(committed, i, env)
        invariant forall o :: o in old(objects) && o !in objects ==> o.owner == owner && o.book in books
        invariant forall o :: o in objects ==> o in old(objects) && objects[o] == old(objects)[o]
      {
        assert books[i..][1..] == books[i + 1..];
        objects := objects - {ObjectPath(Contents(), owner, books[i])};
      }
    }
  }

  function RemoveAll(sys: System, n: nat, env: Env): System {
    if n == 0 then sys else Do(RemoveAll(sys, n - 1, env), RemoveNext, env)
  }

  lemma RunSnoc(sys: System, effects: seq<Effect>, effect: Effect, env: Env)
    ensures Run(sys, effects + [effect], env) == Do(Run(sys, effects, env), effect, env)
  {
    assert (effects + [effect])[..|effects|] == effects;
  }

  lemma ThreeEffects(sys: System, a: Effect, b: Effect, c: Effect, env: Env)
    ensures Run(sys, [a, b, c], env) == Do(Do(Do(sys, a, env), b, env), c, env)
  {
    RunSnoc(sys, [], a, env);
    RunSnoc(sys, [a], b, env);
    RunSnoc(sys, [a, b], c, env);
    assert [] + [a] == [a] && [a] + [b] == [a, b] && [a, b] + [c] == [a, b, c];
  }
}
