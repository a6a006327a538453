/** Comic archives (internal/server/comic_archives.go): the bounded inspection of a CBR or CB7 in archive order. */
module Comics {
  import opened Text
  import opened Avif
  import F = Folders
  import J = Json

  datatype Mode = Regular | Directory | Symlink | Special

  /** One archive member with the size its header states and the bytes its stream yields. */
  datatype Member = Member(name: string, size: nat, mode: Mode, encrypted: bool, content: Buffer)

  datatype Info = Info(title: string, author: string, series: string)

  datatype Metadata = Metadata(cover: string, info: Info)

  /** The rules on names as functions, for which `WithProgramRules` puts in those of the program; image headers,
      thumbnails and the ComicInfo parser. */
  datatype Decoders = Decoders(
    nameOk: string -> bool, zipNameOk: string -> bool,
    isImage: string -> bool, isAvif: string -> bool, isInfo: string -> bool,
    config: Buffer -> Option<(nat, nat)>, thumbnail: Buffer -> string, parse: Buffer -> Option<Info>)

  const U64 := 0x1_0000_0000_0000_0000
  const MiB := 1024 * 1024
  const EXPANSION := 512 * MiB
  const MAX_STORED := 8 * 1024 * MiB
  const MAX_MEMBERS := 10000

  // ---- names ----

  function TrimSlash(name: string): string {
    if name != "" && name[|name| - 1] == '/' then name[..|name| - 1] else name
  }

  /** Go's `path.Clean(p) == p` for a relative path that does not climb. */
  predicate CleanPath(p: string) {
    p == "." || forall part :: part in Split(p, '/') ==> part != "" && part != "." && part != ".."
  }

  predicate NameOk(name: string) {
    var clean := TrimSlash(name);
    && ByteLen(name) <= 4096 && CleanPath(clean)
    && forall c :: c in clean ==> c != '\\' && c != ':' && !F.IsControl(c)
  }

  /** The rule of the ZIP loop, which does not bound the length and lets control characters pass. */
  predicate ZipNameOk(name: string) {
    CleanPath(TrimSlash(name)) && forall c :: c in TrimSlash(name) ==> c != '\\' && c != ':'
  }

  function Extension(name: string): string {
    var pieces := Split(LastPart(name), '.');
    if |pieces| == 1 then "" else "." + pieces[|pieces| - 1]
  }

  predicate IsImage(name: string) {
    Lower(Extension(name)) in {".png", ".jpg", ".jpeg", ".gif", ".webp", ".bmp", ".avif"}
  }

  predicate IsInfo(name: string) {
    J.Fold(LastPart(TrimSlash(name))) == "comicinfo.xml"
  }

  predicate IsAvifName(name: string) {
    J.Fold(Extension(name)) == ".avif"
  }

  /** The program's rules; what is proved for any rules holds for these. */
  function WithProgramRules(d: Decoders): Decoders {
    d.(nameOk := NameOk, zipNameOk := ZipNameOk, isImage := IsImage, isAvif := IsAvifName, isInfo := IsInfo)
  }

  // ---- what a member must satisfy, and what it can contribute ----

  predicate HeaderOk(m: Member, d: Decoders) {
    && TrimSlash(m.name) != "" && d.nameOk(m.name) && (m.mode == Regular || m.mode == Directory) && !m.encrypted
    && (d.isImage(m.name) ==> m.size <= 32 * MiB) && (d.isInfo(m.name) ==> m.size <= MiB)
  }

  predicate ImageOk(m: Member, d: Decoders) {
    if d.isAvif(m.name) then Boxes(m.content).Some? && IsAvif(Boxes(m.content).value)
    else
      match d.config(m.content)
      case None => false
      case Some((w, h)) => w > 0 && h > 0 && w * h <= 100_000_000
  }

  predicate ContentOk(m: Member, d: Decoders) {
    |m.content| == m.size && (d.isImage(m.name) ==> ImageOk(m, d))
  }

  /** The two things that inspection keeps: a cover image, and the bibliographic record. */
  datatype Role = Cover | Record

  predicate Good(m: Member, role: Role, d: Decoders) {
    match role
    case Cover => d.isImage(m.name) && |m.content| <= 8 * MiB && d.thumbnail(m.content) != ""
    case Record => d.isInfo(m.name) && d.parse(m.content).Some?
  }

  function Sizes(members: seq<Member>): nat {
    if members == [] then 0 else Sizes(members[..|members| - 1]) + members[|members| - 1].size
  }

  function Cleans(members: seq<Member>): set<string> {
    set m | m in members :: TrimSlash(m.name)
  }

  predicate HeadersOk(members: seq<Member>, budget: nat, d: Decoders) {
    && |members| <= MAX_MEMBERS && |Cleans(members)| == |members| && Sizes(members) <= budget
    && forall m :: m in members ==> HeaderOk(m, d)
  }

  predicate Acceptable(members: seq<Member>, budget: nat, d: Decoders) {
    && HeadersOk(members, budget, d)
    && ContentsOk(members, d) && HasImage(members, d)
  }

  /** The kept candidate after the members so far: a later one replaces it only with a smaller name. */
  function Kept(members: seq<Member>, role: Role, d: Decoders): Option<Member> {
    if members == [] then None
    else
      var kept, last := Kept(members[..|members| - 1], role, d), members[|members| - 1];
      if Good(last, role, d) && (kept.None? || Less(last.name, kept.value.name)) then Some(last) else kept
  }

  function CoverOf(kept: Option<Member>, d: Decoders): string {
    if kept.Some? then d.thumbnail(kept.value.content) else ""
  }

  function RecordOf(kept: Option<Member>, d: Decoders): Info {
    if kept.Some? && d.parse(kept.value.content).Some? then d.parse(kept.value.content).value else Info("", "", "")
  }

  function MetadataOf(members: seq<Member>, d: Decoders): Metadata {
    Metadata(CoverOf(Kept(members, Cover, d), d), RecordOf(Kept(members, Record, d), d))
  }

  function KeptName(members: seq<Member>, role: Role, d: Decoders): string {
    var kept := Kept(members, role, d);
    if kept.Some? then kept.value.name else ""
  }

  /** The candidate with the least name. */
  ghost predicate IsLeast(members: seq<Member>, role: Role, d: Decoders, kept: Option<Member>) {
    match kept
    case None => forall m :: m in members ==> !Good(m, role, d)
    case Some(k) =>
      k in members && Good(k, role, d) && forall m :: m in members && Good(m, role, d) ==> !Less(m.name, k.name)
  }

  lemma {:induction false} KeptIsLeast(members: seq<Member>, role: Role, d: Decoders)
    ensures IsLeast(members, role, d, Kept(members, role, d))
  {
    if members != [] {
      var front, last := members[..|members| - 1], members[|members| - 1];
      KeptIsLeast(front, role, d);
      assert members == front + [last];
      var kept := Kept(front, role, d);
      LessIrreflexive(last.name);
      if kept.Some? && Good(last, role, d) && Less(last.name, kept.value.name) {
        forall m | m in members && Good(m, role, d) ensures !Less(m.name, last.name) {
          if m in front && Less(m.name, last.name) {
            LessTransitive(m.name, last.name, kept.value.name);
          }
        }
      }
    }
  }

  lemma KeptSnoc(members: seq<Member>, m: Member, role: Role, d: Decoders)
    requires forall x :: x in members ==> x.name != ""
    ensures var name := KeptName(members, role, d);
            Kept(members + [m], role, d) ==
              if Good(m, role, d) && (name == "" || Less(m.name, name)) then Some(m) else Kept(members, role, d)
  {
    assert (members + [m])[..|members|] == members;
    KeptIsLeast(members, role, d);
  }

  // ---- the inspection ----

  /** Whether one more member keeps the headers within their limits. */
  predicate Admissible(m: Member, total: nat, seen: set<string>, budget: nat, d: Decoders) {
    |seen| < MAX_MEMBERS && TrimSlash(m.name) !in seen && total + m.size <= budget && HeaderOk(m, d)
  }

  /** What has been kept of the contents: the names of the two sources, and what they gave. */
  datatype Findings = Findings(images: nat, coverName: string, infoName: string, metadata: Metadata)

  const NOTHING := Findings(0, "", "", Metadata("", Info("", "", "")))

  predicate Improves(name: string, kept: string) {
    kept == "" || Less(name, kept)
  }

  function WithCover(f: Findings, m: Member, d: Decoders): Findings {
    if Good(m, Cover, d) && Improves(m.name, f.coverName)
    then f.(coverName := m.name, metadata := f.metadata.(cover := d.thumbnail(m.content))) else f
  }

  function WithRecord(f: Findings, m: Member, d: Decoders): Findings {
    if Good(m, Record, d) && Improves(m.name, f.infoName)
    then f.(infoName := m.name, metadata := f.metadata.(info := d.parse(m.content).value)) else f
  }

  function WithMember(f: Findings, m: Member, d: Decoders): Findings {
    WithRecord(WithCover(if d.isImage(m.name) then f.(images := f.images + 1) else f, m, d), m, d)
  }

  class Inspection {
    var total: nat
    const budget: nat
    var seen: set<string>
    var images: nat
    var coverName: string
    var infoName: string
    var metadata: Metadata
    const d: Decoders

    function Found(): Findings
      reads this
    {
      Findings(images, coverName, infoName, metadata)
    }

    constructor (budget: nat, d: Decoders)
      ensures total == 0 && seen == {} && Found() == NOTHING && this.budget == budget && this.d == d
    {
      this.budget, this.d := budget, d;
      total, seen, images, coverName, infoName := 0, {}, 0, "", "";
      metadata := Metadata("", Info("", "", ""));
    }

    /** `member`: subtraction and addition are on 64-bit unsigned numbers. */
    method TakeHeader(m: Member) returns (ok: bool)
      requires total <= budget < U64 && m.size < U64
      modifies this`total, this`seen
      ensures ok <==> Admissible(m, old(total), old(seen), budget, d)
      ensures ok ==> total == old(total) + m.size && seen == old(seen) + {TrimSlash(m.name)}
    {
      NoWrap(total, budget, m.size);
      var clean := TrimSlash(m.name);
      if |seen| >= MAX_MEMBERS || clean == "" || !d.nameOk(m.name) || clean in seen
          || (m.mode != Regular && m.mode != Directory)
         || m.encrypted || m.size > (budget - total + U64) % U64 {
        return false;
      }
      seen := seen + {clean};
      total := (total + m.size) % U64;
      if d.isImage(m.name) && m.size > 32 * MiB {
        return false;
      }
      if d.isInfo(m.name) && m.size > MiB {
        return false;
      }
      return true;
    }

    /** `consume`. */
    method TakeContent(m: Member) returns (ok: bool)
      modifies this`images, this`coverName, this`infoName, this`metadata
      ensures ok <==> ContentOk(m, d)
      ensures ok ==> Found() == WithMember(old(Found()), m, d)
    {
      ok := CheckContent(m, d);
      if ok {
        if d.isImage(m.name) {
          images := images + 1;
        }
        KeepCover(m);
        KeepRecord(m);
      }
    }

    method KeepCover(m: Member)
      modifies this`coverName, this`metadata
      ensures Found() == WithCover(old(Found()), m, d)
    {
      if d.isImage(m.name) && |m.content| <= 8 * MiB && (coverName == "" || Less(m.name, coverName)) {
        var cover := d.thumbnail(m.content);
        if cover != "" {
          coverName, metadata := m.name, metadata.(cover := cover);
        }
      }
    }

    method KeepRecord(m: Member)
      modifies this`infoName, this`metadata
      ensures Found() == WithRecord(old(Found()), m, d)
    {
      if d.isInfo(m.name) && (infoName == "" || Less(m.name, infoName)) {
        var info := d.parse(m.content);
        if info.Some? {
          infoName, metadata := m.name, metadata.(info := info.value);
        }
      }
    }
  }

  /** The findings after a list of members are what the list itself says. */
  ghost predicate FoundIn(f: Findings, members: seq<Member>, d: Decoders) {
    && (f.images > 0 <==> HasImage(members, d)) && f.metadata == MetadataOf(members, d)
    && f.coverName == KeptName(members, Cover, d) && f.infoName == KeptName(members, Record, d)
  }

  lemma FoundSnoc(f: Findings, members: seq<Member>, m: Member, d: Decoders)
    requires FoundIn(f, members, d) && m.name != "" && forall x :: x in members ==> x.name != ""
    ensures FoundIn(WithMember(f, m, d), members + [m], d)
  {
    KeptSnoc(members, m, Cover, d);
    KeptSnoc(members, m, Record, d);
    ContentsSnoc(members, m, d);
  }

  predicate HasImage(members: seq<Member>, d: Decoders) {
    exists m :: m in members && d.isImage(m.name)
  }

  predicate ContentsOk(members: seq<Member>, d: Decoders) {
    forall m :: m in members ==> m.name != "" && ContentOk(m, d)
  }

  lemma ContentsSnoc(members: seq<Member>, m: Member, d: Decoders)
    ensures HasImage(members + [m], d) <==> HasImage(members, d) || d.isImage(m.name)
    ensures ContentsOk(members + [m], d) <==> ContentsOk(members, d) && m.name != "" && ContentOk(m, d)
  {
    assert m in members + [m];
    if HasImage(members, d) {
      var x :| x in members && d.isImage(x.name);
      assert x in members + [m];
    }
    forall x | x in members ensures x in members + [m] {
    }
  }

  /** A budget check on 64-bit unsigned numbers is a check on the true sum. */
  lemma NoWrap(total: nat, budget: nat, size: nat)
    requires total <= budget < U64 && size < U64
    ensures size > (budget - total + U64) % U64 <==> total + size > budget
    ensures total + size <= budget ==> (total + size) % U64 == total + size
  {
  }

  method CheckContent(m: Member, d: Decoders) returns (ok: bool)
    ensures ok <==> ContentOk(m, d)
  {
    ok := |m.content| == m.size;
    if ok && d.isImage(m.name) {
      ok := CheckImage(m, d);
    }
  }

  method CheckImage(m: Member, d: Decoders) returns (ok: bool)
    ensures ok <==> ImageOk(m, d)
  {
    if d.isAvif(m.name) {
      ok := ValidAvif(m.content);
    } else {
      var config := d.config(m.content);
      ok := config.Some? && config.value.0 > 0 && config.value.1 > 0 && config.value.0 * config.value.1 <= 100_000_000;
    }
  }

  lemma HeadersSnoc(listed: seq<Member>, m: Member, budget: nat, d: Decoders)
    requires HeadersOk(listed, budget, d)
    ensures Cleans(listed + [m]) == Cleans(listed) + {TrimSlash(m.name)}
              && Sizes(listed + [m]) == Sizes(listed) + m.size
    ensures HeadersOk(listed + [m], budget, d) <==>
              && |listed| < MAX_MEMBERS && TrimSlash(m.name) !in Cleans(listed) && Sizes(listed) + m.size <= budget
              && HeaderOk(m, d)
  {
    assert (listed + [m])[..|listed|] == listed;
    assert (listed + [m])[|listed|] in listed + [m];
  }

  // ---- whole archives ----

  /** The one outcome of an inspection: the metadata of an acceptable archive. */
  function Inspected(members: seq<Member>, stored: nat, d: Decoders): Option<Metadata> {
    if stored <= MAX_STORED && Acceptable(members, stored + EXPANSION, d) then Some(MetadataOf(members, d)) else None
  }

  ghost predicate Tally(listed: seq<Member>, total: nat, seen: set<string>, budget: nat, d: Decoders) {
    total == Sizes(listed) && seen == Cleans(listed) && HeadersOk(listed, budget, d)
  }

  lemma TallySnoc(listed: seq<Member>, m: Member, total: nat, seen: set<string>, budget: nat, d: Decoders)
    requires Tally(listed, total, seen, budget, d)
    ensures Admissible(m, total, seen, budget, d) ==>
              Tally(listed + [m], total + m.size, seen + {TrimSlash(m.name)}, budget, d)
    ensures !Admissible(m, total, seen, budget, d) ==> !HeadersOk(listed + [m], budget, d)
  {
    HeadersSnoc(listed, m, budget, d);
  }

  lemma {:induction false} HeadersPrefix(members: seq<Member>, n: nat, budget: nat, d: Decoders)
    requires n <= |members| && HeadersOk(members, budget, d)
    ensures HeadersOk(members[..n], budget, d)
    decreases |members| - n
  {
    if n == |members| {
      assert members[..n] == members;
    } else {
      HeadersPrefix(members, n + 1, budget, d);
      assert members[..n + 1] == members[..n] + [members[n]];
      DropLast(members[..n], members[n], budget, d);
    }
  }

  lemma DropLast(front: seq<Member>, m: Member, budget: nat, d: Decoders)
    requires HeadersOk(front + [m], budget, d)
    ensures HeadersOk(front, budget, d)
  {
    var all := front + [m];
    assert all[..|front|] == front;
    assert Cleans(all) == Cleans(front) + {TrimSlash(m.name)};
    CleansBounded(front);
    forall x | x in front ensures HeaderOk(x, d) {
      assert x in all;
    }
  }

  lemma {:induction false} CleansBounded(members: seq<Member>)
    ensures |Cleans(members)| <= |members|
  {
    if members != [] {
      var front, last := members[..|members| - 1], members[|members| - 1];
      CleansBounded(front);
      assert members == front + [last];
      assert Cleans(members) == Cleans(front) + {TrimSlash(last.name)};
    }
  }

  lemma BadPrefix(members: seq<Member>, n: nat, budget: nat, d: Decoders)
    requires n <= |members| && !HeadersOk(members[..n], budget, d)
    ensures !Acceptable(members, budget, d)
  {
    if HeadersOk(members, budget, d) {
      HeadersPrefix(members, n, budget, d);
    }
  }

  lemma BadHeader(members: seq<Member>, i: nat, total: nat, seen: set<string>, budget: nat, d: Decoders)
    requires i < |members| && Tally(members[..i], total, seen, budget, d)
               && !Admissible(members[i], total, seen, budget, d)
    ensures !Acceptable(members, budget, d)
  {
    assert members[..i + 1] == members[..i] + [members[i]];
    TallySnoc(members[..i], members[i], total, seen, budget, d);
    BadPrefix(members, i + 1, budget, d);
  }

  lemma BadContent(members: seq<Member>, i: nat, budget: nat, d: Decoders)
    requires i < |members| && !ContentOk(members[i], d)
    ensures !Acceptable(members, budget, d)
  {
    assert members[i] in members;
  }

  /** What both loops know after the first `n` contents. */
  ghost predicate ReadSoFar(f: Findings, members: seq<Member>, n: nat, d: Decoders) {
    n <= |members| && FoundIn(f, members[..n], d) && ContentsOk(members[..n], d)
  }

  lemma ReadStep(f: Findings, members: seq<Member>, n: nat, d: Decoders)
    requires n < |members| && ReadSoFar(f, members, n, d) && members[n].name != "" && ContentOk(members[n], d)
    ensures ReadSoFar(WithMember(f, members[n], d), members, n + 1, d)
  {
    assert members[..n + 1] == members[..n] + [members[n]];
    FoundSnoc(f, members[..n], members[n], d);
    ContentsSnoc(members[..n], members[n], d);
  }

  lemma ReadStart(members: seq<Member>, d: Decoders)
    ensures ReadSoFar(NOTHING, members, 0, d)
  {
  }

  lemma ReadAll(f: Findings, members: seq<Member>, total: nat, seen: set<string>, stored: nat, d: Decoders)
    requires ReadSoFar(f, members, |members|, d) && Tally(members, total, seen, stored + EXPANSION, d)
    requires stored <= MAX_STORED
    ensures Inspected(members, stored, d) == if f.images == 0 then None else Some(f.metadata)
  {
    assert members[..|members|] == members;
  }

  /** Both loops so far: the headers of the first `n` members and the contents of the first `k`. */
  ghost predicate Progress(c: Inspection, members: seq<Member>, n: nat, k: nat, budget: nat, d: Decoders)
    reads c
    requires k <= n <= |members|
  {
    && c.budget == budget && c.d == d
    && Tally(members[..n], c.total, c.seen, budget, d) && ReadSoFar(c.Found(), members, k, d)
  }

  /** What one header does to the tally, and to acceptance when it is refused. */
  lemma TallyTurn(members: seq<Member>, n: nat, total: nat, seen: set<string>, budget: nat, d: Decoders)
    requires n < |members| && Tally(members[..n], total, seen, budget, d)
    ensures if Admissible(members[n], total, seen, budget, d)
            then Tally(members[..n + 1], total + members[n].size, seen + {TrimSlash(members[n].name)}, budget, d)
                && members[n].name != ""
            else !Acceptable(members, budget, d)
    ensures total <= budget
  {
    assert members[..n + 1] == members[..n] + [members[n]];
    TallySnoc(members[..n], members[n], total, seen, budget, d);
    if !Admissible(members[n], total, seen, budget, d) {
      BadHeader(members, n, total, seen, budget, d);
    }
  }

  method HeaderTurn(c: Inspection, members: seq<Member>, n: nat, k: nat, budget: nat, d: Decoders) returns (ok: bool)
    requires k <= n < |members| && budget < U64 && members[n].size < U64 && Progress(c, members, n, k, budget, d)
    modifies c`total, c`seen
    ensures ok ==> Progress(c, members, n + 1, k, budget, d) && members[n].name != ""
    ensures !ok ==> !Acceptable(members, budget, d)
  {
    TallyTurn(members, n, c.total, c.seen, budget, d);
    ok := c.TakeHeader(members[n]);
  }

  method ContentTurn(c: Inspection, members: seq<Member>, n: nat, k: nat, budget: nat, d: Decoders) returns (ok: bool)
    requires k < n <= |members| && Progress(c, members, n, k, budget, d) && members[k].name != ""
    modifies c`images, c`coverName, c`infoName, c`metadata
    ensures ok ==> Progress(c, members, n, k + 1, budget, d)
    ensures !ok ==> !Acceptable(members, budget, d)
  {
    ghost var found := c.Found();
    ok := c.TakeContent(members[k]);
    if ok {
      ReadStep(found, members, k, d);
    } else {
      BadContent(members, k, budget, d);
    }
  }

  /** A CBR is read as a stream: each header and then its content. */
  method InspectCbr(members: seq<Member>, stored: nat, d: Decoders) returns (out: Option<Metadata>)
    requires forall m :: m in members ==> m.size < U64
    ensures out == Inspected(members, stored, d)
  {
    if stored > MAX_STORED {
      return None;
    }
    var budget := stored + EXPANSION;
    var c := new Inspection(budget, d);
    ReadStart(members, d);
    for i := 0 to |members|
      invariant Progress(c, members, i, i, budget, d)
    {
      assert members[i] in members;
      var ok := HeaderTurn(c, members, i, i, budget, d);
      if !ok {
        return None;
      }
      ok := ContentTurn(c, members, i + 1, i, budget, d);
      if !ok {
        return None;
      }
    }
    assert members[..|members|] == members;
    ReadAll(c.Found(), members, c.total, c.seen, stored, d);
    return if c.images == 0 then None else Some(c.metadata);
  }

  /** A CB7 has a directory: all headers first, then the contents in archive order. */
  method InspectCb7(members: seq<Member>, stored: nat, d: Decoders) returns (out: Option<Metadata>)
    requires forall m :: m in members ==> m.size < U64
    ensures out == Inspected(members, stored, d)
  {
    if stored > MAX_STORED {
      return None;
    }
    var budget := stored + EXPANSION;
    var c := new Inspection(budget, d);
    ReadStart(members, d);
    var ok := AllHeaders(c, members, budget, d);
    if !ok {
      return None;
    }
    ok := AllContents(c, members, budget, d);
    if !ok {
      return None;
    }
    assert members[..|members|] == members;
    ReadAll(c.Found(), members, c.total, c.seen, stored, d);
    return if c.images == 0 then None else Some(c.metadata);
  }

  predicate NamedUpTo(members: seq<Member>, n: nat) {
    n <= |members| && forall k :: 0 <= k < n ==> members[k].name != ""
  }

  method AllHeaders(c: Inspection, members: seq<Member>, budget: nat, d: Decoders) returns (ok: bool)
    requires (forall m :: m in members ==> m.size < U64) && budget < U64 && Progress(c, members, 0, 0, budget, d)
    modifies c`total, c`seen
    ensures if ok then Progress(c, members, |members|, 0, budget, d) && NamedUpTo(members, |members|)
            else !Acceptable(members, budget, d)
  {
    for i := 0 to |members|
      invariant Progress(c, members, i, 0, budget, d) && NamedUpTo(members, i)
    {
      assert members[i] in members;
      ok := HeaderTurn(c, members, i, 0, budget, d);
      if !ok {
        return;
      }
    }
    ok := true;
  }

  method AllContents(c: Inspection, members: seq<Member>, budget: nat, d: Decoders) returns (ok: bool)
    requires Progress(c, members, |members|, 0, budget, d) && NamedUpTo(members, |members|)
    modifies c`images, c`coverName, c`infoName, c`metadata
    ensures if ok then Progress(c, members, |members|, |members|, budget, d) else !Acceptable(members, budget, d)
  {
    for i := 0 to |members|
      invariant Progress(c, members, |members|, i, budget, d)
    {
      assert members[i] in members;
      ok := ContentTurn(c, members, |members|, i, budget, d);
      if !ok {
        return;
      }
    }
    ok := true;
  }

  // ---- order does not matter ----

  lemma SizesConcat(a: seq<Member>, b: seq<Member>)
    ensures Sizes(a + b) == Sizes(a) + Sizes(b)
  {
    if b == [] {
      assert a + b == a;
    } else {
      assert (a + b)[..|a + b| - 1] == a + b[..|b| - 1];
      SizesConcat(a, b[..|b| - 1]);
    }
  }

  lemma SizesWithout(s: seq<Member>, i: nat)
    requires i < |s|
    ensures var rest := s[..i] + s[i + 1..];
            Sizes(s) == s[i].size + Sizes(rest) && multiset(rest) == multiset(s) - multiset{s[i]}
  {
    assert s == s[..i] + ([s[i]] + s[i + 1..]);
    SizesConcat(s[..i], [s[i]] + s[i + 1..]);
    SizesConcat([s[i]], s[i + 1..]);
    SizesConcat(s[..i], s[i + 1..]);
    assert Sizes([s[i]]) == s[i].size;
  }

  lemma FindMember(s: seq<Member>, m: Member) returns (i: nat)
    requires m in multiset(s)
    ensures i < |s| && s[i] == m
  {
    assert m in s;
    i :| 0 <= i < |s| && s[i] == m;
  }

  lemma {:induction false} SizesOfPermutation(a: seq<Member>, b: seq<Member>)
    requires multiset(a) == multiset(b)
    ensures Sizes(a) == Sizes(b)
    decreases |a|
  {
    if a == [] {
      assert |multiset(b)| == |b|;
    } else {
      assert a[0] in multiset(a);
      var i := FindMember(b, a[0]);
      SizesWithout(a, 0);
      SizesWithout(b, i);
      SizesOfPermutation(a[..0] + a[1..], b[..i] + b[i + 1..]);
    }
  }

  /** Accepted members have different names. */
  lemma NamesDiffer(members: seq<Member>, i: nat, j: nat)
    requires i < j < |members| && |Cleans(members)| == |members|
    ensures TrimSlash(members[i].name) != TrimSlash(members[j].name)
  {
    if TrimSlash(members[i].name) == TrimSlash(members[j].name) {
      var rest := members[..j] + members[j + 1..];
      assert Cleans(members) == Cleans(rest) by {
        forall m | m in members ensures TrimSlash(m.name) in Cleans(rest) {
          var k :| 0 <= k < |members| && members[k] == m;
          if k == j {
            assert rest[i] == members[i];
          } else {
            assert rest[if k < j then k else k - 1] == m;
          }
        }
      }
      CleansBounded(rest);
    }
  }

  lemma SameMember(members: seq<Member>, a: Member, b: Member)
    requires |Cleans(members)| == |members| && a in members && b in members && a.name == b.name
    ensures a == b
  {
    var i :| 0 <= i < |members| && members[i] == a;
    var j :| 0 <= j < |members| && members[j] == b;
    if i < j {
      NamesDiffer(members, i, j);
    } else if j < i {
      NamesDiffer(members, j, i);
    }
  }

  lemma KeptOrderFree(a: seq<Member>, b: seq<Member>, role: Role, d: Decoders)
    requires (forall m :: m in a <==> m in b) && |Cleans(a)| == |a|
    ensures Kept(a, role, d) == Kept(b, role, d)
  {
    KeptIsLeast(a, role, d);
    KeptIsLeast(b, role, d);
    var x, y := Kept(a, role, d), Kept(b, role, d);
    if x.Some? && y.Some? {
      LessTotal(x.value.name, y.value.name);
      SameMember(a, x.value, y.value);
    }
  }

  lemma SameMembers(a: seq<Member>, b: seq<Member>)
    requires multiset(a) == multiset(b)
    ensures |a| == |b| && Sizes(a) == Sizes(b) && Cleans(a) == Cleans(b) && forall m :: m in a <==> m in b
  {
    SizesOfPermutation(a, b);
    assert |a| == |multiset(a)| && |b| == |multiset(b)|;
    forall m: Member ensures m in a <==> m in b {
      assert m in a <==> m in multiset(a);
      assert m in b <==> m in multiset(b);
    }
  }

  lemma AcceptableOrderFree(a: seq<Member>, b: seq<Member>, budget: nat, d: Decoders)
    requires multiset(a) == multiset(b) && Acceptable(a, budget, d)
    ensures Acceptable(b, budget, d)
  {
    SameMembers(a, b);
    var m :| m in a && d.isImage(m.name);
    assert m in b;
  }

  /** Inspection of any permutation of an archive ends the same: accepted or not, with the same metadata. */
  lemma InspectionOrderFree(a: seq<Member>, b: seq<Member>, stored: nat, d: Decoders)
    requires multiset(a) == multiset(b)
    ensures Inspected(a, stored, d) == Inspected(b, stored, d)
  {
    var budget := stored + EXPANSION;
    if Acceptable(a, budget, d) {
      AcceptableOrderFree(a, b, budget, d);
      SameMembers(a, b);
      KeptOrderFree(a, b, Cover, d);
      KeptOrderFree(a, b, Record, d);
    } else if Acceptable(b, budget, d) {
      AcceptableOrderFree(b, a, budget, d);
    }
  }

  /** `inspectComicArchive`, with the program's rules. */
  method InspectComicArchive(format: string, members: seq<Member>, stored: nat, d: Decoders)
    returns (out: Option<Metadata>)
    requires forall m :: m in members ==> m.size < U64
    ensures out == if format == "cbr" || format == "cb7" then Inspected(members, stored, WithProgramRules(d)) else None
  {
    if format == "cbr" {
      out := InspectCbr(members, stored, WithProgramRules(d));
    } else if format == "cb7" {
      out := InspectCb7(members, stored, WithProgramRules(d));
    } else {
      out := None;
    }
  }
}
