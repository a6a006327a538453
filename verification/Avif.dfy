/** The AVIF container walk (`validAVIF`, internal/server/formats.go): boxes of ISO/IEC 14496-12, section
    4.2, with 32-bit sizes, 64-bit sizes, or a size of 0 for a box that runs to the end. */
module Avif {
  import opened Text

  type Byte = c: char | c as int < 256 witness '\0'
  type Buffer = seq<Byte>

  // ---- big-endian numbers ----

  function Power(n: nat): nat {
    if n == 0 then 1 else 256 * Power(n - 1)
  }

  function Number(s: Buffer): nat {
    if s == [] then 0 else Number(s[..|s| - 1]) * 256 + s[|s| - 1] as int
  }

  function Digits(n: nat, width: nat): (s: Buffer)
    ensures |s| == width
  {
    if width == 0 then [] else Digits(n / 256, width - 1) + [(n % 256) as Byte]
  }

  lemma {:induction false} NumberBelow(s: Buffer)
    ensures Number(s) < Power(|s|)
  {
    if s != [] {
      NumberBelow(s[..|s| - 1]);
    }
  }

  lemma {:induction false} NumberOfDigits(n: nat, width: nat)
    requires n < Power(width)
    ensures Number(Digits(n, width)) == n
  {
    if width > 0 {
      NumberOfDigits(n / 256, width - 1);
      var s := Digits(n, width);
      assert s[..|s| - 1] == Digits(n / 256, width - 1);
    }
  }

  lemma {:induction false} DigitsOfNumber(s: Buffer)
    ensures Digits(Number(s), |s|) == s
  {
    if s != [] {
      DigitsOfNumber(s[..|s| - 1]);
      var n := Number(s[..|s| - 1]);
      assert (n * 256 + s[|s| - 1] as int) / 256 == n;
      assert s == s[..|s| - 1] + [s[|s| - 1]];
    }
  }

  lemma Powers()
    ensures Power(4) == 0x1_0000_0000 && Power(8) == 0x1_0000_0000_0000_0000
  {
    assert Power(2) == 256 * Power(1) == 65536;
    assert Power(4) == 256 * Power(3) == 0x1_0000_0000;
    assert Power(6) == 256 * Power(5) == 0x1_0000_0000_0000;
  }

  const WORD: nat := 4
  const LONG: nat := 8

  // ---- boxes ----

  /** How the header states the size. The walk also reads a 64-bit size of 0 as "to the end". */
  datatype Form = Short | Long | ToEnd | LongToEnd

  datatype Box = Box(kind: Buffer, payload: Buffer, form: Form)

  predicate Open(box: Box) {
    box.form == ToEnd || box.form == LongToEnd
  }

  predicate BoxOk(box: Box) {
    && |box.kind| == 4
    && (box.form == Short ==> 8 + |box.payload| < Power(WORD))
    && (box.form == Long ==> 16 + |box.payload| < Power(LONG))
  }

  /** A box that runs to the end can only be the last one. */
  predicate BoxesOk(boxes: seq<Box>) {
    forall i :: 0 <= i < |boxes| ==> BoxOk(boxes[i]) && (Open(boxes[i]) ==> i == |boxes| - 1)
  }

  function Header(box: Box): Buffer {
    match box.form
    case Short => Digits(8 + |box.payload|, WORD) + box.kind
    case Long => Digits(1, WORD) + box.kind + Digits(16 + |box.payload|, LONG)
    case ToEnd => Digits(0, WORD) + box.kind
    case LongToEnd => Digits(1, WORD) + box.kind + Digits(0, LONG)
  }

  function Serialize(boxes: seq<Box>): Buffer {
    if boxes == [] then [] else Header(boxes[0]) + boxes[0].payload + Serialize(boxes[1..])
  }

  datatype Extent = Extent(form: Form, header: nat, size: nat)

  /** The size fields of the box that starts a buffer, and the checks on them. */
  function Measure(b: Buffer): (e: Option<Extent>)
    ensures e.Some? ==> 8 <= e.value.header <= e.value.size <= |b|
  {
    if |b| < 8 then None
    else
      var word := Number(b[..4]);
      if word == 1 && |b| < 16 then None
      else
        var long := word == 1;
        var header := if long then 16 else 8;
        var stated := if long then Number(b[8..16]) else word;
        var size := if stated == 0 then |b| else stated;
        if size < header || size > |b| then None
        else
          Some(Extent(if long then if stated == 0 then LongToEnd else Long else if stated == 0 then ToEnd else Short,
                      header, size))
  }

  function BoxAt(b: Buffer, e: Extent): Box
    requires 8 <= e.header <= e.size <= |b|
  {
    Box(b[4..8], b[e.header..e.size], e.form)
  }

  /** What was read and what is still to be read, unless that fails. */
  function Joined(done: seq<Box>, rest: Option<seq<Box>>): Option<seq<Box>> {
    if rest.None? then None else Some(done + rest.value)
  }

  function Boxes(b: Buffer): Option<seq<Box>> {
    if b == [] then Some([])
    else
      match Measure(b)
      case None => None
      case Some(e) => Joined([BoxAt(b, e)], Boxes(b[e.size..]))
  }

  // ---- tiling and the round trip ----

  /** The header the walk reads is the header that the box would be written with. */
  lemma HeaderTiles(b: Buffer)
    requires Measure(b).Some?
    ensures var e := Measure(b).value; var box := BoxAt(b, e);
            BoxOk(box) && Header(box) + box.payload == b[..e.size] && (Open(box) ==> e.size == |b|)
  {
    var e := Measure(b).value;
    var box := BoxAt(b, e);
    NumberBelow(b[..4]);
    DigitsOfNumber(b[..4]);
    assert b[..8] == b[..4] + b[4..8];
    if e.header == 16 {
      NumberBelow(b[8..16]);
      DigitsOfNumber(b[8..16]);
      assert b[..16] == b[..4] + b[4..8] + b[8..16];
    }
    assert b[..e.size] == b[..e.header] + box.payload;
  }

  lemma ConsOk(box: Box, rest: seq<Box>)
    requires BoxOk(box) && BoxesOk(rest) && (Open(box) ==> rest == [])
    ensures BoxesOk([box] + rest) && Serialize([box] + rest) == Header(box) + box.payload + Serialize(rest)
  {
    var boxes := [box] + rest;
    assert boxes[1..] == rest;
    forall i | 0 <= i < |boxes| ensures BoxOk(boxes[i]) && (Open(boxes[i]) ==> i == |boxes| - 1) {
      if i > 0 {
        assert boxes[i] == rest[i - 1];
      }
    }
  }

  lemma FirstAndRest(b: Buffer)
    requires b != [] && Boxes(b).Some?
    ensures Measure(b).Some?
    ensures var e := Measure(b).value;
            Boxes(b[e.size..]).Some? && Boxes(b).value == [BoxAt(b, e)] + Boxes(b[e.size..]).value
  {
  }

  /** Whatever the walk gets through is tiled by its boxes: no byte is skipped, read twice or left over. */
  lemma {:induction false} BoxesTile(b: Buffer)
    requires Boxes(b).Some?
    ensures BoxesOk(Boxes(b).value) && Serialize(Boxes(b).value) == b
    decreases |b|
  {
    if b != [] {
      FirstAndRest(b);
      var e := Measure(b).value;
      var box, after := BoxAt(b, e), b[e.size..];
      BoxesTile(after);
      HeaderTiles(b);
      assert b == b[..e.size] + after;
      if Open(box) {
        assert after == [];
      }
      ConsOk(box, Boxes(after).value);
    }
  }

  lemma HeaderLength(box: Box)
    requires BoxOk(box)
    ensures |Header(box)| == if box.form == Short || box.form == ToEnd then 8 else 16
  {
  }

  /** The size fields of a written box are read back. */
  lemma HeaderMeasured(box: Box, rest: Buffer)
    requires BoxOk(box) && (Open(box) ==> rest == [])
    ensures var b := Header(box) + box.payload + rest;
            Measure(b) == Some(Extent(box.form, |Header(box)|, |Header(box)| + |box.payload|)) &&
            b[4..8] == box.kind && b[|Header(box)|..|Header(box)| + |box.payload|] == box.payload
  {
    var h := Header(box);
    var b := h + box.payload + rest;
    HeaderLength(box);
    Powers();
    assert b[..8] == h[..8] && b[..4] == h[..4];
    if box.form == Short {
      NumberOfDigits(8 + |box.payload|, WORD);
      assert h[..4] == Digits(8 + |box.payload|, WORD);
    } else if box.form == ToEnd {
      NumberOfDigits(0, WORD);
      assert h[..4] == Digits(0, WORD);
    } else {
      var stated := if box.form == Long then 16 + |box.payload| else 0;
      NumberOfDigits(1, WORD);
      NumberOfDigits(stated, LONG);
      assert h[..4] == Digits(1, WORD);
      assert b[8..16] == h[8..16] == Digits(stated, LONG);
    }
  }

  /** Serialising any list of boxes and walking the result recovers the list. */
  lemma {:induction false} SerializedBoxesAreRead(boxes: seq<Box>)
    requires BoxesOk(boxes)
    ensures Boxes(Serialize(boxes)) == Some(boxes)
  {
    if boxes != [] {
      var box, rest := boxes[0], boxes[1..];
      assert BoxOk(box);
      forall i | 0 <= i < |rest| ensures BoxOk(rest[i]) && (Open(rest[i]) ==> i == |rest| - 1) {
        assert rest[i] == boxes[i + 1];
      }
      SerializedBoxesAreRead(rest);
      var b := Serialize(boxes);
      HeaderLength(box);
      HeaderMeasured(box, Serialize(rest));
      assert b[|Header(box)| + |box.payload|..] == Serialize(rest);
      assert boxes == [box] + rest;
    }
  }

  // ---- acceptance ----

  predicate NamesBrand(payload: Buffer, i: nat) {
    i % 4 == 0 && i != 4 && i + 4 <= |payload| && (payload[i..i + 4] == "avif" || payload[i..i + 4] == "avis")
  }

  /** The major brand or a compatible one; the bytes between them are the minor version. */
  predicate HasBrand(payload: Buffer) {
    exists i: nat :: i <= |payload| && NamesBrand(payload, i)
  }

  /** The last box of the kind, if there is one, has more than `size` bytes of payload. */
  predicate LastExceeds(boxes: seq<Box>, kind: string, size: nat) {
    exists i :: 0 <= i < |boxes| && boxes[i].kind == kind && |boxes[i].payload| > size &&
                forall j :: i < j < |boxes| ==> boxes[j].kind != kind
  }

  predicate IsAvif(boxes: seq<Box>) {
    && (forall box :: box in boxes && box.kind == "ftyp" ==> |box.payload| >= 8)
    && (exists box :: box in boxes && box.kind == "ftyp" && HasBrand(box.payload))
    && LastExceeds(boxes, "meta", 4) && LastExceeds(boxes, "mdat", 0)
  }

  method FindBrand(payload: Buffer) returns (found: bool)
    ensures found <==> HasBrand(payload)
  {
    found := false;
    var i := 0;
    while i + 4 <= |payload|
      invariant 0 <= i && i % 4 == 0
      invariant found <==> exists k: nat :: k < i && NamesBrand(payload, k)
    {
      if i != 4 && (payload[i..i + 4] == "avif" || payload[i..i + 4] == "avis") {
        assert NamesBrand(payload, i);
        found := true;
      }
      assert forall k :: i < k < i + 4 ==> !NamesBrand(payload, k);
      i := i + 4;
    }
  }

  lemma LastExceedsSnoc(boxes: seq<Box>, box: Box, kind: string, size: nat)
    ensures LastExceeds(boxes + [box], kind, size) <==>
              if box.kind == kind then |box.payload| > size else LastExceeds(boxes, kind, size)
  {
    var all := boxes + [box];
    if box.kind == kind {
      assert all[|boxes|] == box;
    } else {
      if i :| 0 <= i < |boxes| && boxes[i].kind == kind && |boxes[i].payload| > size &&
              forall j :: i < j < |boxes| ==> boxes[j].kind != kind {
        assert all[i] == boxes[i];
      }
      if i :| 0 <= i < |all| && all[i].kind == kind && |all[i].payload| > size &&
              forall j :: i < j < |all| ==> all[j].kind != kind {
        assert boxes[i] == all[i];
        forall j | i < j < |boxes| ensures boxes[j].kind != kind {
          assert all[j] == boxes[j];
        }
      }
    }
  }

  /** What the flags of the loop say about the boxes so far. */
  ghost predicate Flags(done: seq<Box>, brand: bool, meta: bool, data: bool) {
    && (forall box :: box in done && box.kind == "ftyp" ==> |box.payload| >= 8)
    && (brand <==> exists box :: box in done && box.kind == "ftyp" && HasBrand(box.payload))
    && (meta <==> LastExceeds(done, "meta", 4)) && (data <==> LastExceeds(done, "mdat", 0))
  }

  lemma FlagsSnoc(done: seq<Box>, box: Box, brand: bool, meta: bool, data: bool)
    requires Flags(done, brand, meta, data) && (box.kind == "ftyp" ==> |box.payload| >= 8)
    ensures Flags(done + [box], brand || (box.kind == "ftyp" && HasBrand(box.payload)),
                  if box.kind == "meta" then |box.payload| > 4 else meta,
                  if box.kind == "mdat" then |box.payload| > 0 else data)
  {
    LastExceedsSnoc(done, box, "meta", 4);
    LastExceedsSnoc(done, box, "mdat", 0);
    assert box in done + [box];
  }

  /** The boxes done and what is left make up the whole buffer. */
  ghost predicate Behind(b: Buffer, done: seq<Box>, offset: nat)
    requires offset <= |b|
  {
    Boxes(b) == Joined(done, Boxes(b[offset..]))
  }

  lemma BoxesFrom(b: Buffer, offset: nat)
    requires offset < |b|
    ensures Boxes(b[offset..]) ==
              if Measure(b[offset..]).None? then None
              else var e := Measure(b[offset..]).value; Joined([BoxAt(b[offset..], e)], Boxes(b[offset + e.size..]))
  {
    if Measure(b[offset..]).Some? {
      var e := Measure(b[offset..]).value;
      assert b[offset..][e.size..] == b[offset + e.size..];
    }
  }

  lemma Regroup(done: seq<Box>, box: Box, rest: Option<seq<Box>>)
    ensures Joined(done, Joined([box], rest)) == Joined(done + [box], rest)
  {
    if rest.Some? {
      assert done + ([box] + rest.value) == (done + [box]) + rest.value;
    }
  }

  lemma BehindStep(b: Buffer, done: seq<Box>, offset: nat)
    requires offset < |b| && Behind(b, done, offset)
    ensures match Measure(b[offset..])
            case None => Boxes(b) == None
            case Some(e) => Behind(b, done + [BoxAt(b[offset..], e)], offset + e.size)
  {
    BoxesFrom(b, offset);
    var here := b[offset..];
    if Measure(here).Some? {
      var e := Measure(here).value;
      JoinStep(Boxes(b), done, Boxes(here), BoxAt(here, e), Boxes(b[offset + e.size..]));
    }
  }

  lemma JoinStep(whole: Option<seq<Box>>, done: seq<Box>, here: Option<seq<Box>>, box: Box, rest: Option<seq<Box>>)
    requires whole == Joined(done, here) && here == Joined([box], rest)
    ensures whole == Joined(done + [box], rest)
  {
    Regroup(done, box, rest);
  }

  datatype Seen = Seen(brand: bool, meta: bool, data: bool)

  /** The `switch` on the type of a box; `ok` is false for a file type box that is too short. */
  method Visit(kind: Buffer, payload: Buffer, seen: Seen) returns (ok: bool, next: Seen)
    ensures ok <==> kind == "ftyp" ==> |payload| >= 8
    ensures ok ==> next == NextSeen(kind, payload, seen)
  {
    ok, next := true, seen;
    if kind == "ftyp" {
      if |payload| < 8 {
        return false, seen;
      }
      var found := FindBrand(payload);
      next := seen.(brand := seen.brand || found);
    } else if kind == "meta" {
      next := seen.(meta := |payload| > 4);
    } else if kind == "mdat" {
      next := seen.(data := |payload| > 0);
    }
  }

  ghost predicate SoFar(b: Buffer, done: seq<Box>, offset: nat, seen: Seen) {
    offset <= |b| && Behind(b, done, offset) && Flags(done, seen.brand, seen.meta, seen.data)
  }

  function NextSeen(kind: Buffer, payload: Buffer, seen: Seen): Seen {
    Seen(seen.brand || (kind == "ftyp" && HasBrand(payload)),
         if kind == "meta" then |payload| > 4 else seen.meta,
         if kind == "mdat" then |payload| > 0 else seen.data)
  }

  ghost predicate Accepted(b: Buffer) {
    Boxes(b).Some? && IsAvif(Boxes(b).value)
  }

  lemma BehindBox(b: Buffer, done: seq<Box>, offset: nat, e: Extent, kind: Buffer, payload: Buffer)
    requires offset < |b| && Behind(b, done, offset) && Measure(b[offset..]) == Some(e)
    requires kind == b[offset + 4..offset + 8] && payload == b[offset + e.header..offset + e.size]
    ensures Behind(b, done + [Box(kind, payload, e.form)], offset + e.size)
  {
    BehindStep(b, done, offset);
    assert BoxAt(b[offset..], e) == Box(kind, payload, e.form);
  }

  /** One pass of the loop, from what its two calls returned. */
  lemma SoFarStep(b: Buffer, done: seq<Box>, offset: nat, seen: Seen, e: Extent, kind: Buffer, payload: Buffer)
    requires offset < |b| && SoFar(b, done, offset, seen) && Measure(b[offset..]) == Some(e)
    requires kind == b[offset + 4..offset + 8] && payload == b[offset + e.header..offset + e.size]
    requires kind == "ftyp" ==> |payload| >= 8
    ensures SoFar(b, done + [Box(kind, payload, e.form)], offset + e.size, NextSeen(kind, payload, seen))
  {
    BehindBox(b, done, offset, e, kind, payload);
    FlagsSnoc(done, Box(kind, payload, e.form), seen.brand, seen.meta, seen.data);
  }

  lemma TooShortStep(b: Buffer, done: seq<Box>, offset: nat, e: Extent, kind: Buffer, payload: Buffer)
    requires offset < |b| && Behind(b, done, offset) && Measure(b[offset..]) == Some(e)
    requires kind == b[offset + 4..offset + 8] && payload == b[offset + e.header..offset + e.size]
    requires kind == "ftyp" && |payload| < 8
    ensures !Accepted(b)
  {
    BehindBox(b, done, offset, e, kind, payload);
    var box := Box(kind, payload, e.form);
    assert box in done + [box];
    ShortBrandRefused(b, done + [box], offset + e.size, box);
  }

  lemma Unmeasured(b: Buffer, done: seq<Box>, offset: nat, seen: Seen)
    requires offset < |b| && SoFar(b, done, offset, seen) && Measure(b[offset..]) == None
    ensures !Accepted(b)
  {
    BehindStep(b, done, offset);
  }

  lemma Start(b: Buffer)
    ensures SoFar(b, [], 0, Seen(false, false, false))
  {
    assert b[0..] == b;
    if Boxes(b).Some? {
      assert [] + Boxes(b).value == Boxes(b).value;
    }
  }

  /** The body of the loop for the box at an offset. */
  method ReadBox(b: Buffer, offset: nat, seen: Seen, ghost done: seq<Box>)
    returns (ok: bool, end: nat, next: Seen, ghost boxes: seq<Box>)
    requires offset < |b| && SoFar(b, done, offset, seen)
    ensures if ok then offset < end && SoFar(b, boxes, end, next) else !Accepted(b)
  {
    end, next, boxes := offset, seen, done;
    var e := ReadExtent(b, offset);
    if e.None? {
      Unmeasured(b, done, offset, seen);
      return false, end, next, boxes;
    }
    var kind := b[offset + 4..offset + 8];
    var payload := b[offset + e.value.header..offset + e.value.size];
    ok, next := Visit(kind, payload, seen);
    if !ok {
      TooShortStep(b, done, offset, e.value, kind, payload);
      return;
    }
    SoFarStep(b, done, offset, seen, e.value, kind, payload);
    boxes := done + [Box(kind, payload, e.value.form)];
    end := offset + e.value.size;
  }

  /** The loop of `validAVIF` over the offset of the next box. */
  method ValidAvif(b: Buffer) returns (valid: bool)
    ensures valid <==> Boxes(b).Some? && IsAvif(Boxes(b).value)
  {
    var seen := Seen(false, false, false);
    var offset := 0;
    ghost var done: seq<Box> := [];
    Start(b);
    while offset < |b|
      invariant SoFar(b, done, offset, seen)
      decreases |b| - offset
    {
      var ok;
      ok, offset, seen, done := ReadBox(b, offset, seen, done);
      if !ok {
        return false;
      }
    }
    Finish(b, done, seen);
    return seen.brand && seen.meta && seen.data;
  }

  lemma Finish(b: Buffer, done: seq<Box>, seen: Seen)
    requires SoFar(b, done, |b|, seen)
    ensures Boxes(b) == Some(done) && (IsAvif(done) <==> seen.brand && seen.meta && seen.data)
  {
    assert b[|b|..] == [] && done + [] == done;
  }

  lemma ShortBrandRefused(b: Buffer, done: seq<Box>, offset: nat, box: Box)
    requires offset <= |b| && Behind(b, done, offset) && box in done && box.kind == "ftyp" && |box.payload| < 8
    ensures Boxes(b).Some? ==> !IsAvif(Boxes(b).value)
  {
  }

  /** The header of one pass of the loop: the size fields, and the guards on them. */
  method ReadExtent(b: Buffer, offset: nat) returns (e: Option<Extent>)
    requires offset < |b|
    ensures e == Measure(b[offset..])
  {
    if |b| - offset < 8 {
      return None;
    }
    assert b[offset..][..4] == b[offset..offset + 4];
    var word := Number(b[offset..offset + 4]);
    var size, header := word, 8;
    if word == 1 {
      if |b| - offset < 16 {
        return None;
      }
      assert b[offset..][8..16] == b[offset + 8..offset + 16];
      size := Number(b[offset + 8..offset + 16]);
      header := 16;
    }
    var open := size == 0;
    if open {
      size := |b| - offset;
    }
    if size < header || size > |b| - offset {
      return None;
    }
    var form := if header == 16 then if open then LongToEnd else Long else if open then ToEnd else Short;
    return Some(Extent(form, header, size));
  }
}
