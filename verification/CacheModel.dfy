/** The single-flight LRU metadata cache (internal/server/metadata_cache.go) as the steps of any
    number of concurrent callers. Each critical section under the mutex is one step; loading happens
    outside the mutex, between two steps of the same caller. */
module CacheModel {
  import opened Text

  /** What a loaded book's metadata says. */
  datatype Book = Book(title: string, author: string, series: string, cover: string, format: string,
      volume: Option<real>)

  /** A metadata value as a program variable holds it: its volume is a pointer into memory. */
  datatype Meta = Meta(title: string, author: string, series: string, cover: string, format: string,
      volume: Option<nat>)

  /** Who a volume cell was allocated for: the cache, a flight, or the caller with this number. */
  datatype Owner = Cached | Flying | Caller(n: nat)

  datatype Cell = Cell(owner: Owner, value: real)

  function ContentOf(memory: seq<Cell>, m: Meta): Book {
    Book(m.title, m.author, m.series, m.cover, m.format,
         if m.volume.Some? && m.volume.value < |memory| then Some(memory[m.volume.value].value) else None)
  }

  /** A value of its own for `owner` with this content; `copyMetadata` is this on a value's content. */
  function Allocate(memory: seq<Cell>, owner: Owner, book: Book): (seq<Cell>, Meta) {
    var volume := if book.volume.Some? then Some(|memory|) else None;
    (if book.volume.Some? then memory + [Cell(owner, book.volume.value)] else memory,
     Meta(book.title, book.author, book.series, book.cover, book.format, volume))
  }

  datatype Entry = Entry(key: string, value: Meta, size: nat)

  /** The fields guarded by the mutex, the list front first. */
  datatype Cache = Cache(
    entries: map<string, Entry>, lru: seq<Entry>, bytes: int, maxEntries: int, maxBytes: int)

  function SizeOf(key: string, book: Book): nat {
    ByteLen(key) + ByteLen(book.title) + ByteLen(book.author) + ByteLen(book.series) + ByteLen(book.cover) + 8
  }

  function TotalSize(list: seq<Entry>): nat {
    if list == [] then 0 else TotalSize(list[..|list| - 1]) + list[|list| - 1].size
  }

  ghost predicate DistinctKeys(list: seq<Entry>) {
    forall i, j :: 0 <= i < j < |list| ==> list[i].key != list[j].key
  }

  /** Map and list hold the same entries under distinct keys. */
  ghost predicate SameEntries(entries: map<string, Entry>, list: seq<Entry>) {
    && DistinctKeys(list)
    && (forall e :: e in list ==> e.key in entries && entries[e.key] == e)
    && (forall k :: k in entries ==> entries[k].key == k && entries[k] in list)
  }

  /** Map and list agree, bytes are the sum of the entry sizes, and both limits hold. */
  ghost predicate CacheOk(c: Cache) {
    && SameEntries(c.entries, c.lru)
    && c.bytes == TotalSize(c.lru)
    && (c.lru != [] ==> |c.lru| <= c.maxEntries && c.bytes <= c.maxBytes)
  }

  predicate MustEvict(c: Cache, size: nat) {
    |c.lru| >= c.maxEntries || c.bytes + size > c.maxBytes
  }

  /** Dropping the list's last entry, as the eviction loop does. */
  function DropOldest(c: Cache): Cache
    requires c.lru != []
  {
    var oldest := c.lru[|c.lru| - 1];
    c.(entries := c.entries - {oldest.key}, bytes := c.bytes - oldest.size, lru := c.lru[..|c.lru| - 1])
  }

  /** The eviction loop never reaches an empty list. */
  lemma EvictionNeedsEntry(c: Cache, size: nat)
    requires CacheOk(c) && c.maxEntries > 0 && size <= c.maxBytes && MustEvict(c, size)
    ensures c.lru != []
  {
  }

  lemma DropOldestOk(c: Cache)
    requires CacheOk(c) && c.lru != []
    ensures CacheOk(DropOldest(c))
  {
    var d := DropOldest(c);
    assert c.lru == d.lru + [c.lru[|c.lru| - 1]];
    forall e | e in d.lru ensures e.key in d.entries {
      var i :| 0 <= i < |d.lru| && d.lru[i] == e;
      assert c.lru[i].key != c.lru[|c.lru| - 1].key;
    }
  }

  /** The eviction loop. */
  function Evict(c: Cache, size: nat): Cache
    decreases |c.lru|
  {
    if MustEvict(c, size) && c.lru != [] then Evict(DropOldest(c), size) else c
  }

  lemma {:induction false} EvictOk(c: Cache, size: nat)
    requires CacheOk(c) && c.maxEntries > 0 && size <= c.maxBytes
    ensures CacheOk(Evict(c, size)) && !MustEvict(Evict(c, size), size)
    ensures Evict(c, size).maxEntries == c.maxEntries && Evict(c, size).maxBytes == c.maxBytes
    ensures Evict(c, size).lru <= c.lru
    decreases |c.lru|
  {
    if MustEvict(c, size) {
      EvictionNeedsEntry(c, size);
      DropOldestOk(c);
      EvictOk(DropOldest(c), size);
    }
  }

  /** Eviction keeps the longest front of the list that leaves room for the new entry. */
  lemma {:induction false} EvictsNoMoreThanNeeded(c: Cache, size: nat, n: nat)
    requires CacheOk(c) && c.maxEntries > 0 && size <= c.maxBytes
    requires |Evict(c, size).lru| < n <= |c.lru|
    ensures n >= c.maxEntries || TotalSize(c.lru[..n]) + size > c.maxBytes
    decreases |c.lru|
  {
    EvictOk(c, size);
    if n == |c.lru| {
      assert c.lru[..n] == c.lru;
      assert MustEvict(c, size);
    } else {
      DropOldestOk(c);
      assert MustEvict(c, size) && c.lru[..n] == DropOldest(c).lru[..n];
      EvictsNoMoreThanNeeded(DropOldest(c), size, n);
    }
  }

  lemma EvictKeepsEntries(c: Cache, size: nat, key: string)
    requires CacheOk(c) && c.maxEntries > 0 && size <= c.maxBytes && key in Evict(c, size).entries
    ensures key in c.entries && c.entries[key] == Evict(c, size).entries[key]
  {
    EvictOk(c, size);
    var d := Evict(c, size);
    var i :| 0 <= i < |d.lru| && d.lru[i] == d.entries[key];
    assert c.lru[i] == d.lru[i];
    assert c.lru[i] in c.lru;
  }

  /** Storing a loaded value, when caching is on and the value fits at all. */
  function Insert(c: Cache, key: string, value: Meta, size: nat): Cache {
    if c.maxEntries > 0 && size <= c.maxBytes then
      var d := Evict(c, size);
      var entry := Entry(key, value, size);
      d.(entries := d.entries[key := entry], lru := [entry] + d.lru, bytes := d.bytes + size)
    else c
  }

  lemma {:induction false} TotalSizeCons(entry: Entry, list: seq<Entry>)
    ensures TotalSize([entry] + list) == entry.size + TotalSize(list)
  {
    if list == [] {
      assert ([entry] + list)[..0] == [];
    } else {
      assert ([entry] + list)[..|list|] == [entry] + list[..|list| - 1];
      TotalSizeCons(entry, list[..|list| - 1]);
    }
  }

  lemma AddEntryOk(entries: map<string, Entry>, list: seq<Entry>, entry: Entry)
    requires SameEntries(entries, list) && entry.key !in entries
    ensures SameEntries(entries[entry.key := entry], [entry] + list)
  {
    var longer := [entry] + list;
    forall i, j | 0 <= i < j < |longer| ensures longer[i].key != longer[j].key {
      assert longer[j] in list;
      if i > 0 {
        assert list[i - 1].key != list[j - 1].key;
      }
    }
  }

  lemma InsertOk(c: Cache, key: string, value: Meta, size: nat)
    requires CacheOk(c) && key !in c.entries
    ensures CacheOk(Insert(c, key, value, size))
    ensures forall k :: k in Insert(c, key, value, size).entries ==>
              (k == key || k in c.entries) &&
              Insert(c, key, value, size).entries[k].value == (if k == key then value else c.entries[k].value)
  {
    if c.maxEntries > 0 && size <= c.maxBytes {
      EvictOk(c, size);
      var d := Evict(c, size);
      forall k | k in d.entries ensures k in c.entries && c.entries[k] == d.entries[k] {
        EvictKeepsEntries(c, size, k);
      }
      TotalSizeCons(Entry(key, value, size), d.lru);
      AddEntryOk(d.entries, d.lru, Entry(key, value, size));
    }
  }

  /** The list without the entry of this key. */
  function Without(list: seq<Entry>, key: string): seq<Entry> {
    if list == [] then []
    else if list[0].key == key then list[1..]
    else [list[0]] + Without(list[1..], key)
  }

  lemma {:induction false} WithoutFacts(list: seq<Entry>, entry: Entry)
    requires DistinctKeys(list) && entry in list
    ensures |Without(list, entry.key)| == |list| - 1
    ensures TotalSize(list) == entry.size + TotalSize(Without(list, entry.key))
    ensures forall e :: e in Without(list, entry.key) <==> e in list && e != entry
    ensures DistinctKeys(Without(list, entry.key))
    ensures forall e :: e in Without(list, entry.key) ==> e.key != entry.key
  {
    var rest := list[1..];
    assert list == [list[0]] + rest;
    assert DistinctKeys(rest);
    TotalSizeCons(list[0], rest);
    if list[0].key == entry.key {
      assert list[0] == entry;
      forall e | e in rest ensures e.key != entry.key {
        var i :| 0 <= i < |rest| && rest[i] == e;
        assert list[i + 1].key != list[0].key;
      }
    } else {
      WithoutFacts(rest, entry);
      var shorter := Without(rest, entry.key);
      TotalSizeCons(list[0], shorter);
      forall e | e in shorter ensures e.key != list[0].key {
        var i :| 0 <= i < |rest| && rest[i] == e;
        assert list[i + 1].key != list[0].key;
      }
      var longer := [list[0]] + shorter;
      forall i, j | 0 <= i < j < |longer| ensures longer[i].key != longer[j].key {
        assert longer[j] in shorter;
        if i > 0 {
          assert shorter[i - 1].key != shorter[j - 1].key;
        }
      }
    }
  }

  /** A hit moves its entry to the front. */
  function Touch(c: Cache, key: string): Cache
    requires key in c.entries
  {
    c.(lru := [c.entries[key]] + Without(c.lru, key))
  }

  lemma RemoveEntryOk(entries: map<string, Entry>, list: seq<Entry>, key: string)
    requires SameEntries(entries, list) && key in entries
    ensures SameEntries(entries - {key}, Without(list, key))
  {
    WithoutFacts(list, entries[key]);
    var rest := Without(list, key);
    forall e | e in rest ensures e.key in entries - {key} && (entries - {key})[e.key] == e {
      assert e in list;
    }
    forall k | k in entries - {key} ensures (entries - {key})[k] in rest {
      assert entries[k] in list && entries[k] != entries[key];
    }
  }

  lemma MoveToFrontOk(entries: map<string, Entry>, list: seq<Entry>, key: string)
    requires SameEntries(entries, list) && key in entries
    ensures SameEntries(entries, [entries[key]] + Without(list, key))
    ensures TotalSize([entries[key]] + Without(list, key)) == TotalSize(list)
    ensures |[entries[key]] + Without(list, key)| == |list|
  {
    RemoveEntryOk(entries, list, key);
    AddEntryOk(entries - {key}, Without(list, key), entries[key]);
    assert (entries - {key})[key := entries[key]] == entries;
    assert entries[key] in list;
    WithoutSizes(list, entries[key]);
  }

  lemma WithoutSizes(list: seq<Entry>, entry: Entry)
    requires DistinctKeys(list) && entry in list
    ensures TotalSize([entry] + Without(list, entry.key)) == TotalSize(list)
    ensures |Without(list, entry.key)| == |list| - 1
  {
    WithoutFacts(list, entry);
    TotalSizeCons(entry, Without(list, entry.key));
  }

  lemma TouchOk(c: Cache, key: string)
    requires CacheOk(c) && key in c.entries
    ensures CacheOk(Touch(c, key))
  {
    MoveToFrontOk(c.entries, c.lru, key);
  }

  // ---- the critical sections ----

  /** What the callers share: the cache, the table of flights, every flight object ever made (None until
      it is done), and memory. */
  datatype Shared = Shared(cache: Cache, flights: map<string, nat>, done: seq<Option<Meta>>, memory: seq<Cell>)

  datatype Entered = Hit(value: Meta) | Join(flight: nat) | Lead(flight: nat)

  /** The first critical section: a hit is copied out for caller `who`, a running flight is joined, and
      otherwise the caller leads a new flight. */
  function Enter(s: Shared, key: string, who: nat): (Shared, Entered) {
    if key in s.cache.entries then
      var copied := Allocate(s.memory, Caller(who), ContentOf(s.memory, s.cache.entries[key].value));
      (s.(cache := Touch(s.cache, key), memory := copied.0), Hit(copied.1))
    else if key in s.flights then (s, Join(s.flights[key]))
    else (s.(flights := s.flights[key := |s.done|], done := s.done + [None]), Lead(|s.done|))
  }

  /** The leader's second critical section: evict, cache a copy, finish the flight with a copy. */
  function Publish(s: Shared, key: string, flight: nat, book: Book, who: nat): (Shared, Meta)
    requires flight < |s.done|
  {
    var loaded := Allocate(s.memory, Caller(who), book);
    var size := SizeOf(key, book);
    var stored := s.cache.maxEntries > 0 && size <= s.cache.maxBytes;
    var cached := if stored then Allocate(loaded.0, Cached, book) else loaded;
    var flown := Allocate(cached.0, Flying, book);
    (Shared(if stored then Insert(s.cache, key, cached.1, size) else s.cache, s.flights - {key},
            s.done[flight := Some(flown.1)], flown.0),
     loaded.1)
  }

  /** A waiter's copy of a finished flight's value. */
  function Collect(s: Shared, flight: nat, who: nat): (Shared, Meta)
    requires flight < |s.done| && s.done[flight].Some?
  {
    var copied := Allocate(s.memory, Caller(who), ContentOf(s.memory, s.done[flight].value));
    (s.(memory := copied.0), copied.1)
  }

  // ---- callers ----

  /** A caller of `get`: it leads the load of its key, it waits for a flight, or it has returned a value
      whose content at that moment was `given`. */
  datatype Call = Loading(key: string, flight: nat) | Waiting(key: string, flight: nat)
                | Returned(key: string, value: Meta, given: Book)

  /** As history, `used` says when each key was last inserted or hit. */
  datatype System = System(shared: Shared, calls: seq<Call>, time: nat, used: map<string, nat>)

  datatype Step = Get(key: string) | Finish(call: nat) | Wake(call: nat) | Scribble(call: nat, volume: real)

  /** One step of one caller; a step that is not enabled does nothing. In the last kind a caller that
      has returned writes through the volume pointer it was given. */
  function Next(s: System, step: Step, load: string -> Book): System {
    match step
    case Get(key) =>
      var (shared, entered) := Enter(s.shared, key, |s.calls|);
      (match entered
       case Hit(value) =>
         System(shared, s.calls + [Returned(key, value, ContentOf(shared.memory, value))], s.time + 1,
             s.used[key := s.time])
       case Join(flight) => s.(shared := shared, calls := s.calls + [Waiting(key, flight)])
       case Lead(flight) => s.(shared := shared, calls := s.calls + [Loading(key, flight)]))
    case Finish(i) =>
      if i < |s.calls| && s.calls[i].Loading? && s.calls[i].flight < |s.shared.done| then
        var key := s.calls[i].key;
        var (shared, value) := Publish(s.shared, key, s.calls[i].flight, load(key), i);
        System(shared, s.calls[i := Returned(key, value, ContentOf(shared.memory, value))], s.time + 1,
            s.used[key := s.time])
      else s
    case Wake(i) =>
      if i < |s.calls| && s.calls[i].Waiting? && s.calls[i].flight < |s.shared.done|
         && s.shared.done[s.calls[i].flight].Some? then
        var (shared, value) := Collect(s.shared, s.calls[i].flight, i);
        s.(shared := shared, calls := s.calls[i := Returned(s.calls[i].key, value, ContentOf(shared.memory, value))])
      else s
    case Scribble(i, volume) =>
      if i < |s.calls| && s.calls[i].Returned? && s.calls[i].value.volume.Some?
         && s.calls[i].value.volume.value < |s.shared.memory| then
        var at := s.calls[i].value.volume.value;
        s.(shared := s.shared.(memory := s.shared.memory[at := s.shared.memory[at].(value := volume)]))
      else s
  }

  /** The list is ordered by last use, most recent first. */
  ghost predicate ByRecency(list: seq<Entry>, used: map<string, nat>, time: nat) {
    && (forall e :: e in list ==> e.key in used && used[e.key] < time)
    && (forall i, j :: 0 <= i < j < |list| ==> Used(list[j], used) < Used(list[i], used))
  }

  ghost function Used(e: Entry, used: map<string, nat>): nat {
    if e.key in used then used[e.key] else 0
  }

  /** The value's cell, if any, was allocated for this owner. */
  predicate Holds(memory: seq<Cell>, m: Meta, owner: Owner) {
    m.volume.Some? ==> m.volume.value < |memory| && memory[m.volume.value].owner == owner
  }

  /** Some caller is loading this key. */
  ghost predicate Led(s: System, key: string)
    requires key in s.shared.flights
  {
    Loading(key, s.shared.flights[key]) in s.calls
  }

  ghost predicate CallOk(s: System, i: nat, load: string -> Book)
    requires i < |s.calls|
  {
    match s.calls[i]
    case Loading(key, flight) =>
      key in s.shared.flights && s.shared.flights[key] == flight && flight < |s.shared.done|
          && s.shared.done[flight].None?
    case Waiting(key, flight) =>
      flight < |s.shared.done| &&
      (if s.shared.done[flight].Some? then
         Holds(s.shared.memory, s.shared.done[flight].value, Flying) &&
         ContentOf(s.shared.memory, s.shared.done[flight].value) == load(key)
       else key in s.shared.flights && s.shared.flights[key] == flight)
    case Returned(key, value, given) => Holds(s.shared.memory, value, Caller(i)) && given == load(key)
  }

  /** No two callers load at once under the same key. */
  ghost predicate OneLoader(s: System) {
    forall i, j :: 0 <= i < j < |s.calls| && s.calls[i].Loading? && s.calls[j].Loading? ==>
                     s.calls[i].key != s.calls[j].key
  }

  ghost predicate FlightsOk(s: System) {
    && (forall k :: k in s.shared.flights ==>
          s.shared.flights[k] < |s.shared.done| && Led(s, k) && k !in s.shared.cache.entries)
    && (forall k, l :: k in s.shared.flights && l in s.shared.flights && k != l ==>
        s.shared.flights[k] != s.shared.flights[l])
  }

  /** Every cached value has a cell of the cache's own and the content of a fresh load. */
  ghost predicate ValuesOk(cache: Cache, memory: seq<Cell>, load: string -> Book) {
    forall k :: k in cache.entries ==>
      Holds(memory, cache.entries[k].value, Cached) && ContentOf(memory, cache.entries[k].value) == load(k)
  }

  ghost predicate SystemOk(s: System, load: string -> Book) {
    && CacheOk(s.shared.cache) && ByRecency(s.shared.cache.lru, s.used, s.time)
    && ValuesOk(s.shared.cache, s.shared.memory, load)
    && FlightsOk(s) && OneLoader(s)
    && (forall i :: 0 <= i < |s.calls| ==> CallOk(s, i, load))
  }

  lemma AllocateFacts(memory: seq<Cell>, owner: Owner, book: Book)
    ensures var (after, m) := Allocate(memory, owner, book);
            memory <= after && ContentOf(after, m) == book && Holds(after, m, owner)
  {
  }

  /** Later allocations leave a held value as it is. */
  lemma HeldStays(memory: seq<Cell>, after: seq<Cell>, m: Meta, owner: Owner)
    requires memory <= after && Holds(memory, m, owner)
    ensures Holds(after, m, owner) && ContentOf(after, m) == ContentOf(memory, m)
  {
  }

  lemma {:induction false} WithoutKeepsRecency(list: seq<Entry>, key: string, used: map<string, nat>)
    requires forall i, j :: 0 <= i < j < |list| ==> Used(list[j], used) < Used(list[i], used)
    ensures var r := Without(list, key); forall i, j :: 0 <= i < j < |r| ==> Used(r[j], used) < Used(r[i], used)
    ensures forall e :: e in Without(list, key) ==> e in list
  {
    if list != [] && list[0].key != key {
      var rest, r := list[1..], Without(list, key);
      assert list == [list[0]] + rest;
      WithoutKeepsRecency(rest, key, used);
      forall i, j | 0 <= i < j < |r| ensures Used(r[j], used) < Used(r[i], used) {
        if i == 0 {
          assert r[j] in rest;
          var k :| 0 <= k < |rest| && rest[k] == r[j];
          assert Used(list[k + 1], used) < Used(list[0], used);
        } else {
          assert r[i] == Without(rest, key)[i - 1] && r[j] == Without(rest, key)[j - 1];
        }
      }
    }
  }

  lemma OthersKeepRecency(key: string, list: seq<Entry>, used: map<string, nat>, time: nat)
    requires ByRecency(list, used, time) && forall e :: e in list ==> e.key != key
    ensures ByRecency(list, used[key := time], time + 1)
    ensures forall e :: e in list ==> Used(e, used[key := time]) < time
  {
    var now := used[key := time];
    forall i | 0 <= i < |list| ensures Used(list[i], now) == Used(list[i], used) {
      assert list[i] in list;
    }
  }

  /** A use puts its entry in front of entries with other keys used before. */
  lemma UsePutsInFront(entry: Entry, list: seq<Entry>, used: map<string, nat>, time: nat)
    requires ByRecency(list, used, time) && forall e :: e in list ==> e.key != entry.key
    ensures ByRecency([entry] + list, used[entry.key := time], time + 1)
  {
    var now, longer := used[entry.key := time], [entry] + list;
    OthersKeepRecency(entry.key, list, used, time);
    forall i, j | 0 <= i < j < |longer| ensures Used(longer[j], now) < Used(longer[i], now) {
      assert longer[j] in list;
      if i > 0 {
        assert Used(list[j - 1], now) < Used(list[i - 1], now);
      }
    }
  }

  lemma TouchRecency(c: Cache, key: string, used: map<string, nat>, time: nat)
    requires CacheOk(c) && key in c.entries && ByRecency(c.lru, used, time)
    ensures ByRecency(Touch(c, key).lru, used[key := time], time + 1)
  {
    var entry := c.entries[key];
    WithoutFacts(c.lru, entry);
    WithoutKeepsRecency(c.lru, key, used);
    UsePutsInFront(entry, Without(c.lru, key), used, time);
  }

  /** The flights still have their leaders when callers are only added. */
  lemma FlightsStay(s: System, t: System)
    requires FlightsOk(s) && t.shared.flights == s.shared.flights && |s.shared.done| <= |t.shared.done|
    requires s.calls <= t.calls && t.shared.cache.entries.Keys == s.shared.cache.entries.Keys
    ensures FlightsOk(t)
  {
    forall k | k in t.shared.flights ensures Led(t, k) {
      assert Led(s, k);
      var j :| 0 <= j < |s.calls| && s.calls[j] == Loading(k, s.shared.flights[k]);
      assert t.calls[j] == Loading(k, t.shared.flights[k]);
    }
  }

  /** A new caller that does not load leaves the others as they are. */
  lemma NewCallOk(s: System, t: System, load: string -> Book)
    requires FlightsOk(s) && OneLoader(s) && forall i :: 0 <= i < |s.calls| ==> CallOk(s, i, load)
    requires t.shared.flights == s.shared.flights && t.shared.done == s.shared.done
               && s.shared.memory <= t.shared.memory
    requires |t.calls| == |s.calls| + 1 && s.calls <= t.calls && !t.calls[|s.calls|].Loading?
    requires t.shared.cache.entries.Keys == s.shared.cache.entries.Keys && CallOk(t, |s.calls|, load)
    ensures FlightsOk(t) && OneLoader(t) && forall i :: 0 <= i < |t.calls| ==> CallOk(t, i, load)
  {
    FlightsStay(s, t);
    forall i | 0 <= i < |s.calls| ensures CallOk(t, i, load) {
      assert CallOk(s, i, load) && t.calls[i] == s.calls[i];
    }
  }

  lemma HitCacheOk(s: System, key: string, load: string -> Book)
    requires SystemOk(s, load) && key in s.shared.cache.entries
    ensures var t := Next(s, Get(key), load);
            && CacheOk(t.shared.cache) && ByRecency(t.shared.cache.lru, t.used, t.time)
            && ValuesOk(t.shared.cache, t.shared.memory, load)
            && t.shared.cache.entries == s.shared.cache.entries && s.shared.memory <= t.shared.memory
  {
    var t := Next(s, Get(key), load);
    var cached := s.shared.cache.entries[key].value;
    AllocateFacts(s.shared.memory, Caller(|s.calls|), ContentOf(s.shared.memory, cached));
    TouchOk(s.shared.cache, key);
    TouchRecency(s.shared.cache, key, s.used, s.time);
    forall k | k in t.shared.cache.entries
      ensures Holds(t.shared.memory, t.shared.cache.entries[k].value, Cached)
              && ContentOf(t.shared.memory, t.shared.cache.entries[k].value) == load(k)
    {
      HeldStays(s.shared.memory, t.shared.memory, s.shared.cache.entries[k].value, Cached);
    }
  }

  lemma HitOk(s: System, key: string, load: string -> Book)
    requires SystemOk(s, load) && key in s.shared.cache.entries
    ensures SystemOk(Next(s, Get(key), load), load)
  {
    HitCacheOk(s, key, load);
    AllocateFacts(s.shared.memory, Caller(|s.calls|), ContentOf(s.shared.memory, s.shared.cache.entries[key].value));
    NewCallOk(s, Next(s, Get(key), load), load);
  }

  lemma JoinOk(s: System, key: string, load: string -> Book)
    requires SystemOk(s, load) && key !in s.shared.cache.entries && key in s.shared.flights
    ensures SystemOk(Next(s, Get(key), load), load)
  {
    assert Led(s, key);
    var j :| 0 <= j < |s.calls| && s.calls[j] == Loading(key, s.shared.flights[key]);
    assert CallOk(s, j, load);
    NewCallOk(s, Next(s, Get(key), load), load);
  }

  lemma LeadFlightsOk(s: System, key: string, load: string -> Book)
    requires SystemOk(s, load) && key !in s.shared.cache.entries && key !in s.shared.flights
    ensures FlightsOk(Next(s, Get(key), load))
  {
    var t := Next(s, Get(key), load);
    assert t.calls[|s.calls|] == Loading(key, t.shared.flights[key]);
    forall k | k in t.shared.flights ensures Led(t, k) {
      if k != key {
        assert Led(s, k);
        var j :| 0 <= j < |s.calls| && s.calls[j] == Loading(k, s.shared.flights[k]);
        assert t.calls[j] == Loading(k, t.shared.flights[k]);
      }
    }
  }

  lemma LeadCallsOk(s: System, key: string, load: string -> Book)
    requires SystemOk(s, load) && key !in s.shared.cache.entries && key !in s.shared.flights
    ensures OneLoader(Next(s, Get(key), load))
    ensures forall i :: 0 <= i < |Next(s, Get(key), load).calls| ==> CallOk(Next(s, Get(key), load), i, load)
  {
    var t := Next(s, Get(key), load);
    forall i | 0 <= i < |t.calls| ensures CallOk(t, i, load)
        && (i < |s.calls| && t.calls[i].Loading? ==> t.calls[i].key != key) {
      if i < |s.calls| {
        assert CallOk(s, i, load) && t.calls[i] == s.calls[i];
      }
    }
  }

  lemma MissOk(s: System, key: string, load: string -> Book)
    requires SystemOk(s, load) && key !in s.shared.cache.entries
    ensures SystemOk(Next(s, Get(key), load), load)
  {
    if key in s.shared.flights {
      JoinOk(s, key, load);
    } else {
      LeadFlightsOk(s, key, load);
      LeadCallsOk(s, key, load);
    }
  }

  lemma InsertRecency(c: Cache, key: string, value: Meta, size: nat, used: map<string, nat>, time: nat)
    requires CacheOk(c) && key !in c.entries && ByRecency(c.lru, used, time)
    ensures ByRecency(Insert(c, key, value, size).lru, used[key := time], time + 1)
    ensures ByRecency(c.lru, used[key := time], time + 1)
  {
    OthersKeepRecency(key, c.lru, used, time);
    if c.maxEntries > 0 && size <= c.maxBytes {
      EvictOk(c, size);
      var kept := Evict(c, size).lru;
      PrefixRecency(c.lru, kept, used, time);
      UsePutsInFront(Entry(key, value, size), kept, used, time);
    }
  }

  lemma PrefixRecency(list: seq<Entry>, front: seq<Entry>, used: map<string, nat>, time: nat)
    requires ByRecency(list, used, time) && front <= list
    ensures ByRecency(front, used, time)
    ensures forall e :: e in front ==> e in list
  {
    assert forall i :: 0 <= i < |front| ==> front[i] == list[i];
  }

  lemma FinishedCacheOk(s: System, i: nat, load: string -> Book)
    requires SystemOk(s, load) && i < |s.calls| && s.calls[i].Loading?
    ensures var t := Next(s, Finish(i), load);
            && CacheOk(t.shared.cache) && ByRecency(t.shared.cache.lru, t.used, t.time)
            && ValuesOk(t.shared.cache, t.shared.memory, load)
            && (forall k :: k in t.shared.cache.entries ==> k == s.calls[i].key || k in s.shared.cache.entries)
  {
    var key, c, memory := s.calls[i].key, s.shared.cache, s.shared.memory;
    assert CallOk(s, i, load);
    var loaded := Allocate(memory, Caller(i), load(key));
    var cached := Allocate(loaded.0, Cached, load(key));
    AllocateFacts(memory, Caller(i), load(key));
    AllocateFacts(loaded.0, Cached, load(key));
    AllocateFacts(cached.0, Flying, load(key));
    AllocateFacts(loaded.0, Flying, load(key));
    var size := SizeOf(key, load(key));
    InsertOk(c, key, cached.1, size);
    InsertRecency(c, key, cached.1, size, s.used, s.time);
    var t := Next(s, Finish(i), load);
    forall k | k in t.shared.cache.entries
      ensures Holds(t.shared.memory, t.shared.cache.entries[k].value, Cached)
              && ContentOf(t.shared.memory, t.shared.cache.entries[k].value) == load(k)
    {
      if k == key {
        HeldStays(cached.0, t.shared.memory, cached.1, Cached);
      } else {
        HeldStays(memory, t.shared.memory, c.entries[k].value, Cached);
      }
    }
  }

  /** What the second critical section does to flights and memory. */
  lemma PublishFacts(s: Shared, key: string, flight: nat, book: Book, who: nat)
    requires flight < |s.done|
    ensures var (t, value) := Publish(s, key, flight, book, who);
            && s.memory <= t.memory && Holds(t.memory, value, Caller(who)) && ContentOf(t.memory, value) == book
            && t.flights == s.flights - {key} && |t.done| == |s.done|
            && t.done[flight].Some? && Holds(t.memory, t.done[flight].value, Flying)
            && ContentOf(t.memory, t.done[flight].value) == book
            && forall f :: 0 <= f < |s.done| && f != flight ==> t.done[f] == s.done[f]
  {
    AllocateFacts(s.memory, Caller(who), book);
    var loaded := Allocate(s.memory, Caller(who), book);
    AllocateFacts(loaded.0, Cached, book);
    AllocateFacts(loaded.0, Flying, book);
    AllocateFacts(Allocate(loaded.0, Cached, book).0, Flying, book);
  }

  lemma FinishFlightsOk(s: System, i: nat, load: string -> Book)
    requires SystemOk(s, load) && i < |s.calls| && s.calls[i].Loading?
    ensures FlightsOk(Next(s, Finish(i), load))
  {
    var key, flight := s.calls[i].key, s.calls[i].flight;
    assert CallOk(s, i, load);
    FinishedCacheOk(s, i, load);
    PublishFacts(s.shared, key, flight, load(key), i);
    var t := Next(s, Finish(i), load);
    forall k | k in t.shared.flights
      ensures Led(t, k) && t.shared.flights[k] < |t.shared.done| && k !in t.shared.cache.entries
    {
      assert Led(s, k) && k != key;
      var j :| 0 <= j < |s.calls| && s.calls[j] == Loading(k, s.shared.flights[k]);
      assert t.calls[j] == Loading(k, t.shared.flights[k]);
    }
  }

  lemma FinishCallsOk(s: System, i: nat, load: string -> Book)
    requires SystemOk(s, load) && i < |s.calls| && s.calls[i].Loading?
    ensures OneLoader(Next(s, Finish(i), load))
    ensures forall j :: 0 <= j < |s.calls| ==>
              j < |Next(s, Finish(i), load).calls| && CallOk(Next(s, Finish(i), load), j, load)
    ensures |Next(s, Finish(i), load).calls| == |s.calls|
  {
    var key, flight := s.calls[i].key, s.calls[i].flight;
    assert CallOk(s, i, load);
    PublishFacts(s.shared, key, flight, load(key), i);
    var t := Next(s, Finish(i), load);
    assert |t.calls| == |s.calls|;
    forall j | 0 <= j < |s.calls| ensures CallOk(t, j, load) {
      if j != i {
        assert CallOk(s, j, load) && t.calls[j] == s.calls[j];
        if s.calls[j].Loading? {
          assert s.calls[j].key != key;
        }
      }
    }
    forall a, b | 0 <= a < b < |t.calls| && t.calls[a].Loading? && t.calls[b].Loading?
      ensures t.calls[a].key != t.calls[b].key
    {
      assert s.calls[a].key != s.calls[b].key;
    }
  }

  lemma FinishOk(s: System, i: nat, load: string -> Book)
    requires SystemOk(s, load) && i < |s.calls| && s.calls[i].Loading?
    ensures SystemOk(Next(s, Finish(i), load), load)
  {
    FinishedCacheOk(s, i, load);
    FinishFlightsOk(s, i, load);
    FinishCallsOk(s, i, load);
  }

  /** A step that only changes one call that is not loading, and memory outside the cells of the cache,
      of flights and of other callers, keeps the invariant. */
  lemma MemoryStepOk(s: System, t: System, i: nat, load: string -> Book)
    requires SystemOk(s, load) && i < |s.calls| == |t.calls| && !s.calls[i].Loading? && !t.calls[i].Loading?
    requires t == s.(shared := s.shared.(memory := t.shared.memory), calls := s.calls[i := t.calls[i]])
    requires |s.shared.memory| <= |t.shared.memory|
    requires forall a :: 0 <= a < |s.shared.memory| ==>
               t.shared.memory[a].owner == s.shared.memory[a].owner &&
               (s.shared.memory[a].owner != Caller(i) ==> t.shared.memory[a] == s.shared.memory[a])
    requires CallOk(t, i, load)
    ensures SystemOk(t, load)
  {
    forall k | k in t.shared.flights ensures Led(t, k) {
      assert Led(s, k);
      var j :| 0 <= j < |s.calls| && s.calls[j] == Loading(k, s.shared.flights[k]);
      assert t.calls[j] == Loading(k, t.shared.flights[k]);
    }
    forall j | 0 <= j < |t.calls| ensures CallOk(t, j, load) {
      if j != i {
        assert CallOk(s, j, load);
      }
    }
  }

  lemma WakeOk(s: System, i: nat, load: string -> Book)
    requires SystemOk(s, load)
    ensures SystemOk(Next(s, Wake(i), load), load)
  {
    var t := Next(s, Wake(i), load);
    if t != s {
      assert CallOk(s, i, load);
      AllocateFacts(s.shared.memory, Caller(i), load(s.calls[i].key));
      MemoryStepOk(s, t, i, load);
    }
  }

  lemma ScribbleOk(s: System, i: nat, volume: real, load: string -> Book)
    requires SystemOk(s, load)
    ensures SystemOk(Next(s, Scribble(i, volume), load), load)
  {
    var t := Next(s, Scribble(i, volume), load);
    if t != s {
      assert CallOk(s, i, load);
      MemoryStepOk(s, t, i, load);
    }
  }

  lemma StepOk(s: System, step: Step, load: string -> Book)
    requires SystemOk(s, load)
    ensures SystemOk(Next(s, step, load), load)
  {
    match step {
      case Get(key) =>
        if key in s.shared.cache.entries {
          HitOk(s, key, load);
        } else {
          MissOk(s, key, load);
        }
      case Finish(i) =>
        if i < |s.calls| && s.calls[i].Loading? {
          FinishOk(s, i, load);
        }
      case Wake(i) => WakeOk(s, i, load);
      case Scribble(i, volume) => ScribbleOk(s, i, volume, load);
    }
  }

  lemma {:induction false} EvictKeepsLimits(c: Cache, size: nat)
    ensures Evict(c, size).maxEntries == c.maxEntries && Evict(c, size).maxBytes == c.maxBytes
    decreases |c.lru|
  {
    if MustEvict(c, size) && c.lru != [] {
      EvictKeepsLimits(DropOldest(c), size);
    }
  }

  lemma LimitsStay(s: System, step: Step, load: string -> Book)
    ensures Next(s, step, load).shared.cache.maxEntries == s.shared.cache.maxEntries
    ensures Next(s, step, load).shared.cache.maxBytes == s.shared.cache.maxBytes
  {
    if step.Finish? && step.call < |s.calls| {
      EvictKeepsLimits(s.shared.cache, SizeOf(s.calls[step.call].key, load(s.calls[step.call].key)));
    }
  }

  function Start(maxEntries: int, maxBytes: int): System {
    System(Shared(Cache(map[], [], 0, maxEntries, maxBytes), map[], [], []), [], 0, map[])
  }

  /** The state after some steps, in any order by any callers, and its invariant. */
  ghost function Run(steps: seq<Step>, load: string -> Book, maxEntries: int, maxBytes: int): (s: System)
    ensures SystemOk(s, load)
    ensures s.shared.cache.maxEntries == maxEntries && s.shared.cache.maxBytes == maxBytes
  {
    if steps == [] then Start(maxEntries, maxBytes)
    else
      var before := Run(steps[..|steps| - 1], load, maxEntries, maxBytes);
      StepOk(before, steps[|steps| - 1], load);
      LimitsStay(before, steps[|steps| - 1], load);
      Next(before, steps[|steps| - 1], load)
  }

  lemma InvariantMeans(s: System, load: string -> Book)
    requires SystemOk(s, load)
    ensures forall i :: 0 <= i < |s.calls| && s.calls[i].Returned? ==> s.calls[i].given == load(s.calls[i].key)
    ensures forall i :: 0 <= i < |s.calls| && s.calls[i].Loading? ==> s.calls[i].key !in s.shared.cache.entries
    ensures forall i :: 0 <= i < |s.calls| && s.calls[i].Waiting? ==>
              s.calls[i].flight < |s.shared.done| &&
              (s.shared.done[s.calls[i].flight].None? ==> Loading(s.calls[i].key, s.calls[i].flight) in s.calls)
  {
    forall i | 0 <= i < |s.calls| && s.calls[i].Returned? ensures s.calls[i].given == load(s.calls[i].key) {
      assert CallOk(s, i, load);
    }
    forall i | 0 <= i < |s.calls| && s.calls[i].Loading? ensures s.calls[i].key !in s.shared.cache.entries {
      assert CallOk(s, i, load);
    }
    forall i | 0 <= i < |s.calls| && s.calls[i].Waiting?
      ensures s.calls[i].flight < |s.shared.done| &&
              (s.shared.done[s.calls[i].flight].None? ==> Loading(s.calls[i].key, s.calls[i].flight) in s.calls)
    {
      assert CallOk(s, i, load);
    }
  }

  /** For every interleaving, and whatever callers write through the pointers they were given, each call
      returned what `load(key)` says; no key is loaded twice at once, or both cached and in flight; whoever
      waits on an unfinished flight waits for a caller loading its key; and the limits hold. */
  lemma EveryGetReturnsLoad(steps: seq<Step>, load: string -> Book, maxEntries: int, maxBytes: int)
    ensures var s := Run(steps, load, maxEntries, maxBytes);
            && (forall i :: 0 <= i < |s.calls| && s.calls[i].Returned? ==> s.calls[i].given == load(s.calls[i].key))
            && OneLoader(s)
            && (forall i :: 0 <= i < |s.calls| && s.calls[i].Loading? ==> s.calls[i].key !in s.shared.cache.entries)
            && (forall i :: 0 <= i < |s.calls| && s.calls[i].Waiting? ==>
                  s.calls[i].flight < |s.shared.done| &&
                  (s.shared.done[s.calls[i].flight].None? ==> Loading(s.calls[i].key, s.calls[i].flight) in s.calls))
            && (maxEntries >= 0 ==> |s.shared.cache.lru| <= maxEntries)
            && (maxBytes >= 0 ==> TotalSize(s.shared.cache.lru) <= maxBytes)
  {
    InvariantMeans(Run(steps, load, maxEntries, maxBytes), load);
  }

  /** A finished load evicts only entries used less recently than every entry it keeps. */
  lemma EvictsLeastRecent(s: System, i: nat, load: string -> Book, gone: string, kept: string)
    requires SystemOk(s, load) && i < |s.calls| && s.calls[i].Loading?
    requires gone in s.shared.cache.entries && gone !in Next(s, Finish(i), load).shared.cache.entries
    requires kept in s.shared.cache.entries && kept in Next(s, Finish(i), load).shared.cache.entries
    ensures gone in s.used && kept in s.used && s.used[gone] < s.used[kept]
  {
    var key, c := s.calls[i].key, s.shared.cache;
    assert CallOk(s, i, load);
    var size := SizeOf(key, load(key));
    EvictOk(c, size);
    var d := Evict(c, size);
    assert kept in d.entries && gone !in d.entries;
    var k :| 0 <= k < |d.lru| && d.lru[k] == d.entries[kept];
    var g :| 0 <= g < |c.lru| && c.lru[g] == c.entries[gone];
    assert c.lru[g] !in d.lru;
    assert c.lru[k].key == kept && c.lru[k] in c.lru;
    assert Used(c.lru[g], s.used) < Used(c.lru[k], s.used);
  }
}
