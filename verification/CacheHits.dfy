/** What the metadata cache (internal/server/metadata_cache.go) is for: a finished load is stored and found again, and
    the sizes that the limit counts are those of the texts that are kept. */
module CacheHits {
  import opened Text
  import opened CacheModel

  /** The bytes of the texts of an entry, and eight for the rest. */
  function Weight(key: string, load: string -> Book): nat {
    var b := load(key);
    8 + ByteLen(key) + ByteLen(b.title) + ByteLen(b.author) + ByteLen(b.series) + ByteLen(b.cover)
  }

  ghost predicate SizesOk(c: Cache, load: string -> Book) {
    forall k :: k in c.entries ==> c.entries[k].size == Weight(k, load)
  }

  lemma InsertSizes(c: Cache, key: string, value: Meta, load: string -> Book)
    requires CacheOk(c) && SizesOk(c, load)
    ensures SizesOk(Insert(c, key, value, Weight(key, load)), load)
  {
    var size := Weight(key, load);
    if c.maxEntries > 0 && size <= c.maxBytes {
      forall k | k in Evict(c, size).entries ensures Evict(c, size).entries[k].size == Weight(k, load) {
        EvictKeepsEntries(c, size, k);
      }
    }
  }

  lemma FinishSizes(s: System, i: nat, load: string -> Book)
    requires CacheOk(s.shared.cache) && SizesOk(s.shared.cache, load)
    requires i < |s.calls| && s.calls[i].Loading? && s.calls[i].flight < |s.shared.done|
    ensures SizesOk(Next(s, Finish(i), load).shared.cache, load)
  {
    var key, c := s.calls[i].key, s.shared.cache;
    var loaded := Allocate(s.shared.memory, Caller(i), load(key));
    var value := Allocate(loaded.0, Cached, load(key)).1;
    InsertSizes(c, key, value, load);
    var after := Next(s, Finish(i), load).shared.cache;
    assert after == c || after == Insert(c, key, value, Weight(key, load));
  }

  lemma StepSizes(s: System, step: Step, load: string -> Book)
    requires CacheOk(s.shared.cache) && SizesOk(s.shared.cache, load)
    ensures SizesOk(Next(s, step, load).shared.cache, load)
  {
    if step.Finish? && step.call < |s.calls| && s.calls[step.call].Loading?
       && s.calls[step.call].flight < |s.shared.done| {
      FinishSizes(s, step.call, load);
    } else {
      assert Next(s, step, load).shared.cache.entries == s.shared.cache.entries;
    }
  }

  lemma {:induction false} TotalOfList(c: Cache, n: nat, load: string -> Book)
    requires SameEntries(c.entries, c.lru) && SizesOk(c, load) && n <= |c.lru|
    ensures TotalSize(c.lru[..n]) == TotalWeight(c.lru[..n], load)
  {
    if n > 0 {
      TotalOfList(c, n - 1, load);
      assert c.lru[..n][..n - 1] == c.lru[..n - 1] && c.lru[..n][n - 1] == c.lru[n - 1];
      assert c.lru[n - 1] in c.lru;
    }
  }

  function TotalWeight(list: seq<Entry>, load: string -> Book): nat {
    if list == [] then 0 else TotalWeight(list[..|list| - 1], load) + Weight(list[|list| - 1].key, load)
  }

  lemma {:induction false} RunSizes(steps: seq<Step>, load: string -> Book, maxEntries: int, maxBytes: int)
    ensures SizesOk(Run(steps, load, maxEntries, maxBytes).shared.cache, load)
  {
    if steps != [] {
      RunSizes(steps[..|steps| - 1], load, maxEntries, maxBytes);
      StepSizes(Run(steps[..|steps| - 1], load, maxEntries, maxBytes), steps[|steps| - 1], load);
    }
  }

  /** Whatever the callers do, the texts of the books that are kept, with their keys, fit the limit of the bytes. */
  lemma KeptTextsFit(steps: seq<Step>, load: string -> Book, maxEntries: int, maxBytes: int)
    ensures var c := Run(steps, load, maxEntries, maxBytes).shared.cache;
            && c.bytes == TotalWeight(c.lru, load) && (c.lru != [] ==> c.bytes <= maxBytes && |c.lru| <= maxEntries)
  {
    var c := Run(steps, load, maxEntries, maxBytes).shared.cache;
    RunSizes(steps, load, maxEntries, maxBytes);
    TotalOfList(c, |c.lru|, load);
    assert c.lru[..|c.lru|] == c.lru;
  }

  /** A finished load is stored at the front when caching is on and the book fits at all; otherwise the cache stays as
      it was. */
  lemma LoadIsStored(s: System, i: nat, load: string -> Book)
    requires SystemOk(s, load) && i < |s.calls| && s.calls[i].Loading?
    ensures var key, t := s.calls[i].key, Next(s, Finish(i), load);
            && SystemOk(t, load) && t.calls[i].Returned? && t.calls[i].key == key && key !in t.shared.flights
            && if s.shared.cache.maxEntries > 0 && Weight(key, load) <= s.shared.cache.maxBytes
               then key in t.shared.cache.entries && t.shared.cache.lru != [] && t.shared.cache.lru[0].key == key
               else t.shared.cache == s.shared.cache
  {
    assert CallOk(s, i, load);
    FinishOk(s, i, load);
  }

  /** A call returns at once, with the book and without a flight of its own, exactly when its key is stored; and it
      leads a load exactly when the key is neither stored nor in flight. */
  lemma HitIff(s: System, key: string, load: string -> Book)
    requires SystemOk(s, load)
    ensures var t := Next(s, Get(key), load); var call := t.calls[|s.calls|];
            && SystemOk(t, load) && |t.calls| == |s.calls| + 1 && t.shared.cache.entries == s.shared.cache.entries
            && (call.Returned? <==> key in s.shared.cache.entries)
            && (call.Returned? ==> call.given == load(key) && t.shared.flights == s.shared.flights)
            && (call.Loading? <==> key !in s.shared.cache.entries && key !in s.shared.flights)
  {
    StepOk(s, Get(key), load);
    var t := Next(s, Get(key), load);
    assert CallOk(t, |s.calls|, load);
  }

  /** So the next call for a book that was just loaded, if it fits, is answered from the cache. */
  lemma NextCallHits(s: System, i: nat, load: string -> Book)
    requires SystemOk(s, load) && i < |s.calls| && s.calls[i].Loading?
    ensures var key := s.calls[i].key; var t := Next(s, Finish(i), load);
            (Next(t, Get(key), load).calls[|t.calls|].Returned? <==>
               s.shared.cache.maxEntries > 0 && Weight(key, load) <= s.shared.cache.maxBytes)
  {
    LoadIsStored(s, i, load);
    assert CallOk(s, i, load);
    assert s.calls[i].key !in s.shared.cache.entries;
    HitIff(Next(s, Finish(i), load), s.calls[i].key, load);
  }

  /** A stored book stays until a finished load has no room for one more. */
  lemma StoredStays(s: System, step: Step, load: string -> Book, key: string)
    requires SystemOk(s, load) && key in s.shared.cache.entries
    requires step.Finish? && step.call < |s.calls| && s.calls[step.call].Loading? ==>
               && |s.shared.cache.lru| < s.shared.cache.maxEntries
               && s.shared.cache.bytes + Weight(s.calls[step.call].key, load) <= s.shared.cache.maxBytes
    ensures key in Next(s, step, load).shared.cache.entries
  {
  }
}
