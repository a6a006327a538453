/** The metadata cache as an object (internal/server/metadata_cache.go): the critical sections of `get`
    on the map, the recency list, the byte count and the table of flights they update in place. */
module MetadataCache {
  import opened Text
  import opened CacheModel

  class MetadataCache {
    var entries: map<string, Entry>
    var lru: seq<Entry>
    var flights: map<string, nat>
    var bytes: int
    const maxEntries: int
    const maxBytes: int
    /** The flight objects made so far, and the memory that holds volumes. */
    var done: seq<Option<Meta>>
    var memory: seq<Cell>

    constructor (maxEntries: int, maxBytes: int)
      ensures State() == Shared(Cache(map[], [], 0, maxEntries, maxBytes), map[], [], [])
    {
      entries, lru, flights, bytes, done, memory := map[], [], map[], 0, [], [];
      this.maxEntries, this.maxBytes := maxEntries, maxBytes;
    }

    function State(): Shared
      reads this
    {
      Shared(Cache(entries, lru, bytes, maxEntries, maxBytes), flights, done, memory)
    }

    /** `copyMetadata`: the same content, in a cell of the receiver's own. */
    method CopyMetadata(m: Meta, owner: Owner) returns (copy: Meta)
      modifies this`memory
      ensures (memory, copy) == Allocate(old(memory), owner, ContentOf(old(memory), m))
    {
      copy := m.(volume := None);
      if m.volume.Some? && m.volume.value < |memory| {
        copy := copy.(volume := Some(|memory|));
        memory := memory + [Cell(owner, memory[m.volume.value].value)];
      }
    }

    method Lookup(key: string, who: nat) returns (entered: Entered)
      modifies this
      ensures (State(), entered) == Enter(old(State()), key, who)
    {
      if key in entries {
        var element := entries[key];
        lru := [element] + Without(lru, key);
        var value := CopyMetadata(element.value, Caller(who));
        return Hit(value);
      }
      if key in flights {
        return Join(flights[key]);
      }
      entered := Lead(|done|);
      flights := flights[key := |done|];
      done := done + [None];
    }

    /** The eviction loop: it ends, and never takes the back of an empty list. */
    method EvictFor(size: nat)
      requires bytes == TotalSize(lru) && maxEntries > 0 && size <= maxBytes
      modifies this`entries, this`lru, this`bytes
      ensures State() == old(State()).(cache := Evict(old(State().cache), size))
    {
      ghost var before := State();
      while |lru| >= maxEntries || bytes + size > maxBytes
        invariant bytes == TotalSize(lru)
        invariant Evict(State().cache, size) == Evict(before.cache, size)
        invariant State() == before.(cache := State().cache)
        decreases |lru|
      {
        ghost var c := State().cache;
        var oldest := lru[|lru| - 1];
        entries := entries - {oldest.key};
        bytes := bytes - oldest.size;
        lru := lru[..|lru| - 1];
        assert State().cache == DropOldest(c);
      }
    }

    /** The leader's second critical section, with the value that its load outside the mutex returned. */
    method Complete(key: string, flight: nat, book: Book, who: nat) returns (value: Meta)
      requires bytes == TotalSize(lru) && flight < |done|
      modifies this
      ensures (State(), value) == Publish(old(State()), key, flight, book, who)
    {
      var loaded := Allocate(memory, Caller(who), book);
      memory, value := loaded.0, loaded.1;
      AllocateFacts(old(memory), Caller(who), book);
      var size := SizeOf(key, book);
      if maxEntries > 0 && size <= maxBytes {
        EvictFor(size);
        var copy := CopyMetadata(value, Cached);
        AllocateFacts(loaded.0, Cached, book);
        HeldStays(loaded.0, memory, value, Caller(who));
        var element := Entry(key, copy, size);
        entries := entries[key := element];
        lru := [element] + lru;
        bytes := bytes + size;
      }
      var shared := CopyMetadata(value, Flying);
      done := done[flight := Some(shared)];
      flights := flights - {key};
    }

    /** A waiter's copy, once its flight is done. */
    method Receive(flight: nat, who: nat) returns (value: Meta)
      requires flight < |done| && done[flight].Some?
      modifies this`memory
      ensures (State(), value) == Collect(old(State()), flight, who)
    {
      value := CopyMetadata(done[flight].value, Caller(who));
    }
  }
}
