/**
 Reading the flat disk: the cache of decompressed chunks as one reader at a time sees it
 (data/chunk_provider.cc), and reads of any range (data/data_provider.cc).
 */
module FlatReader {
  import opened Prelude
  import opened Lru
  import opened Stores
  import opened FlatDisk
  import opened Download

  /**
   The packed chunks of the node that started the network: whole when decompressed, and
   listed in the catalogue of hashes.
   */
  ghost predicate Published(origin: map<nat, Bytes>, codec: Codec, catalogue: Catalogue) {
    && catalogue.CollisionFree() && |catalogue.hashes| <= U32
    && (forall id: nat :: id < |catalogue.hashes| <==> id in origin)
    && forall id :: id in origin ==>
         && |origin[id]| <= CHUNK_SIZE && catalogue.Lists(id, origin[id])
         && codec.decompress(origin[id]).Some? && |codec.decompress(origin[id]).value| == CHUNK_SIZE
  }

  /** A store that holds nothing but published chunks. */
  ghost predicate Agrees(disk: map<nat, Bytes>, origin: map<nat, Bytes>) {
    forall id :: id in disk ==> id in origin && disk[id] == origin[id]
  }

  /** A chunk that is fetched by its checksum is the published one. */
  lemma FetchedAgrees(disk: map<nat, Bytes>, origin: map<nat, Bytes>, codec: Codec, catalogue: Catalogue,
                      victim: Option<nat>, id: nat, data: Bytes)
    requires Published(origin, codec, catalogue) && Agrees(disk, origin)
    requires |data| <= CHUNK_SIZE && catalogue.Lists(id, data)
    ensures Agrees(Unlinked(disk, victim)[id := data], origin)
    ensures data == origin[id]
  {
    assert id in origin && catalogue.Lists(id, origin[id]);
  }

  /** A bounded collection that has just got or used an item: it comes first in the queue, and only the victim left. */
  ghost predicate Entered(size: nat, q: seq<nat>, before: map<nat, Bytes>, id: nat, data: Bytes,
                          queue: seq<nat>, after: map<nat, Bytes>)
    requires size > 0
  {
    && queue == Updated(q, size, id)
    && after == Unlinked(before, Victim(q, size, id))[id := data]
  }

  /** The items are those in the queue, and a part of the flat disk. */
  ghost predicate Mirrors(items: map<nat, Bytes>, q: seq<nat>, flat: map<nat, Bytes>) {
    && (forall id :: id in items <==> id in q)
    && forall id :: id in items ==> id in flat && items[id] == flat[id]
  }

  lemma MirrorsMore(items: map<nat, Bytes>, q: seq<nat>, flat: map<nat, Bytes>, victim: Option<nat>, id: nat,
                    queue: seq<nat>)
    requires Mirrors(items, q, flat) && id in flat
    requires forall x :: x in queue <==> x == id || (x in q && victim != Some(x))
    ensures Mirrors(Unlinked(items, victim)[id := flat[id]], queue, flat)
  {
  }

  lemma EnterKeeps(size: nat, q: seq<nat>, items: map<nat, Bytes>, flat: map<nat, Bytes>, id: nat)
    requires size > 0 && Distinct(q) && |q| <= size && Mirrors(items, q, flat) && id in flat
    ensures var after := Unlinked(items[id := flat[id]], Victim(q, size, id));
      && Mirrors(after, Updated(q, size, id), flat)
      && Entered(size, q, items, id, flat[id], Updated(q, size, id), after)
  {
    UpdateKeeps(q, size, id);
    WriteThenUnlink(items, q, size, id, flat[id]);
    MirrorsMore(items, q, flat, Victim(q, size, id), id, Updated(q, size, id));
  }

  /** An item that is there is used. */
  lemma UseKeeps(size: nat, q: seq<nat>, items: map<nat, Bytes>, flat: map<nat, Bytes>, id: nat)
    requires size > 0 && Distinct(q) && |q| <= size && Mirrors(items, q, flat) && id in items
    ensures var after := Unlinked(items, Victim(q, size, id));
      && Mirrors(after, Updated(q, size, id), flat)
      && Entered(size, q, items, id, flat[id], Updated(q, size, id), after)
  {
    assert items[id := flat[id]] == items;
    EnterKeeps(size, q, items, flat, id);
  }

  /** Storing an item and then using it. */
  lemma EnteredTwice(size: nat, q: seq<nat>, id: nat)
    requires size > 0
    ensures Updated(Updated(q, size, id), size, id) == Updated(q, size, id)
  {
  }

  /** Using an item that is there changes the queue only. */
  lemma UsedOnly(size: nat, q: seq<nat>, m: map<nat, Bytes>, id: nat)
    requires size > 0 && id in q && id in m
    ensures Entered(size, q, m, id, m[id], Updated(q, size, id), m)
  {
  }

  /** Opens `ChunkProvider.Valid`. */
  ghost predicate OpenProvider(k: int) {
    true
  }

  class ChunkProvider {
    // The cache: the data of each chunk by id.
    var entries: map<nat, Bytes>
    const collector: LruCollector
    const store: CompressedStore
    const catalogue: Catalogue

    ghost const origin: map<nat, Bytes>

    ghost function Repr(): set<object> {
      {this, collector, store.chunkStore, store.chunkStore.collector}
    }

    ghost function Flat(): map<nat, Bytes> {
      Chunks(origin, store.codec)
    }

    // The cached chunks are those in the queue, and they are those of the flat disk.
    ghost predicate Cached()
      reads this, collector
    {
      Mirrors(entries, Ids(collector.queue), Flat())
    }

    ghost predicate CacheSide()
      reads this, collector
    {
      collector.Valid() && Cached()
    }

    ghost predicate StoreSide()
      reads this, store, store.chunkStore, store.chunkStore.collector
    {
      && store.Valid()
      && Published(origin, store.codec, catalogue)
      && Agrees(store.chunkStore.disk, origin)
    }

    // A closed definition.
    ghost predicate Valid()
      reads this, collector, store, store.chunkStore, store.chunkStore.collector
    {
      && collector.size > 0 && store.chunkStore.collector.size > 0
      && forall k: int {:trigger OpenProvider(k)} :: OpenProvider(k) ==>
           CacheSide() && StoreSide() && collector != store.chunkStore.collector
    }

    constructor (store: CompressedStore, size: nat, catalogue: Catalogue, ghost origin: map<nat, Bytes>)
      requires store.Valid() && size > 0
      requires Published(origin, store.codec, catalogue) && Agrees(store.chunkStore.disk, origin)
      ensures Valid() && fresh(collector) && entries == map[]
      ensures collector.size == size && Ids(collector.queue) == []
      ensures this.store == store && this.catalogue == catalogue && this.origin == origin
    {
      this.store, this.catalogue, this.origin := store, catalogue, origin;
      entries := map[];
      collector := new LruCollector(size);
    }

    lemma WholeChunks(id: nat)
      requires Published(origin, store.codec, catalogue)
      ensures id < |catalogue.hashes| <==> id in Flat()
      ensures id in Flat() ==> |Flat()[id]| == CHUNK_SIZE
      ensures id in Flat() ==> store.codec.decompress(origin[id]) == Some(Flat()[id])
    {
    }

    lemma Listed(id: nat)
      requires Valid()
      ensures id < |catalogue.hashes| <==> id in Flat()
      ensures id < |catalogue.hashes| <==> id in origin
    {
      assert OpenProvider(0);
    }

    lemma FewChunks()
      requires Valid()
      ensures |catalogue.hashes| <= U32
    {
      assert OpenProvider(0);
    }

    /** The chunk is used; the one that leaves the queue leaves the cache. */
    method Touch(id: nat)
      requires collector.Valid()
      modifies this`entries, collector
      ensures collector.Valid()
      ensures Ids(collector.queue) == Updated(old(Ids(collector.queue)), collector.size, id)
      ensures entries == Unlinked(old(entries), Victim(old(Ids(collector.queue)), collector.size, id))
    {
      var evicted := collector.Update(id);
      if evicted.Some? {
        entries := entries - {evicted.value};
      }
    }

    /** The decompressed chunk, from the store or from peers. */
    method Load(id: nat, replies: seq<Reply>) returns (defined: bool, err: ErrorCode, data: Bytes)
      requires StoreSide()
      modifies store.chunkStore, store.chunkStore.collector
      ensures StoreSide()
      ensures defined <==> old(id in store.chunkStore.disk) || !Hurts(catalogue, id, replies)
      ensures err == OK ==> id in Flat() && data == Flat()[id]
      ensures err == OK <==> old(Reachable(id, replies))
      ensures id in old(store.chunkStore.disk) || err != OK ==> store.chunkStore.disk == old(store.chunkStore.disk)
      ensures err == OK ==> id in origin && StoreEntered(old(Ids(store.chunkStore.collector.queue)),
                                                         old(store.chunkStore.disk), id)
      ensures err != OK ==> store.chunkStore.disk == old(store.chunkStore.disk)
      ensures err != OK ==> Ids(store.chunkStore.collector.queue) == old(Ids(store.chunkStore.collector.queue))
    {
      WholeChunks(id);
      ghost var c := store.chunkStore;
      ghost var q, size := Ids(c.collector.queue), c.collector.size;
      EnteredTwice(size, q, id);
      if id in c.disk {
        UsedOnly(size, q, c.disk, id);
      }
      defined := true;
      err, data := store.ReadChunk(id);
      if err == NOT_FOUND {
        defined, err := Fetch(id, replies);
        if err == OK {
          err, data := store.ReadChunk(id);
        }
      }
    }

    /** Ask peers for a chunk; when it comes, it is the published one. */
    method Fetch(id: nat, replies: seq<Reply>) returns (defined: bool, err: ErrorCode)
      requires StoreSide()
      modifies store.chunkStore, store.chunkStore.collector
      ensures StoreSide()
      ensures defined <==> !Hurts(catalogue, id, replies)
      ensures err == OK <==> Serves(catalogue, id, replies)
      ensures defined && err != OK ==> err == NOT_FOUND
      ensures err != OK ==> store.chunkStore.disk == old(store.chunkStore.disk)
      ensures err == OK ==> id in store.chunkStore.disk
      ensures err == OK ==> id in origin && StoreEntered(old(Ids(store.chunkStore.collector.queue)),
                                                         old(store.chunkStore.disk), id)
      ensures err != OK ==> Ids(store.chunkStore.collector.queue) == old(Ids(store.chunkStore.collector.queue))
    {
      defined, err := FetchChunk(store.chunkStore, catalogue, id, replies);
      if !defined {
        err := INTERNAL_ERROR;
      } else if err == OK {
        ghost var c := store.chunkStore;
        FetchedAgrees(old(c.disk), origin, store.codec, catalogue,
                      Victim(old(Ids(c.collector.queue)), c.collector.size, id), id,
                      Concat(replies[Deciding(catalogue, id, replies)].parts));
      }
    }

    /** The store has just got or used a published chunk. */
    ghost predicate StoreEntered(q: seq<nat>, before: map<nat, Bytes>, id: nat)
      requires store.chunkStore.collector.size > 0 && id in origin
      reads store.chunkStore, store.chunkStore.collector
    {
      Entered(store.chunkStore.collector.size, q, before, id, origin[id],
              Ids(store.chunkStore.collector.queue), store.chunkStore.disk)
    }

    /** The cache has just got or used a chunk of the flat disk. */
    ghost predicate CacheEntered(q: seq<nat>, before: map<nat, Bytes>, id: nat)
      requires collector.size > 0 && id in Flat()
      reads this, collector
    {
      Entered(collector.size, q, before, id, Flat()[id], Ids(collector.queue), entries)
    }

    /** Whether a chunk can be had: the store has it, or some peer that is asked sends it. */
    ghost predicate Reachable(id: nat, replies: seq<Reply>)
      reads this, store.chunkStore
    {
      id in store.chunkStore.disk || Serves(catalogue, id, replies)
    }

    /**
     Read a part of a chunk; it comes exactly when the part lies in the chunk, which is cached
     or can be had. The behaviour is defined exactly when no peer must be asked, or none of
     those that are asked sends a fatal reply before the chunk.
     */
    method ReadChunk(id: nat, offset: nat, len: nat, replies: seq<Reply>)
      returns (defined: bool, err: ErrorCode, part: Bytes)
      requires Valid()
      modifies Repr()
      ensures Valid()
      ensures defined <==>
        offset + len > CHUNK_SIZE || old(id in entries || id in store.chunkStore.disk) || !Hurts(catalogue, id, replies)
      ensures err == OK <==> offset + len <= CHUNK_SIZE && old(id in entries || Reachable(id, replies))
      ensures err == OK ==> id in Flat() && |Flat()[id]| == CHUNK_SIZE && part == Flat()[id][offset..offset + len]
      ensures err != OK ==> part == []
      ensures err == OK ==> CacheEntered(old(Ids(collector.queue)), old(entries), id)
      ensures err != OK ==> entries == old(entries) && Ids(collector.queue) == old(Ids(collector.queue))
      ensures err == OK && id !in old(entries) ==>
        id in origin && StoreEntered(old(Ids(store.chunkStore.collector.queue)), old(store.chunkStore.disk), id)
      ensures err != OK || id in old(entries) ==>
        && store.chunkStore.disk == old(store.chunkStore.disk)
        && Ids(store.chunkStore.collector.queue) == old(Ids(store.chunkStore.collector.queue))
      ensures id in old(store.chunkStore.disk) || err != OK ==> store.chunkStore.disk == old(store.chunkStore.disk)
    {
      if offset + len > CHUNK_SIZE {
        return true, INTERNAL_ERROR, [];
      }
      var ent;
      defined, err, ent := Provide(id, replies);
      part := if err == OK then ent[offset..offset + Min(len, |ent| - offset)] else [];
    }

    /** The data of a chunk: cached, or loaded and cached. */
    method Provide(id: nat, replies: seq<Reply>) returns (defined: bool, err: ErrorCode, ent: Bytes)
      requires Valid()
      modifies Repr()
      ensures Valid()
      ensures defined <==> old(id in entries || id in store.chunkStore.disk) || !Hurts(catalogue, id, replies)
      ensures err == OK <==> old(id in entries || Reachable(id, replies))
      ensures err == OK ==> id in Flat() && |Flat()[id]| == CHUNK_SIZE && ent == Flat()[id]
      ensures err == OK ==> CacheEntered(old(Ids(collector.queue)), old(entries), id)
      ensures err != OK ==> entries == old(entries) && Ids(collector.queue) == old(Ids(collector.queue))
      ensures err == OK && id !in old(entries) ==>
        id in origin && StoreEntered(old(Ids(store.chunkStore.collector.queue)), old(store.chunkStore.disk), id)
      ensures err != OK || id in old(entries) ==>
        && store.chunkStore.disk == old(store.chunkStore.disk)
        && Ids(store.chunkStore.collector.queue) == old(Ids(store.chunkStore.collector.queue))
      ensures id in old(store.chunkStore.disk) || err != OK ==> store.chunkStore.disk == old(store.chunkStore.disk)
    {
      assert OpenProvider(0);
      WholeChunks(id);
      if id in entries && |entries[id]| > 0 {
        defined, err := true, OK;
        ent := UseCached(id);
      } else {
        defined, err, ent := LoadAndCache(id, replies);
      }
    }

    method UseCached(id: nat) returns (ent: Bytes)
      requires CacheSide() && StoreSide() && collector != store.chunkStore.collector && id in entries
      modifies this`entries, collector
      ensures CacheSide() && StoreSide() && id in Flat() && ent == Flat()[id]
      ensures CacheEntered(old(Ids(collector.queue)), old(entries), id)
    {
      UseKeeps(collector.size, Ids(collector.queue), entries, Flat(), id);
      ent := entries[id];
      Touch(id);
    }

    method LoadAndCache(id: nat, replies: seq<Reply>) returns (defined: bool, err: ErrorCode, ent: Bytes)
      requires CacheSide() && StoreSide() && collector != store.chunkStore.collector && id !in entries
      modifies Repr()
      ensures CacheSide() && StoreSide()
      ensures defined <==> old(id in store.chunkStore.disk) || !Hurts(catalogue, id, replies)
      ensures err == OK <==> old(Reachable(id, replies))
      ensures err == OK ==> id in Flat() && |Flat()[id]| == CHUNK_SIZE && ent == Flat()[id]
      ensures err == OK ==> CacheEntered(old(Ids(collector.queue)), old(entries), id)
      ensures err != OK ==> entries == old(entries) && Ids(collector.queue) == old(Ids(collector.queue))
      ensures err == OK ==> id in origin && StoreEntered(old(Ids(store.chunkStore.collector.queue)),
                                                         old(store.chunkStore.disk), id)
      ensures err != OK ==> store.chunkStore.disk == old(store.chunkStore.disk)
      ensures err != OK ==> Ids(store.chunkStore.collector.queue) == old(Ids(store.chunkStore.collector.queue))
      ensures id in old(store.chunkStore.disk) || err != OK ==> store.chunkStore.disk == old(store.chunkStore.disk)
    {
      WholeChunks(id);
      defined, err, ent := Load(id, replies);
      Publish(id, err, ent);
    }

    /** A loaded chunk enters the cache; a failed load leaves none behind. */
    method Publish(id: nat, err: ErrorCode, ent: Bytes)
      requires CacheSide() && id !in entries && (err == OK ==> id in Flat() && ent == Flat()[id])
      modifies this`entries, collector
      ensures CacheSide()
      ensures err == OK ==> CacheEntered(old(Ids(collector.queue)), old(entries), id)
      ensures err != OK ==> entries == old(entries) && Ids(collector.queue) == old(Ids(collector.queue))
    {
      if err == OK {
        EnterKeeps(collector.size, Ids(collector.queue), entries, Flat(), id);
        entries := entries[id := ent];
        Touch(id);
      } else {
        entries := entries - {id};
      }
    }

    /** Between reads the cached chunks are those in the queue. */
    lemma CachedIds(id: nat)
      requires Valid()
      ensures id in entries <==> id in Ids(collector.queue)
    {
      assert OpenProvider(0);
    }

    /** Between reads the cache holds at most as many chunks as it has room for. */
    lemma CacheBounded()
      requires Valid()
      ensures |entries.Keys| <= collector.size
    {
      assert OpenProvider(0);
      SetWithin(entries.Keys, Ids(collector.queue));
    }
  }

  /** One read of a part of a chunk, and what the peers that are asked answer. */
  datatype ChunkRead = ChunkRead(id: nat, offset: nat, len: nat, replies: seq<Reply>)

  /** The ids of the reads that succeeded, in order. */
  function Succeeded(calls: seq<ChunkRead>, done: seq<bool>): (ids: seq<nat>)
    requires |done| <= |calls|
  {
    if |done| == 0 then []
    else
      var n := |done| - 1;
      Succeeded(calls, done[..n]) + if done[n] then [calls[n].id] else []
  }

  lemma SucceededMore(size: nat, history: seq<nat>, calls: seq<ChunkRead>, done: seq<bool>, ok: bool)
    requires size > 0 && |done| < |calls|
    ensures var ids := history + Succeeded(calls, done);
      After(size, history + Succeeded(calls, done + [ok])) ==
        if ok then Updated(After(size, ids), size, calls[|done|].id) else After(size, ids)
  {
    var ids, id := history + Succeeded(calls, done), calls[|done|].id;
    assert (done + [ok])[..|done|] == done;
    if ok {
      assert history + Succeeded(calls, done + [ok]) == ids + [id];
      assert (ids + [id])[..|ids|] == ids;
    } else {
      assert history + Succeeded(calls, done + [ok]) == ids;
    }
  }

  /** A read of a part of a chunk that is among the last ones used. */
  ghost predicate Hit(size: nat, history: seq<nat>, r: ChunkRead) {
    r.offset + r.len <= CHUNK_SIZE && r.id in Top(Recency(history), size)
  }

  method RunRead(provider: ChunkProvider, r: ChunkRead, ghost history: seq<nat>) returns (ok: bool)
    requires provider.Valid()
    requires Ids(provider.collector.queue) == After(provider.collector.size, history)
    modifies provider.Repr()
    ensures provider.Valid()
    ensures var size := provider.collector.size;
      Ids(provider.collector.queue) == if ok then Updated(After(size, history), size, r.id) else After(size, history)
    ensures Hit(provider.collector.size, history, r) ==> ok
  {
    provider.CachedIds(r.id);
    QueueIsRecency(provider.collector.size, history);
    var _, err, _ := provider.ReadChunk(r.id, r.offset, r.len, r.replies);
    ok := err == OK;
  }

  /**
   Over any run of reads the cache holds the chunks that were last read with success, as many
   as it has room for, and a chunk that it holds can be read again whatever the store has and
   the peers answer.
   */
  method RunReads(provider: ChunkProvider, calls: seq<ChunkRead>, ghost history: seq<nat>) returns (done: seq<bool>)
    requires provider.Valid()
    requires Ids(provider.collector.queue) == After(provider.collector.size, history)
    modifies provider.Repr()
    ensures provider.Valid() && |done| == |calls|
    ensures Ids(provider.collector.queue) == Top(Recency(history + Succeeded(calls, done)), provider.collector.size)
    ensures forall id: nat :: id in provider.entries <==>
      id in Top(Recency(history + Succeeded(calls, done)), provider.collector.size)
    ensures forall k :: 0 <= k < |calls| ==>
      Hit(provider.collector.size, history + Succeeded(calls, done[..k]), calls[k]) ==> done[k]
  {
    ghost var size := provider.collector.size;
    done := [];
    assert history + Succeeded(calls, done) == history;
    while |done| < |calls|
      invariant provider.Valid() && |done| <= |calls|
      invariant Ids(provider.collector.queue) == After(size, history + Succeeded(calls, done))
      invariant forall k :: 0 <= k < |done| ==> Hit(size, history + Succeeded(calls, done[..k]), calls[k]) ==> done[k]
    {
      SucceededMore(size, history, calls, done, true);
      SucceededMore(size, history, calls, done, false);
      var ok := RunRead(provider, calls[|done|], history + Succeeded(calls, done));
      assert done == (done + [ok])[..|done|];
      assert forall k :: 0 <= k < |done| ==> (done + [ok])[..k] == done[..k];
      done := done + [ok];
    }
    QueueIsRecency(size, history + Succeeded(calls, done));
    forall id: nat ensures id in provider.entries <==> id in Ids(provider.collector.queue) {
      provider.CachedIds(id);
    }
  }

  /** What each peer that is asked for a chunk answers, by chunk id. */
  type Peers = nat -> seq<Reply>

  /** No peer sends more than a chunk. */
  ghost predicate RoomFor(peers: Peers) {
    forall id {:trigger peers(id)} :: Bounded(peers(id))
  }

  /** No peer claims to have a chunk behind the last one. */
  ghost predicate NoneBeyond(hashes: nat, peers: Peers) {
    forall id {:trigger peers(id)} :: id >= hashes ==> forall k :: 0 <= k < |peers(id)| ==> !peers(id)[k].ok
  }

  // Offsets from here on have chunk ids that do not fit into 32 bits: CHUNK_SIZE * 2^32.
  const ID_LIMIT := 0x40_0000_0000_0000

  lemma IdFits(o: nat)
    requires o < ID_LIMIT
    ensures ChunkOf(o) % 0x1_0000_0000 == ChunkOf(o)
  {
  }

  /** The next id, in 32 bits, is that of the next chunk. */
  lemma NextId(o: nat, len: nat)
    requires len == CHUNK_SIZE - Within(o)
    ensures (ChunkOf(o) % 0x1_0000_0000 + 1) % 0x1_0000_0000 == ChunkOf(o + len) % 0x1_0000_0000
  {
    NextChunk(o, len);
  }

  /** A run of at most the rest of a chunk ends in this chunk, or where the next one starts. */
  lemma NextChunk(o: nat, len: nat)
    requires len <= CHUNK_SIZE - Within(o)
    ensures len < CHUNK_SIZE - Within(o) ==> ChunkOf(o + len) == ChunkOf(o)
    ensures len == CHUNK_SIZE - Within(o) ==> ChunkOf(o + len) == ChunkOf(o) + 1 && Within(o + len) == 0
  {
  }

  class DataProvider {
    const provider: ChunkProvider

    constructor (provider: ChunkProvider)
      ensures this.provider == provider
    {
      this.provider := provider;
    }

    /** The buffer holds the flat disk from `offset` on, which has these bytes. */
    ghost predicate Filled(offset: nat, buffer: Bytes) {
      && OnDisk(provider.Flat(), offset, buffer)
      && (|buffer| > 0 ==> offset + |buffer| <= Extent())
    }

    /** The bytes of the flat disk. */
    ghost function Extent(): nat {
      4194304 * |provider.catalogue.hashes|
    }

    /** The store has every chunk. */
    ghost predicate Local()
      reads provider, provider.store, provider.store.chunkStore
    {
      forall id :: id in provider.origin ==> id in provider.store.chunkStore.disk
    }

    /** For every chunk some peer that is asked sends it. */
    ghost predicate Helpful(peers: Peers) {
      forall id {:trigger peers(id)} :: id in provider.origin ==>
        Serves(provider.catalogue, id, peers(id))
    }

    /**
     The part of a read that lies in one chunk. `exact` tells that the id is the one of the
     offset, and not only the low bits of it.
     */
    method ReadPart(offset: nat, buffer: Bytes, id: nat, of: nat, len: nat, peers: Peers, ghost exact: bool)
      returns (defined: bool, err: ErrorCode, next: Bytes)
      requires provider.Valid()
      requires exact ==> Filled(offset, buffer) && offset + |buffer| == id * 4194304 + of
      requires 0 < len && of + len <= CHUNK_SIZE
      modifies provider.Repr()
      ensures provider.Valid()
      ensures err == OK ==> |next| == |buffer| + len && (exact ==> Filled(offset, next))
      ensures old(Local()) ==> Local()
      ensures !defined ==> err != OK
      ensures RoomFor(peers) && (id < |provider.catalogue.hashes| || NoneBeyond(|provider.catalogue.hashes|, peers)) ==>
        defined
      ensures id < |provider.catalogue.hashes| && (old(Local()) || Helpful(peers)) ==> defined && err == OK
    {
      var part;
      provider.Listed(id);
      if RoomFor(peers) && (id < |provider.catalogue.hashes| || NoneBeyond(|provider.catalogue.hashes|, peers)) {
        assert Bounded(peers(id));
        HarmlessDecides(provider.catalogue, id, peers(id));
      }
      defined, err, part := provider.ReadChunk(id, of, len, peers(id));
      next := buffer;
      if |part| != len {
        err := INTERNAL_ERROR;
      } else if err == OK {
        if exact {
          OnDiskMore(provider.Flat(), offset, buffer, id, of, len);
        }
        next := buffer + part;
      }
    }

    /** A read that has got the first bytes. */
    ghost predicate Progress(offset: nat, length: nat, buffer: Bytes, left: nat, id: nat, of: nat) {
      && |buffer| + left == length
      && (offset + length <= ID_LIMIT ==> Filled(offset, buffer))
      && (left > 0 ==> id == ChunkOf(offset + |buffer|) % 0x1_0000_0000 && of == Within(offset + |buffer|))
    }

    /** One round: as much as the current chunk has. */
    method ReadRound(offset: nat, length: nat, buffer: Bytes, left: nat, id: nat, of: nat, peers: Peers)
      returns (defined: bool, err: ErrorCode, next: Bytes, len: nat)
      requires provider.Valid() && left > 0 && Progress(offset, length, buffer, left, id, of)
      modifies provider.Repr()
      ensures provider.Valid()
      ensures err == OK ==> 0 < len <= left && Progress(offset, length, next, left - len, (id + 1) % 0x1_0000_0000, 0)
      ensures old(Local()) ==> Local()
      ensures !defined ==> err != OK
      ensures Tame(offset, length, peers) ==> defined
      ensures offset + length <= Extent() && (old(Local()) || Helpful(peers)) ==> defined && err == OK
    {
      ghost var o := offset + |buffer|;
      ghost var exact := offset + length <= ID_LIMIT;
      provider.FewChunks();
      if exact {
        IdFits(o);
      }
      len := Min(left, CHUNK_SIZE - of);
      NextChunk(o, len);
      if len == CHUNK_SIZE - of {
        NextId(o, len);
      }
      defined, err, next := ReadPart(offset, buffer, id, of, len, peers, exact);
    }

    /** Peers send no more than a chunk, and nothing for chunks behind the disk if the range goes there. */
    ghost predicate Tame(offset: nat, length: nat, peers: Peers) {
      RoomFor(peers) && (length > 0 && offset + length > Extent() ==> NoneBeyond(|provider.catalogue.hashes|, peers))
    }

    /**
     Read a range of the flat disk, chunk by chunk. As long as chunk ids fit into 32 bits, a
     read that succeeds returns the range, which then lies on the disk. The behaviour is
     defined unless a peer that is asked sends a fatal reply.
     */
    method Read(offset: nat, length: nat, peers: Peers) returns (defined: bool, err: ErrorCode, buffer: Bytes)
      requires provider.Valid()
      modifies provider.Repr()
      ensures provider.Valid()
      ensures err == OK ==> |buffer| == length
      ensures err == OK && offset + length <= ID_LIMIT ==> Filled(offset, buffer)
      ensures old(Local()) ==> Local()
      ensures !defined ==> err != OK
      ensures Tame(offset, length, peers) ==> defined
      ensures (length == 0 || offset + length <= Extent()) && (old(Local()) || Helpful(peers)) ==> defined && err == OK
    {
      var id: nat := ChunkOf(offset) % 0x1_0000_0000;
      var of: nat := Within(offset);
      var left: nat := length;
      buffer := [];
      while left > 0
        invariant provider.Valid() && Progress(offset, length, buffer, left, id, of)
        invariant old(Local()) ==> Local()
      {
        var len;
        defined, err, buffer, len := ReadRound(offset, length, buffer, left, id, of, peers);
        if !defined || err != OK {
          return;
        }
        of := 0;
        left := left - len;
        id := (id + 1) % 0x1_0000_0000;
      }
      defined, err := true, OK;
    }
  }
}
