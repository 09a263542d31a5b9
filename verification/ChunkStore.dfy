/** The bounded chunk store and the codec layer above it (data/chunk_store.cc, data/compressed_store.cc). */
module Stores {
  import opened Prelude
  import opened Lru

  /** The files after the collector's victim, if any, is unlinked. */
  function Unlinked(disk: map<nat, Bytes>, victim: Option<nat>): map<nat, Bytes> {
    match victim
    case None => disk
    case Some(v) => disk - {v}
  }

  /** How many bytes a system call transfers: anything from 1 up, or 0 at the end. */
  method Transfer(remaining: nat) returns (n: nat)
    ensures n <= remaining && (n == 0 <==> remaining == 0)
  {
    n := 0;
    if remaining > 0 {
      n :| 1 <= n <= remaining;
    }
  }

  /** Read a file into a buffer of one chunk, however the reads are cut. */
  method ReadFile(file: Bytes) returns (data: Bytes)
    ensures data == file[..Min(|file|, CHUNK_SIZE)]
  {
    var limit := Min(|file|, CHUNK_SIZE);
    data := [];
    var more := true;
    while more
      invariant |data| <= limit && data == file[..|data|]
      invariant !more ==> |data| == limit
      decreases limit - |data|, more
    {
      var res := Transfer(limit - |data|);
      data := data + file[|data|..|data| + res];
      more := |data| < CHUNK_SIZE && res > 0;
    }
  }

  /** Write a buffer to a truncated file, however the writes are cut. */
  method WriteFile(data: Bytes) returns (file: Bytes)
    ensures file == data
  {
    file := [];
    var more := true;
    while more
      invariant |file| <= |data| && file == data[..|file|]
      invariant !more ==> |file| == |data|
      decreases |data| - |file|, more
    {
      var res := Transfer(|data| - |file|);
      file := file + data[|file|..|file| + res];
      more := |file| < |data| && res > 0;
    }
  }

  /** The files are in the queue, and hold what was last written. */
  ghost predicate Kept(disk: map<nat, Bytes>, q: seq<nat>, lastWrite: map<nat, Bytes>) {
    && (forall id :: id in disk ==> id in q)
    && (forall id :: id in disk ==> id in lastWrite && disk[id] == lastWrite[id])
  }

  /** The chunk just written is not the victim, so that the order of writing and unlinking does not matter. */
  lemma WriteThenUnlink(disk: map<nat, Bytes>, q: seq<nat>, size: nat, id: nat, data: Bytes)
    requires Distinct(q) && |q| <= size && size > 0
    ensures Unlinked(disk[id := data], Victim(q, size, id)) == Unlinked(disk, Victim(q, size, id))[id := data]
  {
    UpdateKeeps(q, size, id);
  }

  lemma WriteKeeps(disk: map<nat, Bytes>, q: seq<nat>, size: nat, lastWrite: map<nat, Bytes>, id: nat, data: Bytes)
    requires Kept(disk, q, lastWrite) && Distinct(q) && |q| <= size && size > 0
    ensures Kept(Unlinked(disk, Victim(q, size, id))[id := data], Updated(q, size, id), lastWrite[id := data])
  {
    UpdateKeeps(q, size, id);
  }

  /** The state of a store while it starts, after the first `n` ids were entered. */
  ghost predicate StartedWith(files: map<nat, Bytes>, ids: seq<nat>, n: nat, disk: map<nat, Bytes>, q: seq<nat>,
                              size: nat)
    requires n <= |ids|
  {
    && |q| == Min(n, size)
    && (forall k :: 0 <= k < |q| ==> q[k] == ids[n - 1 - k])
    && (forall id :: id in disk <==> id in files && (id in q || id in ids[n..]))
    && forall id :: id in disk ==> disk[id] == files[id]
  }

  /** An id that was not entered before comes to the front, and only the last one of a full queue leaves. */
  lemma UpdatedNew(ids: seq<nat>, n: nat, q: seq<nat>, size: nat)
    requires n < |ids| && Distinct(ids) && size > 0
    requires |q| == Min(n, size) && forall k :: 0 <= k < |q| ==> q[k] == ids[n - 1 - k]
    ensures var r := Updated(q, size, ids[n]);
      |r| == Min(n + 1, size) && forall k :: 0 <= k < |r| ==> r[k] == ids[n - k]
    ensures ids[n] !in q
  {
    assert forall k :: 0 <= k < |q| ==> q[k] != ids[n];
  }

  lemma StartFiles(files: map<nat, Bytes>, ids: seq<nat>, n: nat, disk: map<nat, Bytes>, q: seq<nat>, r: seq<nat>,
                   victim: Option<nat>)
    requires n < |ids| && Distinct(ids) && ids[n] in files
    requires forall id :: id in disk <==> id in files && (id in q || id in ids[n..])
    requires forall x :: x in r <==> x == ids[n] || (x in q && victim != Some(x))
    requires victim.Some? ==> victim.value in q && victim.value != ids[n] && victim.value !in ids[n + 1..]
    ensures forall id :: id in Unlinked(disk, victim) <==> id in files && (id in r || id in ids[n + 1..])
  {
    assert ids[n..] == [ids[n]] + ids[n + 1..];
  }

  lemma StartKeeps(files: map<nat, Bytes>, ids: seq<nat>, n: nat, disk: map<nat, Bytes>, q: seq<nat>, size: nat)
    requires n < |ids| && Distinct(ids) && Distinct(q) && |q| <= size && size > 0
    requires StartedWith(files, ids, n, disk, q, size) && ids[n] in files
    ensures StartedWith(files, ids, n + 1, Unlinked(disk, Victim(q, size, ids[n])), Updated(q, size, ids[n]), size)
  {
    UpdateKeeps(q, size, ids[n]);
    UpdatedNew(ids, n, q, size);
    var victim := Victim(q, size, ids[n]);
    if victim.Some? {
      assert victim.value == ids[n - |q|];
    }
    StartFiles(files, ids, n, disk, q, Updated(q, size, ids[n]), victim);
  }

  lemma StartEnds(files: map<nat, Bytes>, ids: seq<nat>, disk: map<nat, Bytes>, q: seq<nat>, size: nat)
    requires StartedWith(files, ids, |ids|, disk, q, size) && forall id :: id in ids <==> id in files
    ensures forall id :: id in disk <==> id in q
    ensures |ids| <= size ==> disk == files
  {
    forall id | id in q ensures id in files {
      assert exists k :: 0 <= k < |q| && q[k] == id;
    }
    if |ids| <= size {
      forall id | id in files ensures id in q {
        var k :| 0 <= k < |ids| && ids[k] == id;
        assert q[|ids| - 1 - k] == id;
      }
    }
  }

  class ChunkStore {
    // The files below the base path, by chunk id.
    var disk: map<nat, Bytes>
    var inStore: set<nat>
    const collector: LruCollector

    // What was last written for each id: a chunk that is available still holds it.
    ghost var lastWrite: map<nat, Bytes>

    ghost predicate Valid()
      reads this, collector
    {
      collector.Valid() && inStore == disk.Keys && Kept(disk, Ids(collector.queue), lastWrite)
    }

    /**
     Start on existing files, whose ids are visited in increasing order; the store keeps the
     highest ones, as many as it has room for, and the last one visited is the last to leave.
     */
    constructor (files: map<nat, Bytes>, ids: seq<nat>, size: nat)
      requires size > 0
      requires Distinct(ids) && forall id :: id in ids <==> id in files
      ensures Valid() && fresh(collector) && collector.size == size
      ensures lastWrite == files
      ensures |Ids(collector.queue)| == Min(|ids|, size)
      ensures forall k :: 0 <= k < |Ids(collector.queue)| ==> Ids(collector.queue)[k] == ids[|ids| - 1 - k]
      ensures forall id :: id in disk <==> id in Ids(collector.queue)
      ensures forall id :: id in disk ==> id in files && disk[id] == files[id]
      ensures |ids| <= size ==> disk == files
    {
      disk, inStore, lastWrite := files, files.Keys, files;
      collector := new LruCollector(size);
      new;
      for i := 0 to |ids|
        invariant collector.Valid() && collector.size == size && fresh(collector)
        invariant lastWrite == files && Started(files, ids, i)
      {
        Start(files, ids, i);
      }
      StartEnds(files, ids, disk, Ids(collector.queue), size);
    }

    ghost predicate Started(files: map<nat, Bytes>, ids: seq<nat>, n: nat)
      requires n <= |ids|
      reads this, collector
    {
      inStore == disk.Keys && StartedWith(files, ids, n, disk, Ids(collector.queue), collector.size)
    }

    method Start(files: map<nat, Bytes>, ids: seq<nat>, n: nat)
      requires collector.Valid() && n < |ids| && ids[n] in files && Distinct(ids) && Started(files, ids, n)
      modifies this`disk, this`inStore, collector
      ensures collector.Valid() && Started(files, ids, n + 1)
    {
      StartKeeps(files, ids, n, disk, Ids(collector.queue), collector.size);
      var evicted := collector.Update(ids[n]);
      if evicted.Some? {
        var _ := Unlink(evicted.value);
      }
    }

    /** The remover: unlink the file and forget the id. */
    method Unlink(id: nat) returns (err: ErrorCode)
      requires inStore == disk.Keys
      modifies this`disk, this`inStore
      ensures inStore == disk.Keys && disk == old(disk) - {id}
      ensures err == if id in old(disk) then OK else NOT_FOUND
    {
      if id !in disk {
        return NOT_FOUND;
      }
      disk := disk - {id};
      inStore := inStore - {id};
      return OK;
    }

    method RemoveChunk(id: nat) returns (err: ErrorCode)
      requires Valid()
      modifies this`disk, this`inStore
      ensures Valid() && disk == old(disk) - {id}
      ensures err == if id in old(disk) then OK else NOT_FOUND
    {
      err := Unlink(id);
    }

    method ReadChunk(id: nat) returns (err: ErrorCode, data: Bytes)
      requires Valid()
      modifies collector
      ensures Valid()
      ensures err == if id in disk then OK else NOT_FOUND
      ensures err == OK ==> data == disk[id][..Min(|disk[id]|, CHUNK_SIZE)]
      ensures forall x :: x in Ids(collector.queue) <==> x in old(Ids(collector.queue))
      ensures Ids(collector.queue) ==
        if id in disk then Updated(old(Ids(collector.queue)), collector.size, id) else old(Ids(collector.queue))
    {
      if id !in disk {
        return NOT_FOUND, [];
      }
      UpdateKeeps(Ids(collector.queue), collector.size, id);
      var evicted := collector.Update(id);
      data := ReadFile(disk[id]);
      err := OK;
    }

    method WriteChunk(id: nat, data: Bytes) returns (err: ErrorCode)
      requires Valid()
      modifies this, collector
      ensures Valid() && err == OK
      ensures disk == Unlinked(old(disk), Victim(old(Ids(collector.queue)), collector.size, id))[id := data]
      ensures Ids(collector.queue) == Updated(old(Ids(collector.queue)), collector.size, id)
      ensures lastWrite == old(lastWrite)[id := data]
    {
      WriteKeeps(disk, Ids(collector.queue), collector.size, lastWrite, id, data);
      WriteThenUnlink(disk, Ids(collector.queue), collector.size, id, data);
      var file := WriteFile(data);
      disk := disk[id := file];
      lastWrite := lastWrite[id := data];
      var evicted := collector.Update(id);
      inStore := inStore + {id};
      if evicted.Some? {
        var _ := Unlink(evicted.value);
      }
      err := OK;
    }

    method Available() returns (ids: set<nat>)
      ensures ids == inStore
    {
      ids := inStore;
    }

    /** The store never holds more chunks than its size. */
    lemma Bounded()
      requires Valid()
      ensures |inStore| <= collector.size
    {
      SetWithin(inStore, Ids(collector.queue));
    }
  }

  /** One use of a store: by its owner, or the removal of a chunk from outside. */
  datatype StoreOp = WriteOp(id: nat, data: Bytes) | ReadOp(id: nat) | RemoveOp(id: nat)

  /** The bytes last written for each id over a run of operations. */
  function LastWrites(initial: map<nat, Bytes>, ops: seq<StoreOp>): map<nat, Bytes> {
    if |ops| == 0 then initial
    else
      var m := LastWrites(initial, ops[..|ops| - 1]);
      match ops[|ops| - 1]
      case WriteOp(id, data) => m[id := data]
      case _ => m
  }

  /** Over any run the store stays within its size and every chunk it holds is the last one written. */
  method RunStore(store: ChunkStore, ops: seq<StoreOp>)
    requires store.Valid()
    modifies store, store.collector
    ensures store.Valid() && store.lastWrite == LastWrites(old(store.lastWrite), ops)
    ensures |store.inStore| <= store.collector.size && store.inStore == store.disk.Keys
    ensures forall id :: id in store.disk ==>
      var last := LastWrites(old(store.lastWrite), ops); id in last && store.disk[id] == last[id]
  {
    for i := 0 to |ops|
      invariant store.Valid() && store.lastWrite == LastWrites(old(store.lastWrite), ops[..i])
    {
      assert ops[..i + 1][..i] == ops[..i];
      match ops[i] {
        case WriteOp(id, data) => var _ := store.WriteChunk(id, data);
        case ReadOp(id) => var _, _ := store.ReadChunk(id);
        case RemoveOp(id) => var _ := store.RemoveChunk(id);
      }
    }
    assert ops[..|ops|] == ops;
    store.Bounded();
  }

  // ---------------------------------------------------------------- compression

  /**
   The compression library. `compress` yields nothing when the result does not fit into a
   buffer of one chunk; the program then stores an empty file.
   */
  datatype Codec = Codec(compress: Bytes -> Option<Bytes>, decompress: Bytes -> Option<Bytes>) {
    /** What the library promises: a compressed chunk that fits is recovered, and an empty file is no chunk. */
    ghost predicate Faithful() {
      && (forall b {:trigger compress(b)} :: |b| <= CHUNK_SIZE && compress(b).Some? ==>
            |compress(b).value| <= CHUNK_SIZE && decompress(compress(b).value) == Some(b))
      && decompress([]) == None
    }

    /** Every chunk fits when compressed. */
    ghost predicate Roomy() {
      forall b {:trigger compress(b)} :: |b| == CHUNK_SIZE ==> compress(b).Some?
    }

    /** The file that is written for a chunk. */
    function Pack(b: Bytes): Bytes {
      match compress(b)
      case None => []
      case Some(c) => c
    }
  }

  /** A chunk is readable after it was written exactly when its compressed form fitted. */
  lemma PackedReadable(codec: Codec, b: Bytes)
    requires codec.Faithful() && |b| <= CHUNK_SIZE
    ensures |codec.Pack(b)| <= CHUNK_SIZE
    ensures codec.decompress(codec.Pack(b)) == if codec.compress(b).Some? then Some(b) else None
  {
  }

  class CompressedStore {
    const chunkStore: ChunkStore
    const codec: Codec

    ghost predicate Valid()
      reads this, chunkStore, chunkStore.collector
    {
      && chunkStore.Valid() && codec.Faithful()
      && forall id :: id in chunkStore.disk ==> |chunkStore.disk[id]| <= CHUNK_SIZE
    }

    constructor (chunkStore: ChunkStore, codec: Codec)
      requires chunkStore.Valid() && codec.Faithful()
      requires forall id :: id in chunkStore.disk ==> |chunkStore.disk[id]| <= CHUNK_SIZE
      ensures Valid() && this.chunkStore == chunkStore && this.codec == codec
    {
      this.chunkStore := chunkStore;
      this.codec := codec;
    }

    method ReadChunk(id: nat) returns (err: ErrorCode, data: Bytes)
      requires Valid()
      modifies chunkStore.collector
      ensures Valid()
      ensures id !in chunkStore.disk ==> err == NOT_FOUND
      ensures id in chunkStore.disk ==>
        match codec.decompress(chunkStore.disk[id])
        case None => err == INTERNAL_ERROR
        case Some(b) => err == OK && data == b
      ensures Ids(chunkStore.collector.queue) ==
        if id in chunkStore.disk then Updated(old(Ids(chunkStore.collector.queue)), chunkStore.collector.size, id)
        else old(Ids(chunkStore.collector.queue))
      ensures forall x :: x in Ids(chunkStore.collector.queue) <==> x in old(Ids(chunkStore.collector.queue))
    {
      var buf;
      data := [];
      err, buf := chunkStore.ReadChunk(id);
      if err == OK {
        assert buf == chunkStore.disk[id];
        match codec.decompress(buf) {
          case None => err := INTERNAL_ERROR;
          case Some(b) => data := b;
        }
      }
    }

    method WriteChunk(id: nat, data: Bytes) returns (err: ErrorCode)
      requires Valid() && |data| <= CHUNK_SIZE
      modifies chunkStore, chunkStore.collector
      ensures Valid() && err == OK
      ensures chunkStore.disk ==
        Unlinked(old(chunkStore.disk), Victim(old(Ids(chunkStore.collector.queue)), chunkStore.collector.size, id))
          [id := codec.Pack(data)]
      ensures Ids(chunkStore.collector.queue) ==
        Updated(old(Ids(chunkStore.collector.queue)), chunkStore.collector.size, id)
    {
      err := chunkStore.WriteChunk(id, codec.Pack(data));
    }

    method Available() returns (ids: set<nat>)
      requires Valid()
      ensures ids == chunkStore.disk.Keys
    {
      ids := chunkStore.Available();
    }
  }
}
