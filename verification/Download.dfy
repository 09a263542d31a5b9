/**
 The transfer of a chunk between peers: served in pieces (network/distfs_service.cc),
 fetched from whatever peers answer and admitted by checksum (network/connection_pool.cc),
 against the list of hashes (network/distfs_metadata.cc).
 */
module Download {
  import opened Prelude
  import opened Lru
  import opened Stores

  // The largest piece of a chunk on the wire.
  const WIRE_CHUNK := 419840

  function Concat(parts: seq<Bytes>): Bytes {
    if |parts| == 0 then [] else Concat(parts[..|parts| - 1]) + parts[|parts| - 1]
  }

  lemma ConcatMore(parts: seq<Bytes>, p: Bytes)
    ensures Concat(parts + [p]) == Concat(parts) + p
  {
    assert (parts + [p])[..|parts|] == parts;
  }

  // ---------------------------------------------------------------- serving

  datatype Status = Served | NotFound | Internal | Cancelled

  /**
   Serve a chunk in pieces. The peer takes the first `patience` pieces and cancels when
   another one is offered.
   */
  method GetChunk(store: ChunkStore, id: nat, patience: nat) returns (status: Status, parts: seq<Bytes>)
    requires store.Valid()
    modifies store.collector
    ensures store.Valid()
    ensures id !in store.disk <==> status == NotFound
    ensures id in store.disk ==>
      Pieces(store.disk[id][..Min(|store.disk[id]|, CHUNK_SIZE)], parts, patience, status == Served)
    ensures id in store.disk ==> status == Served || status == Cancelled
    ensures Ids(store.collector.queue) == Asked(old(Ids(store.collector.queue)), store.collector.size, store.disk, id)
  {
    var err, data := store.ReadChunk(id);
    if err == NOT_FOUND {
      return NotFound, [];
    } else if err != OK {
      return Internal, [];
    }
    var whole;
    parts, whole := Split(data, patience);
    status := if whole then Served else Cancelled;
  }

  /** The queue of a store after a chunk was read, if it is there. */
  function Asked(q: seq<nat>, size: nat, disk: map<nat, Bytes>, id: nat): seq<nat>
    requires size > 0
  {
    if id in disk then Updated(q, size, id) else q
  }

  /** Small pieces that are data up to some point, the whole data unless the peer lost patience. */
  ghost predicate Pieces(data: Bytes, parts: seq<Bytes>, patience: nat, whole: bool) {
    && (forall k :: 0 <= k < |parts| ==> 0 < |parts[k]| <= WIRE_CHUNK)
    && Concat(parts) <= data
    && if whole then Concat(parts) == data && |parts| <= patience
       else |parts| == patience && |Concat(parts)| == 419840 * patience < |data|
  }

  lemma {:induction false} ConcatSmall(parts: seq<Bytes>)
    requires forall k :: 0 <= k < |parts| ==> |parts[k]| <= WIRE_CHUNK
    ensures |Concat(parts)| <= 419840 * |parts|
  {
    if |parts| > 0 {
      ConcatSmall(parts[..|parts| - 1]);
    }
  }

  /** A peer gets the whole chunk exactly when its patience lasts for it. */
  lemma PatienceLasts(data: Bytes, parts: seq<Bytes>, patience: nat, whole: bool)
    requires Pieces(data, parts, patience, whole)
    ensures whole <==> |data| <= 419840 * patience
  {
    ConcatSmall(parts);
  }

  method Split(data: Bytes, patience: nat) returns (parts: seq<Bytes>, whole: bool)
    ensures Pieces(data, parts, patience, whole)
  {
    parts := [];
    var offset := 0;
    while offset < |data|
      invariant offset <= |data| && Concat(parts) == data[..offset]
      invariant |parts| <= patience && (offset < |data| ==> offset == 419840 * |parts|)
      invariant forall k :: 0 <= k < |parts| ==> 0 < |parts[k]| <= WIRE_CHUNK
    {
      if |parts| == patience {
        return parts, false;
      }
      var n := Min(WIRE_CHUNK, |data| - offset);
      ConcatMore(parts, data[offset..offset + n]);
      assert data[..offset + n] == data[..offset] + data[offset..offset + n];
      parts := parts + [data[offset..offset + n]];
      offset := offset + n;
    }
    return parts, true;
  }

  // ---------------------------------------------------------------- fetching

  /** What a peer sends for a chunk request, and whether the call ends well. */
  datatype Reply = Reply(parts: seq<Bytes>, ok: bool)

  /** The hashes of all chunks, and the function that computes them. */
  datatype Catalogue = Catalogue(sum: Bytes -> Bytes, hashes: seq<Bytes>) {
    /** The bytes are what the catalogue lists under an id. */
    predicate Lists(id: nat, data: Bytes) {
      id < |hashes| && sum(data) == hashes[id]
    }

    /** No two chunks have the same hash. */
    ghost predicate CollisionFree() {
      forall a, b {:trigger sum(a), sum(b)} ::
        |a| <= CHUNK_SIZE && |b| <= CHUNK_SIZE && sum(a) == sum(b) ==> a == b
    }
  }

  /** A reply that completes a fetch. */
  predicate Good(catalogue: Catalogue, id: nat, r: Reply) {
    r.ok && catalogue.Lists(id, Concat(r.parts))
  }

  /** A reply that overruns the download buffer, or that ends well for an id behind the list of hashes. */
  predicate Fatal(catalogue: Catalogue, id: nat, r: Reply) {
    |Concat(r.parts)| > CHUNK_SIZE || (r.ok && id >= |catalogue.hashes|)
  }

  /** Replies that the download buffer has room for. */
  ghost predicate Bounded(replies: seq<Reply>) {
    forall k :: 0 <= k < |replies| ==> |Concat(replies[k].parts)| <= CHUNK_SIZE
  }

  /** Replies that cannot be fatal: small ones, and none that ends well for an id behind the list. */
  ghost predicate Harmless(hashes: nat, id: nat, replies: seq<Reply>) {
    Bounded(replies) && (id < hashes || forall k :: 0 <= k < |replies| ==> !replies[k].ok)
  }

  /** The index of the first reply that ends a fetch, well or badly, or the number of replies. */
  function Deciding(catalogue: Catalogue, id: nat, replies: seq<Reply>): (k: nat)
    ensures k <= |replies|
    ensures k < |replies| ==> Good(catalogue, id, replies[k]) || Fatal(catalogue, id, replies[k])
    ensures forall j :: 0 <= j < k ==> !Good(catalogue, id, replies[j]) && !Fatal(catalogue, id, replies[j])
  {
    if |replies| == 0 || Good(catalogue, id, replies[0]) || Fatal(catalogue, id, replies[0]) then 0
    else
      var k := Deciding(catalogue, id, replies[1..]);
      assert forall j :: 1 <= j < 1 + k ==> replies[j] == replies[1..][j - 1];
      1 + k
  }

  /** The reply that ends a fetch is fatal: the program's behaviour is not defined. */
  predicate Hurts(catalogue: Catalogue, id: nat, replies: seq<Reply>) {
    var k := Deciding(catalogue, id, replies);
    k < |replies| && Fatal(catalogue, id, replies[k])
  }

  /** The reply that ends a fetch completes it. */
  predicate Serves(catalogue: Catalogue, id: nat, replies: seq<Reply>) {
    var k := Deciding(catalogue, id, replies);
    k < |replies| && !Fatal(catalogue, id, replies[k])
  }

  /** Harmless replies end a fetch well or not at all. */
  lemma HarmlessDecides(catalogue: Catalogue, id: nat, replies: seq<Reply>)
    requires Harmless(|catalogue.hashes|, id, replies)
    ensures !Hurts(catalogue, id, replies)
  {
  }

  lemma ConcatPrefix(parts: seq<Bytes>, k: nat)
    requires k < |parts|
    ensures Concat(parts[..k + 1]) == Concat(parts[..k]) + parts[k]
    ensures |Concat(parts[..k + 1])| <= |Concat(parts)|
    decreases |parts|
  {
    assert parts[..k + 1][..k] == parts[..k];
    if k + 1 < |parts| {
      assert parts[..|parts| - 1][..k + 1] == parts[..k + 1];
      assert parts[..|parts| - 1][..k] == parts[..k];
      ConcatPrefix(parts[..|parts| - 1], k);
    } else {
      assert parts[..k + 1] == parts;
    }
  }

  /** Read the pieces of a reply into the buffer, if there is room for them. */
  method Receive(buff: array<byte>, parts: seq<Bytes>) returns (room: bool, offset: nat)
    modifies buff
    ensures room <==> |Concat(parts)| <= buff.Length
    ensures room ==> offset == |Concat(parts)| && buff[..offset] == Concat(parts)
  {
    offset := 0;
    assert parts[..0] == [];
    for k := 0 to |parts|
      invariant offset == |Concat(parts[..k])| <= buff.Length
      invariant buff[..offset] == Concat(parts[..k])
    {
      ConcatPrefix(parts, k);
      if offset + |parts[k]| > buff.Length {
        return false, offset;
      }
      Append(buff, offset, parts[k]);
      offset := offset + |parts[k]|;
    }
    assert parts[..|parts|] == parts;
    room := true;
  }

  method Append(buff: array<byte>, offset: nat, p: Bytes)
    requires offset + |p| <= buff.Length
    modifies buff
    ensures buff[..offset + |p|] == old(buff[..offset]) + p
  {
    forall i | 0 <= i < |p| {
      buff[offset + i] := p[i];
    }
  }

  /**
   What a fetch did to the files of a store with a queue of ids: nothing, or it stored what the
   deciding reply sent.
   */
  ghost predicate FetchDone(catalogue: Catalogue, id: nat, replies: seq<Reply>, size: nat, q: seq<nat>,
                            before: map<nat, Bytes>, after: map<nat, Bytes>, err: ErrorCode)
    requires size > 0
  {
    var k := Deciding(catalogue, id, replies);
    if k == |replies| then err == NOT_FOUND && after == before
    else
      var data := Concat(replies[k].parts);
      && err == OK && |data| <= CHUNK_SIZE && catalogue.Lists(id, data)
      && after == Unlinked(before, Victim(q, size, id))[id := data]
  }

  /**
   Fetch a chunk: ask peers until one sends bytes with the right hash. `replies` is what
   the peers that are asked answer, one after the other; after the last one no peer is left.
   The program's behaviour is defined exactly when the reply that ends the fetch, if any,
   fits into the buffer and is for a chunk on the list.
   */
  method FetchChunk(store: ChunkStore, catalogue: Catalogue, id: nat, replies: seq<Reply>)
    returns (defined: bool, err: ErrorCode)
    requires store.Valid()
    modifies store, store.collector
    ensures store.Valid()
    ensures defined <==> !Hurts(catalogue, id, replies)
    ensures defined ==>
      FetchDone(catalogue, id, replies, store.collector.size, old(Ids(store.collector.queue)),
                old(store.disk), store.disk, err)
    ensures !defined || err != OK ==>
      store.disk == old(store.disk) && Ids(store.collector.queue) == old(Ids(store.collector.queue))
    ensures defined && err == OK ==>
      Ids(store.collector.queue) == Updated(old(Ids(store.collector.queue)), store.collector.size, id)
  {
    var buff := new byte[CHUNK_SIZE];
    var k := 0;
    ghost var first := Deciding(catalogue, id, replies);
    while k < |replies|
      invariant k <= first && store.Valid()
      invariant store.disk == old(store.disk) && Ids(store.collector.queue) == old(Ids(store.collector.queue))
    {
      var room, offset := Receive(buff, replies[k].parts);
      if !room || (replies[k].ok && id >= |catalogue.hashes|) {
        assert Fatal(catalogue, id, replies[k]);
        return false, INTERNAL_ERROR;
      }
      if replies[k].ok {
        if catalogue.sum(buff[..offset]) == catalogue.hashes[id] {
          assert Good(catalogue, id, replies[k]);
          var _ := store.WriteChunk(id, buff[..offset]);
          return true, OK;
        }
      }
      assert !Good(catalogue, id, replies[k]) && !Fatal(catalogue, id, replies[k]);
      k := k + 1;
    }
    return true, NOT_FOUND;
  }

  /** Whether a node gets a chunk from another one whose patience is this. */
  predicate Delivers(disk: map<nat, Bytes>, id: nat, patience: nat) {
    id in disk && |disk[id]| <= 419840 * patience
  }

  /** What the peer sees of the transfer decides the fetch alone. */
  lemma OneReply(catalogue: Catalogue, disk: map<nat, Bytes>, id: nat, patience: nat, r: Reply)
    requires id in disk ==> |disk[id]| <= CHUNK_SIZE && catalogue.Lists(id, disk[id])
    requires |Concat(r.parts)| <= CHUNK_SIZE && (r.ok <==> Delivers(disk, id, patience))
    requires r.ok ==> Concat(r.parts) == disk[id]
    ensures !Hurts(catalogue, id, [r]) && (Deciding(catalogue, id, [r]) == 0 <==> Delivers(disk, id, patience))
  {
    assert [r][0] == r;
  }

  /**
   One node fetches a chunk from another: it comes exactly when the other has it and the
   transfer is not cut off, and then both hold the same bytes.
   */
  method FetchFrom(server: ChunkStore, client: ChunkStore, catalogue: Catalogue, id: nat, patience: nat)
    returns (err: ErrorCode)
    requires server.Valid() && client.Valid() && server != client && server.collector != client.collector
    requires forall x :: x in server.disk ==> |server.disk[x]| <= CHUNK_SIZE && catalogue.Lists(x, server.disk[x])
    modifies server.collector, client, client.collector
    ensures server.Valid() && client.Valid() && server.disk == old(server.disk)
    ensures Ids(server.collector.queue) ==
      Asked(old(Ids(server.collector.queue)), server.collector.size, server.disk, id)
    ensures err == OK <==> Delivers(server.disk, id, patience)
    ensures err == OK ==>
      && client.disk ==
           Unlinked(old(client.disk), Victim(old(Ids(client.collector.queue)), client.collector.size, id))
             [id := server.disk[id]]
      && Ids(client.collector.queue) == Updated(old(Ids(client.collector.queue)), client.collector.size, id)
    ensures err != OK ==>
      client.disk == old(client.disk) && Ids(client.collector.queue) == old(Ids(client.collector.queue))
  {
    var status, parts := GetChunk(server, id, patience);
    var reply := Reply(if status == NotFound then [] else parts, status == Served);
    if id in server.disk {
      ghost var data := server.disk[id];
      assert data[..Min(|data|, CHUNK_SIZE)] == data;
      PatienceLasts(data, parts, patience, status == Served);
    }
    OneReply(catalogue, server.disk, id, patience, reply);
    var defined;
    defined, err := FetchChunk(client, catalogue, id, [reply]);
  }

  // ---------------------------------------------------------------- the list of hashes

  /** The ids of the chunks have no gap. */
  ghost predicate Contiguous(ids: set<nat>) {
    forall id: nat :: id in ids <==> id < |ids|
  }

  function Below(n: nat): (s: set<nat>)
    ensures |s| == n && forall i: nat :: i in s <==> i < n
  {
    if n == 0 then {} else Below(n - 1) + {n - 1}
  }

  lemma {:induction false} AllBelow(ids: set<nat>)
    requires forall i: nat :: i < |ids| ==> i in ids
    ensures Contiguous(ids)
  {
    var low := Below(|ids|);
    assert low <= ids;
    if exists id: nat :: id in ids && id !in low {
      var id: nat :| id in ids && id !in low;
      SubsetSize(low + {id}, ids);
    }
  }

  /** The hashes of the first chunks, which the files have. */
  ghost predicate Hashed(disk: map<nat, Bytes>, sum: Bytes -> Bytes, hashes: seq<Bytes>) {
    forall k: nat :: k < |hashes| ==> k in disk && hashes[k] == sum(disk[k][..Min(|disk[k]|, CHUNK_SIZE)])
  }

  lemma HashedMore(disk: map<nat, Bytes>, sum: Bytes -> Bytes, hashes: seq<Bytes>, data: Bytes)
    requires Hashed(disk, sum, hashes) && |hashes| in disk
    requires data == disk[|hashes|][..Min(|disk[|hashes|]|, CHUNK_SIZE)]
    ensures Hashed(disk, sum, hashes + [sum(data)])
  {
  }

  /** The hashes of all chunks of a store; the program gives up exactly when their ids have a gap. */
  method HashStore(store: ChunkStore, sum: Bytes -> Bytes) returns (r: Option<Catalogue>)
    requires store.Valid()
    modifies store.collector
    ensures store.Valid()
    ensures r.Some? <==> Contiguous(store.disk.Keys)
    ensures r.Some? ==> r.value.sum == sum && |r.value.hashes| == |store.disk.Keys|
    ensures r.Some? ==> forall id :: id in store.disk ==>
      r.value.Lists(id, store.disk[id][..Min(|store.disk[id]|, CHUNK_SIZE)])
  {
    var available := store.Available();
    var maxId := |available|;
    var hashes: seq<Bytes> := [];
    for i := 0 to maxId
      invariant store.Valid() && |hashes| == i && Hashed(store.disk, sum, hashes)
    {
      var err, data := store.ReadChunk(i);
      if err != OK {
        return None;
      }
      HashedMore(store.disk, sum, hashes, data);
      hashes := hashes + [sum(data)];
    }
    AllBelow(store.disk.Keys);
    return Some(Catalogue(sum, hashes));
  }
}
