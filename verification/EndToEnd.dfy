/**
 The whole way of a file: a tree is packed on one node and its hashes are listed; another
 node, which starts with an empty store, mounts the tree and reads it through whatever
 peers answer.
 */
module EndToEnd {
  import opened Prelude
  import opened ByteImage
  import opened SourceTree
  import opened Image
  import opened PathResolution
  import opened MetaFSReader
  import opened MetaFSWriter
  import opened WorkQueue
  import opened Stores
  import opened FlatDisk
  import opened Placement
  import opened PackedChunks
  import opened Download
  import opened FlatReader
  import opened DistFS

  /** Pack a tree into a new store; `fits` tells whether every chunk that was stored fitted when compressed. */
  method Pack(fs: Tree, rootPath: Bytes, codec: Codec, memory: Bytes)
    returns (err: ErrorCode, store: CompressedStore, ghost fits: bool, ghost img: Bytes, ghost order: seq<seq<nat>>)
    requires WellFormed(fs) && WORD + Size(fs) + FileBytes(fs) < LIMIT && codec.Faithful() && |memory| == CHUNK_SIZE
    ensures fresh(store) && fresh(store.chunkStore) && fresh(store.chunkStore.collector)
    ensures store.Valid() && store.codec == codec
    ensures fits <==> PackFits(codec, memory, img, fs)
    ensures |img| == WORD + Size(fs)
    ensures ContentsFit(codec, memory, |img|, fs) ==> Laid(img, fs, BfsOrder(fs))
    ensures fits ==> err == OK && order == BfsOrder(fs) && Packed(Chunks(store.chunkStore.disk, codec), img, fs, order)
  {
    var builder := NewDisk(codec, memory);
    store := builder.store;
    var writer := new MetaFSBuilder();
    err, img, order := writer.Build(builder, fs, rootPath, memory);
    builder.StoreValid();
    fits := builder.fits;
  }

  /** An empty flat disk on a new store. */
  method NewDisk(codec: Codec, memory: Bytes) returns (builder: ChunkBuilder)
    requires codec.Faithful() && |memory| == CHUNK_SIZE
    ensures fresh(builder.Repr()) && fresh(builder.store) && builder.Valid() && builder.store.codec == codec
    ensures builder.pos == 0 && builder.written == map[] && builder.fits
    ensures builder.State() == ChunkState(memory, 0, map[], [])
  {
    var chunkStore := new ChunkStore(map[], [], MAX_CHUNKS);
    var store := new CompressedStore(chunkStore, codec);
    builder := new ChunkBuilder(store, memory);
  }

  /** A packed disk whose hashes were listed is published. */
  lemma PackedIsPublished(store: CompressedStore, catalogue: Catalogue, img: Bytes, root: Tree, order: seq<seq<nat>>)
    requires store.Valid() && Packed(Chunks(store.chunkStore.disk, store.codec), img, root, order)
    requires |img| + FileBytes(root) < LIMIT && catalogue.CollisionFree()
    requires Contiguous(store.chunkStore.disk.Keys) && |catalogue.hashes| == |store.chunkStore.disk.Keys|
    requires forall id :: id in store.chunkStore.disk ==>
      catalogue.Lists(id, store.chunkStore.disk[id][..Min(|store.chunkStore.disk[id]|, CHUNK_SIZE)])
    ensures Published(store.chunkStore.disk, store.codec, catalogue)
  {
    var disk := store.chunkStore.disk;
    var flat := Chunks(disk, store.codec);
    forall id | id in disk
      ensures |disk[id]| <= CHUNK_SIZE && catalogue.Lists(id, disk[id])
      ensures store.codec.decompress(disk[id]).Some? && |store.codec.decompress(disk[id]).value| == CHUNK_SIZE
    {
      assert id in flat && |flat[id]| == CHUNK_SIZE;
      assert disk[id][..Min(|disk[id]|, CHUNK_SIZE)] == disk[id];
    }
    FewChunks(flat, |disk.Keys|, img, root, order);
  }

  lemma FewChunks(flat: map<nat, Bytes>, n: nat, img: Bytes, root: Tree, order: seq<seq<nat>>)
    requires Packed(flat, img, root, order) && |img| + FileBytes(root) < LIMIT
    requires forall id: nat :: id in flat <==> id < n
    ensures n <= U32
  {
    if n > 0 {
      var top: nat := n - 1;
      assert top in flat.Keys;
    }
  }

  /** The ids of a packed disk have no gap. */
  lemma PackedContiguous(store: CompressedStore, img: Bytes, root: Tree, order: seq<seq<nat>>)
    requires Packed(Chunks(store.chunkStore.disk, store.codec), img, root, order)
    ensures Contiguous(store.chunkStore.disk.Keys)
  {
    var disk := store.chunkStore.disk;
    var last := ChunkOf(|img| + FileBytes(root));
    var low := Below(last + 1);
    forall id: nat ensures id in disk.Keys <==> id in low {
      assert id in disk <==> id in Chunks(disk, store.codec).Keys;
    }
    assert disk.Keys == low;
  }

  // ---------------------------------------------------------------- a node that reads

  /** What is asked of a mounted tree; a read of a file comes with what peers answer meanwhile. */
  datatype Request =
    | ReadOf(path: Bytes, offset: nat, size: nat, peers: Peers)
    | AttributesOf(path: Bytes)
    | PageOf(path: Bytes, start: nat, room: nat)
    | ValueOf(path: Bytes, name: Bytes, size: nat)
    | NamesOf(path: Bytes, size: nat)
    | LinkOf(path: Bytes, size: nat)

  datatype Answer =
    | NoEntry
    | Failure
    | Content(bytes: Bytes)
    | Attributes(attr: Attr)
    | Entries(page: Outcome<seq<(Bytes, Attr)>>)
    | Value(value: Outcome<Option<Bytes>>, length: nat)
    | Names(result: Outcome<()>, length: nat, list: Bytes)
    | Linked(result: Outcome<()>, copy: Bytes)

  ghost function TargetOf(root: Tree, path: Bytes): Option<Tree> {
    match Lookup(root, path)
    case None => None
    case Some(p) => Some(Sub(root, p))
  }

  /** An absolute path through plain directories, and a read that starts inside the file. */
  ghost predicate Legal(root: Tree, q: Request) {
    && |q.path| > 0 && q.path[0] == SLASH && NulFree(q.path) && PlainAlong(root, Components(q.path[1..]))
    && match q {
         case ReadOf(path, offset, size, peers) =>
           && offset < U64
           && (TargetOf(root, path).Some? && TargetOf(root, path).value.File? ==>
                Inside(TargetOf(root, path).value.content, offset, size))
         case ValueOf(_, name, _) => NulFree(name)
         case _ => true
       }
  }

  /** What a tree must answer for one of its nodes; only the read of a file may fail. */
  ghost predicate Answers(t: Tree, q: Request, a: Answer) {
    match q
    case ReadOf(_, offset, size, _) =>
      a == Failure || (t.File? && a == Content(Slice(BytesOf(t.content), offset, size)))
    case AttributesOf(_) => a == Attributes(AttrOf(t.st)) && Shows(a.attr, t)
    case PageOf(_, start, room) => a == Entries(RowsOf(t, start, room)) && RowsShown(t, start, room, a.page)
    case ValueOf(_, name, size) => a.Value? && ValueFetched(t.xattrs, name, size, a.value, a.length)
    case NamesOf(_, size) => a.Names? && NamesListed(t.xattrs, size, a.result, a.length, a.list)
    case LinkOf(_, size) =>
      && a.Linked?
      && (!t.Link? ==> a.result == Failed(BAD_TYPE))
      && (t.Link? && |t.target| + 1 < size ==> a.result == Got(()) && At(a.copy, 0, t.target + [0]))
  }

  /** What exists is answered by the tree, and what does not exist is not found. */
  ghost predicate Right(root: Tree, q: Request, a: Answer) {
    match TargetOf(root, q.path)
    case None => a == NoEntry
    case Some(t) => Answers(t, q, a)
  }

  /** Anything but a read of what is not a file. */
  ghost predicate Readable(root: Tree, q: Request) {
    q.ReadOf? && TargetOf(root, q.path).Some? ==> TargetOf(root, q.path).value.File?
  }

  /** Read a part of a file. */
  method AccessFile(mfs: MetaFileSystem, dp: DataProvider, q: Request,
                    ghost img: Bytes, ghost root: Tree, ghost order: seq<seq<nat>>)
    returns (defined: bool, a: Answer)
    requires Mounted(mfs, dp.provider, img, root, order) && Legal(root, q) && q.ReadOf?
    modifies dp.provider.Repr()
    ensures dp.provider.Valid() && Right(root, q, a)
    ensures RoomFor(q.peers) || a != Failure ==> defined
    ensures old(dp.Local()) ==> dp.Local()
    ensures Readable(root, q) && (old(dp.Local()) || dp.Helpful(q.peers)) ==> a != Failure
  {
    var fh := mfs.GetOffset(q.path);
    if !fh.Got? {
      return true, NoEntry;
    }
    var ok, data;
    defined, ok, data := DistFS.ReadFile(mfs, dp, fh.value, q.size, q.offset, q.peers, img, root, order,
                                    Lookup(root, q.path).value);
    a := if ok then Content(data) else Failure;
  }

  /** Anything that the image alone answers. */
  method AccessImage(mfs: MetaFileSystem, q: Request, ghost root: Tree) returns (a: Answer)
    requires mfs.Valid() && mfs.root == root && Legal(root, q) && !q.ReadOf?
    ensures Right(root, q, a) && a != Failure
  {
    match q {
      case AttributesOf(path) =>
        a := AccessAttributes(mfs, path);
      case PageOf(path, start, room) =>
        a := AccessPage(mfs, path, start, room);
      case ValueOf(path, name, size) =>
        var r, length := mfs.GetXattr(path, name, size);
        a := if r == Failed(NOT_FOUND) then NoEntry else Value(r, length);
      case NamesOf(path, size) =>
        var r, length, list := mfs.ListXattr(path, size);
        a := if r == Failed(NOT_FOUND) then NoEntry else Names(r, length, list);
      case LinkOf(path, size) =>
        a := AccessLink(mfs, path, size);
    }
  }

  method AccessAttributes(mfs: MetaFileSystem, path: Bytes) returns (a: Answer)
    requires mfs.Valid() && mfs.Resolvable(path)
    ensures match mfs.Target(path)
      case None => a == NoEntry
      case Some(t) => Answers(t, AttributesOf(path), a)
  {
    var r := mfs.GetStat(path);
    a := if r.Got? then Attributes(r.value) else NoEntry;
    mfs.TargetLies(path);
  }

  method AccessPage(mfs: MetaFileSystem, path: Bytes, start: nat, room: nat) returns (a: Answer)
    requires mfs.Valid() && mfs.Resolvable(path)
    ensures match mfs.Target(path)
      case None => a == NoEntry
      case Some(t) => Answers(t, PageOf(path, start, room), a)
  {
    var r := mfs.GetDir(path, start, room);
    a := if r == Failed(NOT_FOUND) then NoEntry else Entries(r);
    mfs.TargetLies(path);
  }

  /** Read a link into a buffer with one more byte than is given. */
  method AccessLink(mfs: MetaFileSystem, path: Bytes, size: nat) returns (a: Answer)
    requires mfs.Valid() && mfs.Resolvable(path)
    ensures match mfs.Target(path)
      case None => a == NoEntry
      case Some(t) => Answers(t, LinkOf(path, size), a)
  {
    var buff := new byte[size + 1];
    ghost var before := buff[..];
    var r := mfs.GetSymlink(path, buff, size);
    a := if r == Failed(NOT_FOUND) then NoEntry else Linked(r, buff[..size]);
    ghost var target := mfs.Target(path);
    if target.Some? && target.value.Link? && |target.value.target| + 1 < size {
      LinkNulFree(mfs, path);
      LinkTerminated(target.value, before, buff[..], size, r);
    }
  }

  lemma LinkNulFree(mfs: MetaFileSystem, path: Bytes)
    requires mfs.Valid() && mfs.Target(path).Some? && mfs.Target(path).value.Link?
    ensures NulFree(mfs.Target(path).value.target)
  {
    HoldsContent(mfs.data, WORD, mfs.root);
    SubWellFormed(mfs.root, Lookup(mfs.root, path).value);
  }

  method Access(mfs: MetaFileSystem, dp: DataProvider, q: Request,
                ghost img: Bytes, ghost root: Tree, ghost order: seq<seq<nat>>)
    returns (defined: bool, a: Answer)
    requires Mounted(mfs, dp.provider, img, root, order) && Legal(root, q)
    modifies dp.provider.Repr()
    ensures dp.provider.Valid() && Right(root, q, a)
    ensures Bearable(q) || a != Failure ==> defined
    ensures old(dp.Local()) ==> dp.Local()
    ensures Readable(root, q) && (old(dp.Local()) || Helped(dp, q)) ==> a != Failure
  {
    if q.ReadOf? {
      defined, a := AccessFile(mfs, dp, q, img, root, order);
    } else {
      a := AccessImage(mfs, q, root);
      defined := true;
    }
  }

  /** Peers send no more than a chunk during a request. */
  ghost predicate Bearable(q: Request) {
    q.ReadOf? ==> RoomFor(q.peers)
  }

  /** Peers send every chunk during a request. */
  ghost predicate Helped(dp: DataProvider, q: Request) {
    q.ReadOf? ==> dp.Helpful(q.peers)
  }

  /** All answers of a session are right. */
  ghost predicate AllRight(root: Tree, qs: seq<Request>, answers: seq<Answer>) {
    |answers| <= |qs| && forall k :: 0 <= k < |answers| ==> Right(root, qs[k], answers[k])
  }

  ghost predicate NoneFailed(root: Tree, qs: seq<Request>, answers: seq<Answer>) {
    |answers| <= |qs| && forall k :: 0 <= k < |answers| && Readable(root, qs[k]) ==> answers[k] != Failure
  }

  lemma OneMore(root: Tree, qs: seq<Request>, answers: seq<Answer>, a: Answer)
    requires |answers| < |qs| && Right(root, qs[|answers|], a)
    ensures AllRight(root, qs, answers) ==> AllRight(root, qs, answers + [a])
    ensures NoneFailed(root, qs, answers) && (Readable(root, qs[|answers|]) ==> a != Failure) ==>
      NoneFailed(root, qs, answers + [a])
  {
  }

  /** Whether nothing can fail: the store has every chunk, or peers send each one for every request. */
  ghost predicate Supplied(dp: DataProvider, qs: seq<Request>)
    reads dp.provider, dp.provider.store, dp.provider.store.chunkStore
  {
    dp.Local() || forall k :: 0 <= k < |qs| ==> Helped(dp, qs[k])
  }

  /**
   Answer requests one after the other; cache and store change all the time. The answers stop
   where the behaviour is not defined any more, after a reply that is too long.
   */
  method AnswerAll(mfs: MetaFileSystem, dp: DataProvider, qs: seq<Request>,
                   ghost img: Bytes, ghost root: Tree, ghost order: seq<seq<nat>>)
    returns (defined: bool, answers: seq<Answer>)
    requires Mounted(mfs, dp.provider, img, root, order)
    requires forall k :: 0 <= k < |qs| ==> Legal(root, qs[k])
    modifies dp.provider.Repr()
    ensures AllRight(root, qs, answers) && (defined ==> |answers| == |qs|)
    ensures (forall k :: 0 <= k < |qs| ==> Bearable(qs[k])) ==> defined
    ensures old(Supplied(dp, qs)) && defined ==> NoneFailed(root, qs, answers)
  {
    answers := [];
    for i := 0 to |qs|
      invariant Mounted(mfs, dp.provider, img, root, order)
      invariant |answers| == i && AllRight(root, qs, answers)
      invariant old(Supplied(dp, qs)) ==> Supplied(dp, qs) && NoneFailed(root, qs, answers)
    {
      var a;
      defined, a := Access(mfs, dp, qs[i], img, root, order);
      if !defined {
        return;
      }
      OneMore(root, qs, answers, a);
      answers := answers + [a];
    }
    defined := true;
  }

  /** Mount, then answer requests. */
  method Session(dp: DataProvider, first: Peers, second: Peers, qs: seq<Request>,
                 ghost img: Bytes, ghost root: Tree, ghost order: seq<seq<nat>>)
    returns (defined: bool, answers: Option<seq<Answer>>)
    requires Mountable(dp.provider, img, root, order)
    requires forall k :: 0 <= k < |qs| ==> Legal(root, qs[k])
    modifies dp.provider.Repr()
    ensures answers.Some? ==> AllRight(root, qs, answers.value) && (defined ==> |answers.value| == |qs|)
    ensures AllBearable(first, second, qs) ==> defined
    ensures old(Supplied(dp, qs)) && (old(dp.Local()) || (dp.Helpful(first) && dp.Helpful(second))) && defined ==>
      answers.Some? && NoneFailed(root, qs, answers.value)
  {
    var mfs, all;
    defined, mfs := Mount(dp, first, second, img, root, order);
    if mfs.None? {
      return defined, None;
    }
    defined, all := AnswerAll(mfs.value, dp, qs, img, root, order);
    return defined, Some(all);
  }

  /** Peers send no more than a chunk while the tree is mounted and during every request. */
  ghost predicate AllBearable(first: Peers, second: Peers, qs: seq<Request>) {
    RoomFor(first) && RoomFor(second) && forall k :: 0 <= k < |qs| ==> Bearable(qs[k])
  }

  /** Every chunk of a disk is offered by some peer that is asked. */
  ghost predicate Offered(disk: map<nat, Bytes>, peers: Peers) {
    forall id {:trigger peers(id)} :: id in disk ==>
      exists k :: 0 <= k < |peers(id)| && peers(id)[k].ok && Concat(peers(id)[k].parts) == disk[id]
  }

  /** Every chunk is offered while the tree is mounted and during every request, and no peer sends more than a chunk. */
  ghost predicate AllOffered(disk: map<nat, Bytes>, first: Peers, second: Peers, qs: seq<Request>) {
    && AllBearable(first, second, qs) && Offered(disk, first) && Offered(disk, second)
    && forall k :: 0 <= k < |qs| && qs[k].ReadOf? ==> Offered(disk, qs[k].peers)
  }

  lemma OfferedHelps(dp: DataProvider, peers: Peers)
    requires dp.provider.Valid() && Offered(dp.provider.origin, peers) && RoomFor(peers)
    ensures dp.Helpful(peers)
  {
    assert OpenProvider(0);
    forall id | id in dp.provider.origin
      ensures Serves(dp.provider.catalogue, id, peers(id))
    {
      var k :| 0 <= k < |peers(id)| && peers(id)[k].ok && Concat(peers(id)[k].parts) == dp.provider.origin[id];
      assert Good(dp.provider.catalogue, id, peers(id)[k]);
      assert Bounded(peers(id));
    }
  }

  /**
   Pack a tree, list the hashes, and read the tree on a node that starts with nothing, with
   a codec that has room for the buffers of this tree. The disk that is published holds the
   tree; every answer is right whatever peers send, up to a reply that is longer than a
   chunk; and none fails if peers offer every chunk.
   */
  method PackAndRead(fs: Tree, rootPath: Bytes, codec: Codec, memory: Bytes, sum: Bytes -> Bytes,
                     storeSize: nat, cacheSize: nat, first: Peers, second: Peers, qs: seq<Request>)
    returns (defined: bool, answers: Option<seq<Answer>>,
             ghost disk: map<nat, Bytes>, ghost img: Bytes, ghost order: seq<seq<nat>>)
    requires WellFormed(fs) && WORD + Size(fs) + FileBytes(fs) < LIMIT
    requires codec.Faithful() && |memory| == CHUNK_SIZE && Suits(codec, memory, fs)
    requires Catalogue(sum, []).CollisionFree() && storeSize > 0 && cacheSize > 0
    requires forall k :: 0 <= k < |qs| ==> Legal(fs, qs[k])
    ensures Packed(Chunks(disk, codec), img, fs, order)
    ensures answers.Some? ==> AllRight(fs, qs, answers.value) && (defined ==> |answers.value| == |qs|)
    ensures AllBearable(first, second, qs) ==> defined
    ensures AllOffered(disk, first, second, qs) ==> answers.Some? && NoneFailed(fs, qs, answers.value)
  {
    var catalogue;
    catalogue, disk, img, order := Publish(fs, rootPath, codec, memory, sum);
    defined, answers := ReadRemote(codec, catalogue, storeSize, cacheSize, first, second, qs, disk, img, fs, order);
  }

  /** Pack a tree with a codec that has room for its buffers. */
  method PackSuited(fs: Tree, rootPath: Bytes, codec: Codec, memory: Bytes)
    returns (store: CompressedStore, ghost img: Bytes, ghost order: seq<seq<nat>>)
    requires WellFormed(fs) && WORD + Size(fs) + FileBytes(fs) < LIMIT && codec.Faithful() && |memory| == CHUNK_SIZE
    requires Suits(codec, memory, fs)
    ensures fresh(store) && fresh(store.chunkStore) && fresh(store.chunkStore.collector)
    ensures store.Valid() && store.codec == codec && Packed(Chunks(store.chunkStore.disk, codec), img, fs, order)
  {
    var err;
    ghost var fits;
    err, store, fits, img, order := Pack(fs, rootPath, codec, memory);
    SuitsFits(codec, memory, fs, img);
  }

  /** Pack a tree and list the hashes of its chunks. */
  method Publish(fs: Tree, rootPath: Bytes, codec: Codec, memory: Bytes, sum: Bytes -> Bytes)
    returns (catalogue: Catalogue, ghost disk: map<nat, Bytes>, ghost img: Bytes, ghost order: seq<seq<nat>>)
    requires WellFormed(fs) && WORD + Size(fs) + FileBytes(fs) < LIMIT
    requires codec.Faithful() && |memory| == CHUNK_SIZE && Suits(codec, memory, fs)
    requires Catalogue(sum, []).CollisionFree()
    ensures Packed(Chunks(disk, codec), img, fs, order) && Published(disk, codec, catalogue)
  {
    var store;
    store, img, order := PackSuited(fs, rootPath, codec, memory);
    disk := store.chunkStore.disk;
    LaidSizes(img, fs, order);
    PackedContiguous(store, img, fs, order);
    var listed := HashStore(store.chunkStore, sum);
    catalogue := listed.value;
    PackedIsPublished(store, catalogue, img, fs, order);
  }

  /** Read a published tree on a node that starts with nothing. */
  method ReadRemote(codec: Codec, catalogue: Catalogue, storeSize: nat, cacheSize: nat,
                    first: Peers, second: Peers, qs: seq<Request>,
                    ghost disk: map<nat, Bytes>, ghost img: Bytes, ghost root: Tree, ghost order: seq<seq<nat>>)
    returns (defined: bool, answers: Option<seq<Answer>>)
    requires codec.Faithful() && storeSize > 0 && cacheSize > 0
    requires Published(disk, codec, catalogue) && Packed(Chunks(disk, codec), img, root, order)
    requires forall k :: 0 <= k < |qs| ==> Legal(root, qs[k])
    ensures answers.Some? ==> AllRight(root, qs, answers.value) && (defined ==> |answers.value| == |qs|)
    ensures AllBearable(first, second, qs) ==> defined
    ensures AllOffered(disk, first, second, qs) ==> answers.Some? && NoneFailed(root, qs, answers.value)
  {
    var chunkStore := new ChunkStore(map[], [], storeSize);
    var store := new CompressedStore(chunkStore, codec);
    var provider := new ChunkProvider(store, cacheSize, catalogue, disk);
    var dp := new DataProvider(provider);
    if AllOffered(disk, first, second, qs) {
      OfferedHelps(dp, first);
      OfferedHelps(dp, second);
      forall k | 0 <= k < |qs| ensures Helped(dp, qs[k]) {
        assert Bearable(qs[k]);
        if qs[k].ReadOf? {
          OfferedHelps(dp, qs[k].peers);
        }
      }
    }
    defined, answers := Session(dp, first, second, qs, img, root, order);
  }
}
