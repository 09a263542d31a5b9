/**
 The mounted file system: mounting (meta/meta_file_system.cc), and the reads and directory
 listings of fuse/fuse_main.cc, over a disk that a build packed.
 */
module DistFS {
  import opened Prelude
  import opened ByteImage
  import opened SourceTree
  import opened Image
  import opened PathResolution
  import opened MetaFSReader
  import opened WorkQueue
  import opened FlatDisk
  import opened Placement
  import opened FlatReader

  /** A packed disk that is published: the chunks that a reader sees, their number, and what they hold. */
  ghost predicate Mountable(provider: ChunkProvider, img: Bytes, root: Tree, order: seq<seq<nat>>)
    reads provider, provider.collector, provider.store, provider.store.chunkStore, provider.store.chunkStore.collector
  {
    && provider.Valid()
    && |provider.catalogue.hashes| <= U32
    && (forall id: nat :: id < |provider.catalogue.hashes| <==> id in provider.Flat())
    && Packed(provider.Flat(), img, root, order)
  }

  /** The chunks of a packed disk cover all its bytes. */
  lemma Capacity(flat: map<nat, Bytes>, n: nat, img: Bytes, root: Tree, order: seq<seq<nat>>)
    requires Packed(flat, img, root, order) && n <= U32
    requires forall id: nat :: id < n <==> id in flat
    ensures |img| + FileBytes(root) < 4194304 * n
    ensures WORD <= |img| < ID_LIMIT
  {
    LaidSizes(img, root, order);
    var last := ChunkOf(|img| + FileBytes(root));
    assert last in flat.Keys;
  }

  lemma PackedImage(flat: map<nat, Bytes>, img: Bytes, root: Tree, order: seq<seq<nat>>)
    requires Packed(flat, img, root, order)
    ensures Holds(img, WORD, root) && WordAt(img, 0, |img|) && |img| == WORD + Size(root)
    ensures |img| < U64
  {
    assert OpenLaid(0);
    HoldsContent(img, WORD, root);
  }

  /** The first bytes of the disk are the length of the image. */
  lemma LengthRead(flat: map<nat, Bytes>, img: Bytes, buf: Bytes)
    requires OnDisk(flat, 0, img) && OnDisk(flat, 0, buf) && |buf| == WORD <= |img| < U64
    requires WordAt(img, 0, |img|)
    ensures Word(buf, 0) == |img|
  {
    OnDiskPart(flat, 0, img, 0, WORD);
    OnDiskUnique(flat, 0, img[..WORD], buf);
    ReadWord(img, 0, |img|);
    assert buf[0..WORD] == img[0..WORD];
  }

  /** Read the length of the image, then the image. */
  method Mount(dp: DataProvider, first: Peers, second: Peers,
               ghost img: Bytes, ghost root: Tree, ghost order: seq<seq<nat>>)
    returns (defined: bool, mfs: Option<MetaFileSystem>)
    requires Mountable(dp.provider, img, root, order)
    modifies dp.provider.Repr()
    ensures dp.provider.Valid()
    ensures (RoomFor(first) && RoomFor(second)) || mfs.Some? ==> defined
    ensures mfs.Some? ==> mfs.value.data == img && mfs.value.root == root && mfs.value.Valid()
    ensures old(dp.Local()) ==> dp.Local()
    ensures old(dp.Local()) || (dp.Helpful(first) && dp.Helpful(second)) ==> mfs.Some?
  {
    Capacity(dp.provider.Flat(), |dp.provider.catalogue.hashes|, img, root, order);
    PackedImage(dp.provider.Flat(), img, root, order);
    var data;
    defined, data := ReadImage(dp, first, second, img);
    if data.None? {
      return defined, None;
    }
    var m := new MetaFileSystem(data.value, root);
    return true, Some(m);
  }

  method ReadImage(dp: DataProvider, first: Peers, second: Peers, ghost img: Bytes)
    returns (defined: bool, r: Option<Bytes>)
    requires dp.provider.Valid()
    requires OnDisk(dp.provider.Flat(), 0, img) && WordAt(img, 0, |img|)
    requires WORD <= |img| < ID_LIMIT && |img| <= dp.Extent()
    modifies dp.provider.Repr()
    ensures dp.provider.Valid()
    ensures (RoomFor(first) && RoomFor(second)) || r.Some? ==> defined
    ensures r.Some? ==> r.value == img
    ensures old(dp.Local()) ==> dp.Local()
    ensures old(dp.Local()) || (dp.Helpful(first) && dp.Helpful(second)) ==> r.Some?
  {
    var err, buf, data;
    defined, err, buf := dp.Read(0, WORD, first);
    if !defined || err != OK {
      return defined, None;
    }
    LengthRead(dp.provider.Flat(), img, buf);
    defined, err, data := dp.Read(0, Word(buf, 0), second);
    if !defined || err != OK {
      return defined, None;
    }
    OnDiskUnique(dp.provider.Flat(), 0, data, img);
    return true, Some(data);
  }

  // ---------------------------------------------------------------- reading a file

  /** The bytes that a read of a file must return. */
  function Slice(bs: Bytes, offset: nat, size: nat): Bytes {
    if offset >= |bs| then [] else bs[offset..Min(|bs|, offset + size)]
  }

  /** The number of bytes that the program asks for, with the difference of unsigned words. */
  function Clamped(len: nat, offset: nat, size: nat): (n: nat)
    ensures n <= size
  {
    Min(Wrap64(len - offset), size)
  }

  /** The program asks for as many bytes as it must exactly when the read starts inside the file or is empty. */
  lemma ClampExact(bs: Bytes, offset: nat, size: nat)
    requires |bs| < U64 && offset < U64
    ensures Clamped(|bs|, offset, size) == |Slice(bs, offset, size)| <==> offset <= |bs| || size == 0
  {
    if offset > |bs| {
      assert Wrap64(|bs| - offset) == 0x1_0000_0000_0000_0000 + |bs| - offset;
    }
  }

  /** `mfs` reads the image of a packed disk. */
  ghost predicate Mounted(mfs: MetaFileSystem, provider: ChunkProvider, img: Bytes, root: Tree, order: seq<seq<nat>>)
    reads provider, provider.collector, provider.store, provider.store.chunkStore, provider.store.chunkStore.collector
  {
    Mountable(provider, img, root, order) && mfs.Valid() && mfs.data == img && mfs.root == root
  }

  /** A content lies on the disk where a node's words say. */
  ghost predicate LiesAt(flat: map<nat, Bytes>, n: nat, off: nat, len: nat, content: Content) {
    && len == |BytesOf(content)| < U64
    && (content.Readable? ==> off + len < 4194304 * n && OnDisk(flat, off, content.bytes))
  }

  /** The place in a file node, and what lies there. */
  lemma FilePlace(flat: map<nat, Bytes>, n: nat, img: Bytes, root: Tree, order: seq<seq<nat>>, p: seq<nat>)
    returns (at: Place)
    requires Packed(flat, img, root, order) && n <= U32 && FilePath(root, p)
    requires forall id: nat :: id < n <==> id in flat
    ensures PlacedAt(img, PosOf(WORD, root, p), at) && at.off < U64 && at.len < U64
    ensures LiesAt(flat, n, at.off, at.len, Sub(root, p).content)
  {
    Capacity(flat, n, img, root, order);
    at := FileIsPlaced(flat, img, root, order, p);
  }

  /** The part of a content on the disk that a read wants. */
  lemma SliceOnDisk(flat: map<nat, Bytes>, off: nat, bs: Bytes, offset: nat, size: nat, data: Bytes)
    requires OnDisk(flat, off, bs) && offset <= |bs|
    requires OnDisk(flat, off + offset, data) && |data| == Clamped(|bs|, offset, size) && |bs| < U64
    ensures data == Slice(bs, offset, size)
  {
    var n := |data|;
    OnDiskPart(flat, off, bs, offset, n);
    OnDiskUnique(flat, off + offset, bs[offset..offset + n], data);
  }

  /** A read that starts inside the file or is empty. */
  predicate Inside(content: Content, offset: nat, size: nat) {
    offset <= |BytesOf(content)| || size == 0
  }

  /** Peers send no more than a chunk, and nothing for chunks behind the disk if the read starts behind the file. */
  ghost predicate Mild(dp: DataProvider, content: Content, offset: nat, size: nat, peers: Peers) {
    RoomFor(peers) && (Inside(content, offset, size) || NoneBeyond(|dp.provider.catalogue.hashes|, peers))
  }

  /** Read from a file that lies at `off` of the disk and has `len` bytes. */
  method ReadRange(dp: DataProvider, off: nat, len: nat, size: nat, offset: nat, peers: Peers, ghost content: Content)
    returns (defined: bool, ok: bool, data: Bytes)
    requires dp.provider.Valid() && offset < U64
    requires LiesAt(dp.provider.Flat(), |dp.provider.catalogue.hashes|, off, len, content)
    modifies dp.provider.Repr()
    ensures dp.provider.Valid()
    ensures ok ==> (data == Slice(BytesOf(content), offset, size) <==> Inside(content, offset, size))
    ensures old(dp.Local()) ==> dp.Local()
    ensures Mild(dp, content, offset, size, peers) || ok ==> defined
    ensures Inside(content, offset, size) && (old(dp.Local()) || dp.Helpful(peers)) ==> ok
  {
    var n := Clamped(len, offset, size);
    dp.provider.FewChunks();
    ClampExact(BytesOf(content), offset, size);
    RangeInFile(dp.provider.Flat(), |dp.provider.catalogue.hashes|, off, len, content, offset, size);
    var err;
    defined, err, data := dp.Read(Wrap64(off + offset), n, peers);
    ok := err == OK;
    if ok && Inside(content, offset, size) {
      RangeIsSlice(dp.provider.Flat(), |dp.provider.catalogue.hashes|, off, len, content, offset, size, data);
    }
  }

  /** What is asked for inside a file lies on the disk. */
  lemma RangeInFile(flat: map<nat, Bytes>, n: nat, off: nat, len: nat, content: Content, offset: nat, size: nat)
    requires LiesAt(flat, n, off, len, content) && n <= U32
    ensures Inside(content, offset, size) && Clamped(len, offset, size) > 0 ==>
      Wrap64(off + offset) + Clamped(len, offset, size) <= 4194304 * n <= ID_LIMIT
  {
  }

  lemma RangeIsSlice(flat: map<nat, Bytes>, n: nat, off: nat, len: nat, content: Content,
                     offset: nat, size: nat, data: Bytes)
    requires LiesAt(flat, n, off, len, content) && n <= U32 && Inside(content, offset, size)
    requires |data| == Clamped(len, offset, size)
    requires |data| > 0 ==> OnDisk(flat, Wrap64(off + offset), data)
    ensures data == Slice(BytesOf(content), offset, size)
  {
    if |data| > 0 {
      SliceOnDisk(flat, off, BytesOf(content), offset, size, data);
    }
  }

  /**
   Read from an open file, whose handle is the offset of its node. A read that succeeds is
   right exactly when it starts inside the file or is empty. The behaviour is defined unless a
   peer sends a fatal reply.
   */
  method ReadFile(mfs: MetaFileSystem, dp: DataProvider, fh: nat, size: nat, offset: nat, peers: Peers,
                  ghost img: Bytes, ghost root: Tree, ghost order: seq<seq<nat>>, ghost p: seq<nat>)
    returns (defined: bool, ok: bool, data: Bytes)
    requires Mounted(mfs, dp.provider, img, root, order) && offset < U64
    requires ValidPath(root, p) && fh == PosOf(WORD, root, p)
    modifies dp.provider.Repr()
    ensures dp.provider.Valid()
    ensures !Sub(root, p).File? ==> defined && !ok
    ensures Sub(root, p).File? && ok ==>
      (data == Slice(BytesOf(Sub(root, p).content), offset, size) <==> Inside(Sub(root, p).content, offset, size))
    ensures old(dp.Local()) ==> dp.Local()
    ensures Sub(root, p).File? && (Mild(dp, Sub(root, p).content, offset, size, peers) || ok) ==> defined
    ensures old(dp.Local()) || dp.Helpful(peers) ==>
      Sub(root, p).File? && Inside(Sub(root, p).content, offset, size) ==> ok
  {
    NodeAtPath(dp.provider.Flat(), img, root, order, p);
    var r := mfs.GetFilePosition(fh, Some(Sub(root, p)));
    if !r.Got? {
      return true, false, [];
    }
    ghost var at := FilePlace(dp.provider.Flat(), |dp.provider.catalogue.hashes|, img, root, order, p);
    defined, ok, data := ReadRange(dp, r.value.off, r.value.len, size, offset, peers, Sub(root, p).content);
  }

  lemma NodeAtPath(flat: map<nat, Bytes>, img: Bytes, root: Tree, order: seq<seq<nat>>, p: seq<nat>)
    requires Packed(flat, img, root, order) && ValidPath(root, p)
    ensures Holds(img, PosOf(WORD, root, p), Sub(root, p))
  {
    PackedImage(flat, img, root, order);
    HoldsSub(img, WORD, root, p);
  }

  // ---------------------------------------------------------------- listing a directory

  function EntriesOf(t: Tree): seq<DirEntry> {
    if t.Dir? then t.entries else []
  }

  /** One call: entries from `offset` on while the caller has room; the caller resumes at `next`. */
  method ReadDir(mfs: MetaFileSystem, path: Bytes, offset: nat, room: nat)
    returns (r: Outcome<seq<(Bytes, Attr)>>, next: nat)
    requires mfs.Valid()
    ensures mfs.Fails(path, r) && (!mfs.Absolute(path) ==> r == Threw)
    ensures forall t :: mfs.Lies(path, t) ==>
      r == RowsOf(t, offset % 0x1_0000_0000, room) && RowsShown(t, offset % 0x1_0000_0000, room, r)
    ensures mfs.Resolvable(path) ==>
      r == match mfs.Target(path) {
        case None => Failed(NOT_FOUND)
        case Some(t) => RowsOf(t, offset % 0x1_0000_0000, room)
      }
    ensures next == offset + if r.Got? then |r.value| else 0
  {
    r := mfs.GetDir(path, offset % 0x1_0000_0000, room);
    next := if r.Got? then offset + |r.value| else offset;
  }

  function Total(rooms: seq<nat>): nat {
    if |rooms| == 0 then 0 else Total(rooms[..|rooms| - 1]) + rooms[|rooms| - 1]
  }

  /** The page that follows the first entries, as many of them as there are. */
  lemma NextPage(es: seq<DirEntry>, n: nat, room: nat)
    requires |es| < U32
    ensures var done := |Page(es, 0, n)|;
      && done % 0x1_0000_0000 == done
      && Page(es, 0, n) + Page(es, done, room) == Page(es, 0, n + room)
  {
  }

  lemma {:induction false} TotalAtLeast(rooms: seq<nat>)
    requires forall k :: 0 <= k < |rooms| ==> rooms[k] > 0
    ensures Total(rooms) >= |rooms|
  {
    if |rooms| > 0 {
      TotalAtLeast(rooms[..|rooms| - 1]);
    }
  }

  lemma TotalMore(rooms: seq<nat>, k: nat)
    requires k < |rooms|
    ensures Total(rooms[..k + 1]) == Total(rooms[..k]) + rooms[k]
  {
    assert rooms[..k + 1][..k] == rooms[..k];
  }

  /** What a listing of a node in pages must give: the first entries, and all of them with as many pages as entries. */
  ghost predicate Lists(t: Tree, rooms: seq<nat>, r: Outcome<()>, all: seq<(Bytes, Attr)>) {
    && r == (if t.Dir? then Got(()) else Failed(BAD_TYPE))
    && PageShown(EntriesOf(t), 0, Total(rooms), all)
    && (|rooms| >= |EntriesOf(t)| ==> |all| == |EntriesOf(t)|)
  }

  /** The same as pages of the entries. */
  ghost predicate Pages(t: Tree, rooms: seq<nat>, r: Outcome<()>, all: seq<(Bytes, Attr)>) {
    && r == (if t.Dir? then Got(()) else Failed(BAD_TYPE))
    && all == Page(EntriesOf(t), 0, Total(rooms))
    && (|rooms| >= |EntriesOf(t)| ==> all == Page(EntriesOf(t), 0, |EntriesOf(t)|))
  }

  /**
   A listing in pages of any sizes gives every entry exactly once and in order: the first
   entries, as many as the pages hold. With as many pages as entries it is complete.
   */
  method ListDirectory(mfs: MetaFileSystem, path: Bytes, rooms: seq<nat>)
    returns (r: Outcome<()>, all: seq<(Bytes, Attr)>)
    requires mfs.Valid() && |rooms| > 0 && forall k :: 0 <= k < |rooms| ==> rooms[k] > 0
    ensures mfs.Fails(path, r) && (!mfs.Absolute(path) ==> r == Threw)
    ensures forall t :: mfs.Lies(path, t) ==> Lists(t, rooms, r, all) && Pages(t, rooms, r, all)
    ensures mfs.Resolvable(path) ==>
      match mfs.Target(path)
      case None => r == Failed(NOT_FOUND) && all == []
      case Some(t) => Lists(t, rooms, r, all)
  {
    ghost var t := LandedOn(mfs, path);
    r, all := ListPages(mfs, path, rooms, t);
    forall u | mfs.Lies(path, u) ensures Lists(u, rooms, r, all) && Pages(u, rooms, r, all) {
      ListsAll(mfs, path, t, u, rooms, r, all);
    }
    if mfs.Resolvable(path) {
      mfs.TargetLies(path);
    }
  }

  /** The calls of a listing, one for each page, until one fails. */
  method ListPages(mfs: MetaFileSystem, path: Bytes, rooms: seq<nat>, ghost t: Tree)
    returns (r: Outcome<()>, all: seq<(Bytes, Attr)>)
    requires mfs.Valid() && |rooms| > 0 && forall k :: 0 <= k < |rooms| ==> rooms[k] > 0
    ensures mfs.Fails(path, r) && (!mfs.Resolved(path).Got? ==> all == [])
    ensures mfs.Lies(path, t) ==> Pages(t, rooms, r, all)
  {
    ghost var good := mfs.Lies(path, t);
    TotalAtLeast(rooms);
    var offset: nat := 0;
    r, all := Got(()), [];
    for k := 0 to |rooms|
      invariant if mfs.Resolved(path).Got? then r == Got(()) else k == 0 && all == []
      invariant offset == |all|
      invariant good ==> Listed(t, rooms, k, all)
    {
      if good {
        ListedNext(mfs, path, t, rooms, k, all);
      }
      var page;
      page, offset := ReadDir(mfs, path, offset, rooms[k]);
      match page {
        case Threw => return Threw, all;
        case Lost => return Lost, all;
        case Failed(code) => return Failed(code), all;
        case Got(listed) => all := all + listed;
      }
    }
    assert rooms[..|rooms|] == rooms;
  }

  /** The pages so far are the first entries. */
  ghost predicate Listed(t: Tree, rooms: seq<nat>, k: nat, all: seq<(Bytes, Attr)>)
    requires k <= |rooms|
  {
    (k > 0 ==> t.Dir?) && |all| <= |EntriesOf(t)| && all == Page(EntriesOf(t), 0, Total(rooms[..k]))
  }

  lemma ListedNext(mfs: MetaFileSystem, path: Bytes, t: Tree, rooms: seq<nat>, k: nat, all: seq<(Bytes, Attr)>)
    requires mfs.Lies(path, t) && k < |rooms| && Listed(t, rooms, k, all)
    ensures |all| % 0x1_0000_0000 == |all|
    ensures t.Dir? ==> Listed(t, rooms, k + 1, all + Page(t.entries, |all|, rooms[k]))
    ensures !t.Dir? ==> Pages(t, rooms, Failed(BAD_TYPE), all)
  {
    EntriesFew(mfs, path, t);
    TotalMore(rooms, k);
    NextPage(EntriesOf(t), Total(rooms[..k]), rooms[k]);
  }

  /** A node where the path leads, if there is one. */
  ghost function LandedOn(mfs: MetaFileSystem, path: Bytes): (t: Tree)
    ensures mfs.Lands(path) ==> mfs.Lies(path, t)
  {
    if mfs.Lands(path) then
      var t :| mfs.Lies(path, t);
      t
    else mfs.root
  }

  lemma EntriesFew(mfs: MetaFileSystem, path: Bytes, t: Tree)
    requires mfs.Lies(path, t)
    ensures |EntriesOf(t)| < U32
  {
    NodeFields(mfs.data, mfs.Resolved(path).value, t);
  }

  lemma ListsAll(mfs: MetaFileSystem, path: Bytes, t: Tree, u: Tree, rooms: seq<nat>,
                   r: Outcome<()>, all: seq<(Bytes, Attr)>)
    requires mfs.Lies(path, t) && mfs.Lies(path, u) && Pages(t, rooms, r, all)
    ensures Lists(u, rooms, r, all) && Pages(u, rooms, r, all)
  {
    var pos := mfs.Resolved(path).value;
    NodeFields(mfs.data, pos, t);
    NodeFields(mfs.data, pos, u);
    RowsAgree(mfs.data, pos, t, u, 0, Total(rooms));
    RowsAgree(mfs.data, pos, t, u, 0, |EntriesOf(t)|);
    if u.Dir? {
      PageOfShown(mfs.data, pos, u, 0, Total(rooms));
    }
  }
}
