/** The writer of the metadata image (meta/metafs_builder.cc). */
module MetaFSWriter {
  import opened Prelude
  import opened ByteImage
  import opened SourceTree
  import opened Image
  import opened PathResolution
  import opened WorkQueue
  import opened FlatDisk
  import opened Placement
  import opened PackedChunks

  /** The first `n` bytes of two images agree. */
  ghost predicate Keeps(a: Bytes, b: Bytes, n: nat) {
    n <= |a| && n <= |b| && forall k :: 0 <= k < n ==> a[k] == b[k]
  }

  lemma KeepsThrough(a: Bytes, b: Bytes, c: Bytes, n: nat)
    requires Keeps(a, b, n) && Keeps(b, c, n)
    ensures Keeps(a, c, n)
  {
  }

  class MetaFSBuilder {
    var data: array<byte>
    var dataSize: nat
    var currentPos: nat

    ghost predicate Valid()
      reads this, data
    {
      && data.Length == dataSize
      && 0 < dataSize
      && currentPos <= dataSize
    }

    /** `build` starts with a buffer of one chunk and leaves room for the image length. */
    constructor ()
      ensures Valid() && fresh(data) && currentPos == WORD
    {
      data := new byte[CHUNK_SIZE];
      dataSize := CHUNK_SIZE;
      currentPos := WORD;
    }

    /** Grow the buffer by doubling until `length` more bytes fit; the bytes so far stay. */
    method ReserveBuffer(length: nat)
      requires Valid()
      modifies this`data, this`dataSize
      ensures Valid() && currentPos + length <= dataSize
      ensures data == old(data) || fresh(data)
      ensures Keeps(old(data[..]), data[..], old(dataSize))
    {
      while dataSize < length + currentPos
        invariant Valid()
        invariant data == old(data) || fresh(data)
        invariant Keeps(old(data[..]), data[..], old(dataSize))
        decreases length + currentPos - dataSize
      {
        var newData := new byte[2 * dataSize];
        forall k | 0 <= k < dataSize {
          newData[k] := data[k];
        }
        data := newData;
        dataSize := 2 * dataSize;
      }
    }

    method PutOne(off: nat, bs: Bytes)
      requires Valid() && off + |bs| <= dataSize
      modifies data
      ensures Patched(old(data[..]), data[..], off, bs)
    {
      forall k | 0 <= k < |bs| {
        data[off + k] := bs[k];
      }
      assert data[..][off..off + |bs|] == bs;
    }

    /** A run of stores into the buffer, at places that do not overlap. */
    method Put(ws: seq<Store>)
      requires Valid() && Ascending(ws, dataSize)
      modifies data
      ensures Applied(old(data[..]), data[..], ws)
    {
      for i := 0 to |ws|
        invariant Applied(old(data[..]), data[..], ws[..i])
      {
        var w := ws[i];
        ghost var a := data[..];
        PutOne(w.off, w.bs);
        ghost var b := data[..];
        forall j | 0 <= j < i ensures At(b, ws[j].off, ws[j].bs) {
          assert ws[j] == ws[..i][j];
          AtFrame(a, b, ws[j].off, ws[j].bs);
        }
        forall k | 0 <= k < |b| && !Touches(ws[..i + 1], k) ensures b[k] == old(data[..])[k] {
          assert ws[..i + 1][i] == w;
          assert !Touches(ws[..i], k) by {
            assert forall j :: 0 <= j < i ==> ws[..i + 1][j] == ws[..i][j];
          }
        }
      }
      assert ws[..|ws|] == ws;
    }

    method SetStat(pos: nat, st: Stat)
      requires Valid() && pos + LENGTH <= dataSize
      modifies data
      ensures StatAt(data[..], pos, st)
      ensures Keeps(old(data[..]), data[..], pos)
    {
      Put(StatStores(pos, st));
      StatStored(old(data[..]), data[..], pos, st);
    }

    method SetNode(pos: nat, t: Tree)
      requires Valid() && pos + NODE <= dataSize
      modifies data
      ensures NodeAt(data[..], pos, t)
      ensures Keeps(old(data[..]), data[..], pos)
    {
      SetStat(pos, t.st);
      ghost var a := data[..];
      PutOne(pos + XATTRS_COUNT, ToLE(|t.xattrs|, 4));
      ghost var b := data[..];
      if t.Dir? {
        PutOne(pos + LENGTH, ToLE(|t.entries|, 8));
      }
      StatFrame(a, data[..], pos, t.st);
      AtFrame(b, data[..], pos + XATTRS_COUNT, ToLE(|t.xattrs|, 4));
    }

    /** Attribute `i` of the table at `base`: its row, and its strings at the current position. */
    method AddXattr(base: nat, xs: seq<Xattr>, i: nat)
      requires Valid() && i < |xs|
      requires currentPos == XattrPos(base, xs, i) && base + XattrsSize(xs) <= dataSize
      requires XattrsAt(data[..], base, xs, i)
      modifies this`currentPos, data
      ensures Valid() && currentPos == XattrPos(base, xs, i + 1)
      ensures XattrsAt(data[..], base, xs, i + 1)
      ensures Keeps(old(data[..]), data[..], base)
    {
      XattrStoresAscend(base, xs, i, dataSize);
      Put(XattrStores(base, xs, i));
      XattrAdded(old(data[..]), data[..], base, xs, i);
      XattrPosMonotone(base, xs, i + 1, |xs|);
      currentPos := currentPos + XattrSize(xs[i]);
    }

    method AddXattrs(xs: seq<Xattr>)
      requires Valid() && currentPos + XattrsSize(xs) <= dataSize
      modifies this`currentPos, data
      ensures Valid() && currentPos == old(currentPos) + XattrsSize(xs)
      ensures XattrsAt(data[..], old(currentPos), xs, |xs|)
      ensures Keeps(old(data[..]), data[..], old(currentPos))
    {
      var base := currentPos;
      currentPos := currentPos + Rows(|xs|);
      XattrPosMonotone(base, xs, 0, |xs|);
      for i := 0 to |xs|
        invariant Valid() && currentPos == XattrPos(base, xs, i) && base + XattrsSize(xs) <= dataSize
        invariant XattrsAt(data[..], base, xs, i)
        invariant Keeps(old(data[..]), data[..], base)
      {
        AddXattr(base, xs, i);
      }
    }

    /** The part of a node that all kinds share: `struct Node` and the attributes. */
    method AddCommon(t: Tree)
      requires Valid() && currentPos + HeadSize(t) <= dataSize
      modifies this`currentPos, data
      ensures Valid() && currentPos == DataPos(old(currentPos), t)
      ensures NodeAt(data[..], old(currentPos), t)
      ensures XattrsAt(data[..], old(currentPos) + NODE, t.xattrs, |t.xattrs|)
      ensures Keeps(old(data[..]), data[..], old(currentPos))
    {
      var pos := currentPos;
      SetNode(pos, t);
      currentPos := currentPos + NODE;
      ghost var a := data[..];
      AddXattrs(t.xattrs);
      NodeFrame(a, data[..], pos, t);
    }

    method AddFile(t: Tree) returns (pos: nat)
      requires Valid() && t.File?
      modifies this, data
      ensures Valid() && (data == old(data) || fresh(data))
      ensures pos == old(currentPos) && currentPos == pos + HeadSize(t)
      ensures HeadAt(data[..], pos, t)
      ensures Keeps(old(data[..]), data[..], pos)
    {
      pos := currentPos;
      ghost var a := data[..];
      ReserveBuffer(HeadSize(t));
      ghost var b := data[..];
      AddCommon(t);
      KeepsThrough(a, b, data[..], pos);
    }

    method AddLink(t: Tree) returns (pos: nat)
      requires Valid() && t.Link?
      modifies this, data
      ensures Valid() && (data == old(data) || fresh(data))
      ensures pos == old(currentPos) && currentPos == pos + HeadSize(t)
      ensures HeadAt(data[..], pos, t)
      ensures Keeps(old(data[..]), data[..], pos)
    {
      pos := currentPos;
      ghost var a := data[..];
      ReserveBuffer(HeadSize(t));
      ghost var b := data[..];
      AddCommon(t);
      ghost var c := data[..];
      KeepsThrough(a, b, c, pos);
      AddTarget(pos, t);
      KeepsThrough(a, c, data[..], pos);
    }

    method AddTarget(pos: nat, t: Tree)
      requires Valid() && t.Link? && currentPos == DataPos(pos, t) && pos + HeadSize(t) <= dataSize
      requires NodeAt(data[..], pos, t) && XattrsAt(data[..], pos + NODE, t.xattrs, |t.xattrs|)
      modifies this`currentPos, data
      ensures Valid() && currentPos == pos + HeadSize(t)
      ensures HeadAt(data[..], pos, t)
      ensures Keeps(old(data[..]), data[..], pos)
    {
      PutOne(currentPos, CString(t.target));
      ghost var b := data[..];
      PutOne(pos + DATA_OFFSET, ToLE(currentPos, 8));
      LinkDone(old(data[..]), b, data[..], pos, t);
      currentPos := currentPos + |t.target| + 1;
    }

    /** The name of entry `i` at the current position, and its offset in row `i`. */
    method AddName(pos: nat, t: Tree, i: nat)
      requires Valid() && t.Dir? && i < |t.entries|
      requires currentPos == NamePos(pos, t, i) && pos + HeadSize(t) <= dataSize
      requires NamesAt(data[..], pos, t, i)
      modifies this`currentPos, data
      ensures Valid() && currentPos == NamePos(pos, t, i + 1)
      ensures NamesAt(data[..], pos, t, i + 1)
      ensures Keeps(old(data[..]), data[..], DataPos(pos, t))
    {
      NamePosMonotone(pos, t, 0, i);
      NamePosMonotone(pos, t, i, |t.entries|);
      var name := t.entries[i].name;
      PutOne(currentPos, CString(name));
      ghost var a := data[..];
      PutOne(DataPos(pos, t) + Rows(i), ToLE(currentPos, 8));
      NameDone(old(data[..]), a, data[..], pos, t, i);
      currentPos := currentPos + |name| + 1;
    }

    method AddNames(pos: nat, t: Tree)
      requires Valid() && t.Dir?
      requires currentPos == NamePos(pos, t, 0) && pos + HeadSize(t) <= dataSize
      modifies this`currentPos, data
      ensures Valid() && currentPos == pos + HeadSize(t)
      ensures NamesAt(data[..], pos, t, |t.entries|)
      ensures Keeps(old(data[..]), data[..], DataPos(pos, t))
    {
      for i := 0 to |t.entries|
        invariant Valid() && currentPos == NamePos(pos, t, i) && pos + HeadSize(t) <= dataSize
        invariant NamesAt(data[..], pos, t, i)
        invariant Keeps(old(data[..]), data[..], DataPos(pos, t))
      {
        AddName(pos, t, i);
      }
    }

    /** A directory without its children; the second result is where its table of rows lies. */
    method AddDir(t: Tree) returns (pos: nat, dirents: nat)
      requires Valid() && t.Dir?
      modifies this, data
      ensures Valid() && (data == old(data) || fresh(data))
      ensures pos == old(currentPos) && currentPos == pos + HeadSize(t) && dirents == DataPos(pos, t)
      ensures HeadAt(data[..], pos, t)
      ensures Keeps(old(data[..]), data[..], pos)
    {
      pos := currentPos;
      ghost var a := data[..];
      ReserveBuffer(HeadSize(t));
      ghost var b := data[..];
      AddCommon(t);
      ghost var c := data[..];
      KeepsThrough(a, b, c, pos);
      dirents := currentPos;
      AddRows(pos, t);
      KeepsThrough(a, c, data[..], pos);
    }

    method AddRows(pos: nat, t: Tree)
      requires Valid() && t.Dir? && currentPos == DataPos(pos, t) && pos + HeadSize(t) <= dataSize
      requires NodeAt(data[..], pos, t) && XattrsAt(data[..], pos + NODE, t.xattrs, |t.xattrs|)
      modifies this`currentPos, data
      ensures Valid() && currentPos == pos + HeadSize(t)
      ensures HeadAt(data[..], pos, t)
      ensures Keeps(old(data[..]), data[..], pos)
    {
      PutOne(pos + DATA_OFFSET, ToLE(currentPos, 8));
      ghost var b := data[..];
      currentPos := currentPos + Rows(|t.entries|);
      AddNames(pos, t);
      DirDone(old(data[..]), b, data[..], pos, t);
    }

    /** Row `i` of the table at `dirents` receives the position of its child. */
    method SetDirentNodeOffset(dirents: nat, i: nat, value: nat)
      requires Valid() && dirents + Rows(i + 1) <= dataSize
      modifies data
      ensures Patched(old(data[..]), data[..], dirents + Rows(i) + WORD, ToLE(value, 8))
    {
      PutOne(dirents + Rows(i) + WORD, ToLE(value, 8));
    }

    /** Child `i` of a directory, whose position is patched into its row once it is known. */
    method ScanKid(t: Tree, pos: nat, dirents: nat, i: nat)
      requires Valid() && t.Dir? && i < |t.entries|
      requires currentPos == KidPos(pos, t, i) && dirents == DataPos(pos, t)
      requires HasKids(data[..], pos, t, i)
      modifies this, data
      ensures Valid() && (data == old(data) || fresh(data))
      ensures currentPos == KidPos(pos, t, i + 1)
      ensures HasKids(data[..], pos, t, i + 1)
      ensures Keeps(old(data[..]), data[..], pos)
      decreases t, 0
    {
      var kid := ScanDfs(t.entries[i].tree);
      ghost var b := data[..];
      RowFits(pos, t, i);
      SetDirentNodeOffset(dirents, i, kid);
      KidDone(old(data[..]), b, data[..], pos, t, i, kid, dirents + Rows(i) + WORD);
    }

    /** Depth-first: a node, then its children. */
    method ScanDfs(t: Tree) returns (pos: nat)
      requires Valid()
      modifies this, data
      ensures Valid() && (data == old(data) || fresh(data))
      ensures pos == old(currentPos) && currentPos == pos + Size(t)
      ensures Wrote(data[..], pos, t)
      ensures Keeps(old(data[..]), data[..], pos)
      decreases t, 1
    {
      match t
      case Link(_, _, _) =>
        pos := AddLink(t);
        WroteContent(data[..], pos, t);
      case File(_, _, _) =>
        pos := AddFile(t);
        WroteContent(data[..], pos, t);
      case Dir(_, _, es) =>
        var dirents;
        pos, dirents := AddDir(t);
        HasKidsContent(data[..], pos, t, 0);
        for i := 0 to |es|
          invariant Valid() && (data == old(data) || fresh(data))
          invariant currentPos == KidPos(pos, t, i)
          invariant HasKids(data[..], pos, t, i)
          invariant Keeps(old(data[..]), data[..], pos)
        {
          ScanKid(t, pos, dirents, i);
        }
        KidPosMonotone(pos, t, 0, |es|);
        DirWritten(data[..], pos, t);
    }

    // -------------------------------------------------------------- file contents

    /** The image built so far. */
    ghost function Img(): Bytes
      requires Valid()
      reads this, data
    {
      data[..currentPos]
    }

    /** The builder of the flat disk works on buffers of its own. */
    ghost predicate Separate(builder: ChunkBuilder)
      reads this
    {
      (this as object) !in builder.Repr() && (data as object) !in builder.Repr()
    }

    method SetPlace(pos: nat, p: Place)
      requires Valid() && pos + NODE <= currentPos
      modifies data
      ensures PlaceStep(old(Img()), Img(), pos, p)
    {
      ghost var a := data[..];
      PutOne(pos + DATA_OFFSET, ToLE(p.off, 8));
      ghost var b := data[..];
      PutOne(pos + LENGTH, ToLE(p.len, 8));
      TwoPatches(a, b, data[..], currentPos, pos, p);
    }

    /** Append the content of a file to the disk and store its place; a file that cannot be opened has none. */
    method PlaceFile(builder: ChunkBuilder, pos: nat, content: Content) returns (err: ErrorCode)
      requires Valid() && builder.Valid() && Separate(builder) && pos + NODE <= currentPos
      requires builder.pos + |BytesOf(content)| < LIMIT
      modifies data, builder.Repr()
      ensures Valid() && builder.Valid()
      ensures err == OK ==> builder.pos == old(builder.pos) + |BytesOf(content)|
      ensures err == OK ==> PlaceStep(old(Img()), Img(), pos, PlaceFor(content, old(builder.pos)))
      ensures builder.fits ==> old(builder.fits) && err == OK
      ensures builder.Puts(old(builder.fits), old(builder.State()), old(builder.pos), BytesOf(content))
      ensures builder.fits ==>
        && builder.written == PutRun(old(builder.written), old(builder.pos), BytesOf(content))
        && builder.Ids() == Passed(old(builder.Ids()), old(builder.pos), builder.pos)
    {
      var off, len;
      SetPlace(pos, NOWHERE);
      ghost var b := Img();
      err, off, len := builder.AddFile(content);
      if err == OK {
        SetPlace(pos, Place(off, len));
        StepAgain(old(Img()), b, Img(), pos, NOWHERE, Place(off, len));
      } else {
        SetPlace(pos, NOWHERE);
        StepAgain(old(Img()), b, Img(), pos, NOWHERE, NOWHERE);
        if err == NOT_FOUND || err == ACCESS_DENIED {
          err := OK;
        }
      }
    }

    /** The elements that the rows of a directory add to the queue. */
    method ListKids(a: Pending, ghost fs: Tree, ghost rootPath: Bytes, ghost q: seq<nat>) returns (kids: seq<Pending>)
      requires Valid() && Holds(Img(), WORD, fs)
      requires ValidPath(fs, q) && Sub(fs, q).Dir? && a == Item(fs, rootPath, q)
      ensures KidItems(fs, rootPath, q, |Sub(fs, q).entries|, kids)
    {
      var img := data[..currentPos];
      HoldsSub(img, WORD, fs, q);
      NodeFields(img, a.pos, Sub(fs, q));
      var dirents := Word(img, a.pos + DATA_OFFSET);
      var length := Word(img, a.pos + LENGTH);
      kids := [];
      for i := 0 to length
        invariant KidItems(fs, rootPath, q, i, kids)
      {
        var row: nat := dirents + Rows(i);
        KidItemNext(img, fs, rootPath, q, i, row, kids);
        kids := kids + [PendingOf(img, a.path, row)];
      }
    }

    /** The disk holds the contents of the visited files behind the room for the image. */
    ghost predicate Filled(builder: ChunkBuilder, fs: Tree, visited: seq<seq<nat>>)
      reads builder, builder.store, builder.store.chunkStore
    {
      FilledWith(fs, visited, builder.pos, builder.fits, builder.written, builder.Ids())
    }

    /** The contents of the visited files were streamed. */
    ghost predicate Streamed(builder: ChunkBuilder, start: Start, fs: Tree, visited: seq<seq<nat>>)
      reads builder, builder.buff, builder.store, builder.store.chunkStore
    {
      Files(fs, visited) && builder.Progress(start, Contents(fs, visited))
    }

    /** A file is visited: the head of the queue. */
    method VisitFileNode(builder: ChunkBuilder, fs: Tree, rootPath: Bytes, queue: seq<Pending>,
                         ghost waiting: seq<seq<nat>>, ghost visited: seq<seq<nat>>,
                     ghost start: Start, ghost all: Bytes)
      returns (err: ErrorCode)
      requires Valid() && builder.Valid() && Separate(builder) && WORD + Size(fs) + FileBytes(fs) < LIMIT
      requires Walked(Img(), fs, rootPath, queue, waiting, visited) && Filled(builder, fs, visited)
      requires |queue| == |waiting| > 0 && FilePath(fs, waiting[0])
      requires OnOrder(fs, waiting, visited) && Streamed(builder, start, fs, visited) && IsAll(fs, all)
      modifies data, builder.Repr()
      ensures Valid() && builder.Valid()
      ensures err == OK ==>
        && Walked(Img(), fs, rootPath, queue[1..], waiting[1..], visited + [waiting[0]])
        && Filled(builder, fs, visited + [waiting[0]])
        && Streamed(builder, start, fs, visited + [waiting[0]])
      ensures builder.fits ==> old(builder.fits) && err == OK
      ensures err != OK ==> builder.Puts(start.fits, start.state, start.pos, all)
    {
      FileReady(Img(), fs, rootPath, queue, waiting, visited,
                builder.pos, builder.fits, builder.written, builder.Ids());
      ghost var before := builder.Here();
      err := PlaceFile(builder, queue[0].pos, OpenFile(fs, rootPath, queue[0].path));
      FileTurn(fs, all, waiting, visited);
      ghost var sofar, bs := Contents(fs, visited), BytesOf(Sub(fs, waiting[0]).content);
      if err != OK {
        RanStopped(builder.store.codec, before, builder.Here(), start, sofar, bs, all);
      } else {
        RanMore(builder.store.codec, before, builder.Here(), start, sofar, bs);
        FileDone(old(Img()), Img(), fs, rootPath, queue, waiting, visited, old(builder.pos), builder.pos,
                 builder.fits, old(builder.written), builder.written, old(builder.Ids()), builder.Ids());
      }
    }

    /** The state between two rounds of the placement loop. */
    ghost predicate Placing(builder: ChunkBuilder, fs: Tree, rootPath: Bytes, queue: seq<Pending>,
                            waiting: seq<seq<nat>>, visited: seq<seq<nat>>, start: Start)
      reads this, data, builder, builder.Repr(), builder.store
    {
      && Valid() && builder.Valid() && Separate(builder)
      && Walked(Img(), fs, rootPath, queue, waiting, visited)
      && Filled(builder, fs, visited)
      && OnOrder(fs, waiting, visited) && Streamed(builder, start, fs, visited)
      && |queue| == |waiting|
    }

    /** A directory is visited: its children go to the end of the queue. */
    method VisitDirNode(fs: Tree, rootPath: Bytes, queue: seq<Pending>,
                        ghost waiting: seq<seq<nat>>, ghost visited: seq<seq<nat>>)
      returns (next: seq<Pending>)
      requires Valid() && |queue| == |waiting| > 0 && Walked(Img(), fs, rootPath, queue, waiting, visited)
      requires forall i :: 0 <= i < |waiting| ==> ValidPath(fs, waiting[i])
      requires Sub(fs, waiting[0]).Dir?
      ensures Walked(Img(), fs, rootPath, next, Rest(fs, waiting), visited) && |next| == |Rest(fs, waiting)|
    {
      WalkedFirst(Img(), fs, rootPath, queue, waiting, visited);
      var kids := ListKids(queue[0], fs, rootPath, waiting[0]);
      WalkedDir(Img(), fs, rootPath, queue, waiting, visited, kids);
      next := queue[1..] + kids;
    }

    /** One round: the node at the head of the queue is placed, expanded or skipped. */
    method VisitNode(builder: ChunkBuilder, fs: Tree, rootPath: Bytes, queue: seq<Pending>,
                     ghost waiting: seq<seq<nat>>, ghost visited: seq<seq<nat>>,
                     ghost start: Start, ghost all: Bytes)
      returns (err: ErrorCode, next: seq<Pending>)
      requires WORD + Size(fs) + FileBytes(fs) < LIMIT && |queue| > 0
      requires Placing(builder, fs, rootPath, queue, waiting, visited, start) && IsAll(fs, all)
      modifies data, builder.Repr()
      ensures Valid() && builder.Valid() && Separate(builder)
      ensures err == OK ==>
        Placing(builder, fs, rootPath, next, Rest(fs, waiting), visited + Seen(fs, waiting), start)
      ensures builder.fits ==> old(builder.fits) && err == OK
      ensures err != OK ==> builder.Puts(start.fits, start.state, start.pos, all)
    {
      next, err := queue[1..], OK;
      HeadKind(Img(), fs, rootPath, queue, waiting, visited);
      OrderStep(fs, waiting, visited);
      assert Sub(fs, waiting[0]).File? || visited + Seen(fs, waiting) == visited;
      var mode := Half(data[..currentPos], queue[0].pos);
      if IsReg(mode) {
        err := VisitFileNode(builder, fs, rootPath, queue, waiting, visited, start, all);
      } else if IsDir(mode) {
        next := VisitDirNode(fs, rootPath, queue, waiting, visited);
      } else {
        WalkedLink(Img(), fs, rootPath, queue, waiting, visited);
      }
    }

    /** The placement loop: all files behind the image, breadth first. */
    method PlaceFiles(builder: ChunkBuilder, fs: Tree, rootPath: Bytes, ghost all: Bytes)
      returns (err: ErrorCode, ghost order: seq<seq<nat>>)
      requires WORD + Size(fs) + FileBytes(fs) < LIMIT
      requires Placing(builder, fs, rootPath, [Pending(WORD, rootPath)], [[]], [], builder.Here()) && IsAll(fs, all)
      modifies data, builder.Repr()
      ensures Valid() && builder.Valid() && |Img()| == old(|Img()|)
      ensures err == OK ==> Laid(Img(), fs, order) && Filled(builder, fs, order) && order == BfsOrder(fs)
      ensures builder.fits ==> old(builder.fits) && err == OK
      ensures builder.Puts(old(builder.fits), old(builder.State()), old(builder.pos), all)
    {
      var queue := [Pending(WORD, rootPath)];
      ghost var waiting: seq<seq<nat>> := [[]];
      ghost var start := builder.Here();
      order := [];
      while |queue| > 0
        invariant Placing(builder, fs, rootPath, queue, waiting, order, start)
        invariant builder.fits ==> old(builder.fits)
        decreases Waiting(Size, fs, waiting)
      {
        err, queue := VisitNode(builder, fs, rootPath, queue, waiting, order, start, all);
        if err != OK {
          return;
        }
        waiting, order := Rest(fs, waiting), order + Seen(fs, waiting);
      }
      WalkedEnd(Img(), fs, rootPath, waiting, order);
      LastTurn(fs, all, waiting, order);
      RanContent(builder.store.codec, builder.Here(), start, all);
      err := OK;
    }

    /** Leave room for the image at the start of an empty disk. */
    method LeaveRoom(builder: ChunkBuilder, fs: Tree, rootPath: Bytes) returns (err: ErrorCode, dataOf: nat)
      requires Valid() && builder.Valid() && Separate(builder) && Imaged(Img(), fs)
      requires WORD + Size(fs) < LIMIT
      requires builder.pos == 0 && builder.written == map[] && builder.Ids() == {}
      modifies builder.Repr()
      ensures Valid() && Img() == old(Img()) && builder.Valid() && dataOf == 0
      ensures builder.fits ==> old(builder.fits) && err == OK
      ensures builder.Follows(old(builder.fits), MoveTo(old(builder.State()), |Img()|))
      ensures err == OK ==> Placing(builder, fs, rootPath, [Pending(WORD, rootPath)], [[]], [], builder.Here())
      ensures err == OK ==> builder.pos == |Img()|
    {
      assert ChunkOf(0) == 0;
      err, dataOf := builder.Reserve(currentPos);
      WalkedStart(Img(), fs, rootPath);
      if err == OK {
        FilledStart(fs, builder.pos, builder.fits, builder.written, builder.Ids());
        OrderStart(fs);
        builder.Begun();
      }
    }

    /** The image goes to the start of the disk. */
    method StoreImage(builder: ChunkBuilder, fs: Tree, dataOf: nat, ghost order: seq<seq<nat>>) returns (err: ErrorCode)
      requires Valid() && builder.Valid() && Separate(builder) && WORD + Size(fs) < LIMIT
      requires Laid(Img(), fs, order) && Filled(builder, fs, order) && dataOf == 0
      modifies builder.Repr()
      ensures Valid() && Img() == old(Img()) && builder.Valid()
      ensures builder.fits ==> old(builder.fits)
      ensures builder.Puts(old(builder.fits), MoveTo(old(builder.State()), 0), 0, Img())
      ensures builder.fits ==> Complete(Img(), fs, order, builder.written, builder.Ids() + {builder.chunkNum})
    {
      assert ChunkOf(0) == 0;
      LaidSizes(Img(), fs, order);
      FilledPos(fs, order, builder.pos, builder.fits, builder.written, builder.Ids());
      err := builder.Write(dataOf, data[..currentPos]);
      if builder.fits {
        CompleteAfterImage(Img(), fs, order, old(builder.pos), old(builder.written), old(builder.Ids()),
                           builder.written, builder.Ids());
      }
    }

    /** The contents and the image are stored. */
    ghost predicate ImageStored(builder: ChunkBuilder, memory: Bytes, all: Bytes)
      requires Valid()
      reads this, data, builder, builder.buff, builder.store, builder.store.chunkStore
    {
      ImagedTo(builder.store.codec, builder.fits, builder.State(), memory, Img(), all)
    }

    /**
     Place all files and then the image itself, at the start. The error of the last write
     is dropped.
     */
    method CreateChunks(builder: ChunkBuilder, fs: Tree, rootPath: Bytes, ghost memory: Bytes, ghost all: Bytes)
      returns (err: ErrorCode, ghost order: seq<seq<nat>>)
      requires Valid() && builder.Valid() && Separate(builder) && Imaged(Img(), fs)
      requires WORD + Size(fs) + FileBytes(fs) < LIMIT && IsAll(fs, all)
      requires builder.pos == 0 && builder.written == map[] && builder.fits
      requires builder.State() == ChunkState(memory, 0, map[], [])
      modifies data, builder.Repr()
      ensures Valid() && builder.Valid() && |Img()| == old(|Img()|)
      ensures builder.fits ==> err == OK && order == BfsOrder(fs)
      ensures if err == OK
              then Laid(Img(), fs, BfsOrder(fs)) && ImageStored(builder, memory, all)
              else !FilledFits(builder.store.codec, memory, WORD + Size(fs), all)
      ensures builder.fits ==> Complete(Img(), fs, order, builder.written, builder.Ids() + {builder.chunkNum})
    {
      var dataOf;
      order := [];
      assert builder.Ids() == builder.State().chunks.Keys;
      ghost var n, codec := |Img()|, builder.store.codec;
      err, dataOf := LeaveRoom(builder, fs, rootPath);
      ghost var f, s := builder.fits, builder.State();
      if err != OK {
        RoomFailed(codec, memory, n, all, s);
        return;
      }
      err, order := PlaceFiles(builder, fs, rootPath, all);
      FilledAfter(codec, memory, n, all, f, s, builder.fits, builder.State());
      if err != OK {
        FilledFailed(codec, memory, n, all, builder.State());
        return;
      }
      f, s := builder.fits, builder.State();
      var _ := StoreImage(builder, fs, dataOf, order);
      ImageAfter(codec, memory, Img(), all, f, s, builder.fits, builder.State());
    }

    /** The image with no file placed yet, in a new buffer. */
    method WriteImage(fs: Tree)
      requires WellFormed(fs) && WORD + Size(fs) < LIMIT
      modifies this
      ensures Valid() && fresh(data) && Imaged(Img(), fs)
    {
      data := new byte[CHUNK_SIZE];
      dataSize := CHUNK_SIZE;
      currentPos := WORD;
      var _ := ScanDfs(fs);
      ghost var scanned := data[..];
      WroteContent(scanned, WORD, fs);
      PutOne(0, ToLE(currentPos, 8));
      ImageReady(scanned, data[..], currentPos, fs);
    }

    /**
     Pack a tree: the image, then the contents. Every chunk fits exactly if the buffers fit
     that the contents and the image give, which starts with whatever the memory held.
     */
    method Build(builder: ChunkBuilder, fs: Tree, rootPath: Bytes, ghost memory: Bytes)
      returns (err: ErrorCode, ghost img: Bytes, ghost order: seq<seq<nat>>)
      requires WellFormed(fs) && WORD + Size(fs) + FileBytes(fs) < LIMIT
      requires builder.Valid() && (this as object) !in builder.Repr()
      requires builder.pos == 0 && builder.written == map[] && builder.fits
      requires builder.State() == ChunkState(memory, 0, map[], [])
      modifies this, builder.Repr()
      ensures builder.Valid() && |img| == WORD + Size(fs)
      ensures builder.fits <==> PackFits(builder.store.codec, memory, img, fs)
      ensures ContentsFit(builder.store.codec, memory, |img|, fs) ==> Laid(img, fs, BfsOrder(fs))
      ensures builder.fits ==> err == OK && Packed(builder.Disk(), img, fs, order) && order == BfsOrder(fs)
    {
      ghost var all := TheContents(fs);
      WriteImage(fs);
      err, order := CreateChunks(builder, fs, rootPath, memory, all);
      img := Img();
      PackFitsContent(builder.store.codec, memory, img, fs, all);
      ContentsFitContent(builder.store.codec, memory, |img|, fs, all);
      if err == OK {
        err := Finish(builder, memory, img, fs, order, all);
      } else if PackFits(builder.store.codec, memory, img, fs) {
        FilledFirst(builder.store.codec, memory, img, all);
      }
    }

    /** The last chunk goes to the store. */
    method Finish(builder: ChunkBuilder, ghost memory: Bytes, ghost img: Bytes, ghost fs: Tree,
                  ghost order: seq<seq<nat>>, ghost all: Bytes)
      returns (err: ErrorCode)
      requires Valid() && builder.Valid() && img == Img() && ImageStored(builder, memory, all)
      requires builder.fits ==> Complete(img, fs, order, builder.written, builder.Ids() + {builder.chunkNum})
      modifies builder.Repr()
      ensures builder.Valid() && err == OK && (builder.fits ==> old(builder.fits))
      ensures builder.fits <==> ImageFits(builder.store.codec, memory, img, all)
      ensures builder.fits ==> Packed(builder.Disk(), img, fs, order)
    {
      ghost var f, s := builder.fits, builder.State();
      err := builder.Build();
      LastAfter(builder.store.codec, memory, img, all, f, s, builder.fits, builder.State());
      if builder.fits {
        PackedDisk(builder.Disk(), img, fs, order, builder.written);
      }
    }
  }

  // ---------------------------------------------------------------- the steps of the writer on images

  lemma XattrAdded(a: Bytes, b: Bytes, base: nat, xs: seq<Xattr>, i: nat)
    requires i < |xs| && base + XattrsSize(xs) <= |a| && XattrsAt(a, base, xs, i)
    requires Applied(a, b, XattrStores(base, xs, i))
    ensures XattrsAt(b, base, xs, i + 1)
    ensures Keeps(a, b, base)
  {
    XattrStored(a, b, base, xs, i);
    XattrsKept(a, b, base, xs, i);
  }

  lemma LinkDone(a: Bytes, b: Bytes, c: Bytes, pos: nat, t: Tree)
    requires t.Link? && pos + HeadSize(t) <= |a|
    requires NodeAt(a, pos, t) && XattrsAt(a, pos + NODE, t.xattrs, |t.xattrs|)
    requires Patched(a, b, DataPos(pos, t), CString(t.target))
    requires Patched(b, c, pos + DATA_OFFSET, ToLE(DataPos(pos, t), 8))
    ensures HeadAt(c, pos, t)
  {
    AtPatched(b, c, pos + DATA_OFFSET, ToLE(DataPos(pos, t), 8), DataPos(pos, t), CString(t.target));
    NodeFrame(a, c, pos, t);
    XattrPosMonotone(pos + NODE, t.xattrs, 0, |t.xattrs|);
    XattrsKept(a, c, pos + NODE, t.xattrs, |t.xattrs|);
  }

  lemma NameDone(a: Bytes, b: Bytes, c: Bytes, pos: nat, t: Tree, i: nat)
    requires t.Dir? && i < |t.entries| && pos + HeadSize(t) <= |a|
    requires NamesAt(a, pos, t, i)
    requires Patched(a, b, NamePos(pos, t, i), CString(t.entries[i].name))
    requires Patched(b, c, DataPos(pos, t) + Rows(i), ToLE(NamePos(pos, t, i), 8))
    ensures NamesAt(c, pos, t, i + 1)
    ensures Keeps(a, c, DataPos(pos, t))
  {
    NamePosMonotone(pos, t, 0, i);
    NamePosMonotone(pos, t, i, |t.entries|);
    var row := DataPos(pos, t) + Rows(i);
    AtPatched(b, c, row, ToLE(NamePos(pos, t, i), 8), NamePos(pos, t, i), CString(t.entries[i].name));
    NamesKept(a, c, pos, t, i);
  }

  lemma DirDone(a: Bytes, b: Bytes, c: Bytes, pos: nat, t: Tree)
    requires t.Dir? && pos + HeadSize(t) <= |a|
    requires NodeAt(a, pos, t) && XattrsAt(a, pos + NODE, t.xattrs, |t.xattrs|)
    requires Patched(a, b, pos + DATA_OFFSET, ToLE(DataPos(pos, t), 8))
    requires |b| == |c| && Keeps(b, c, DataPos(pos, t)) && NamesAt(c, pos, t, |t.entries|)
    ensures HeadAt(c, pos, t)
    ensures Keeps(a, c, pos)
  {
    AtFrame(b, c, pos + DATA_OFFSET, ToLE(DataPos(pos, t), 8));
    NodeFrame(a, c, pos, t);
    XattrPosMonotone(pos + NODE, t.xattrs, 0, |t.xattrs|);
    XattrsKept(a, c, pos + NODE, t.xattrs, |t.xattrs|);
  }

  /** The image `c` comes from `a` by writing child `i`, as in `b`, and then its position. */
  ghost predicate KidStep(a: Bytes, b: Bytes, c: Bytes, pos: nat, t: Tree, i: nat)
    requires t.Dir? && i < |t.entries|
  {
    && Keeps(a, b, KidPos(pos, t, i))
    && Encodes(b, KidPos(pos, t, i), t.entries[i].tree)
    && Patched(b, c, LinkPos(pos, t, i), ToLE(KidPos(pos, t, i), 8))
  }

  lemma RowFits(pos: nat, t: Tree, i: nat)
    requires t.Dir? && i < |t.entries|
    ensures DataPos(pos, t) + Rows(i + 1) <= KidPos(pos, t, i) <= KidPos(pos, t, i + 1)
    ensures LinkPos(pos, t, i) == DataPos(pos, t) + Rows(i) + WORD
    ensures KidPos(pos, t, i + 1) == KidPos(pos, t, i) + Size(t.entries[i].tree)
  {
    RowsInHead(pos, t, i);
    KidPosMonotone(pos, t, i, i + 1);
  }

  lemma RowIsLoose(pos: nat, t: Tree, i: nat, k: nat)
    requires t.Dir? && i < |t.entries|
    requires LinkPos(pos, t, i) <= k < LinkPos(pos, t, i) + WORD
    ensures Loose(pos, t, k)
  {
    var r := k - LinkPos(pos, t, i) + 8;
    assert k - DataPos(pos, t) == 16 * i + r && 8 <= r < 16;
  }

  lemma KidStepHead(a: Bytes, b: Bytes, c: Bytes, pos: nat, t: Tree, i: nat)
    requires t.Dir? && i < |t.entries| && HeadAt(a, pos, t) && KidStep(a, b, c, pos, t, i)
    ensures HeadAt(c, pos, t)
    ensures Keeps(a, c, pos)
  {
    RowsInHead(pos, t, i);
    forall k | LinkPos(pos, t, i) <= k < LinkPos(pos, t, i) + WORD ensures Loose(pos, t, k) {
      RowIsLoose(pos, t, i, k);
    }
    var row := LinkPos(pos, t, i);
    assert forall k :: 0 <= k < pos + HeadSize(t) && !(row <= k < row + WORD) ==> a[k] == c[k];
    HeadFrame(a, c, pos, t);
  }

  lemma KidStepOther(a: Bytes, b: Bytes, c: Bytes, pos: nat, t: Tree, i: nat, j: nat)
    requires t.Dir? && j < i < |t.entries| && KidAt(a, pos, t, j) && KidStep(a, b, c, pos, t, i)
    ensures KidAt(c, pos, t, j)
  {
    RowsInHead(pos, t, i);
    RowsInHead(pos, t, j);
    AtFrame(a, c, LinkPos(pos, t, j), ToLE(KidPos(pos, t, j), 8));
    KidPosMonotone(pos, t, j, i);
    KidPosMonotone(pos, t, 0, j);
    EncodesFrame(a, c, KidPos(pos, t, j), t.entries[j].tree);
  }

  /** Opens `HasKids` and `Wrote`. */
  ghost predicate OpenKids(k: int) {
    true
  }

  /** A directory whose first `n` children are written; a closed definition. */
  ghost predicate HasKids(img: Bytes, pos: nat, t: Tree, n: nat) {
    forall k: int {:trigger OpenKids(k)} :: OpenKids(k) ==>
      t.Dir? && n <= |t.entries| && HeadAt(img, pos, t) && KidsAt(img, pos, t, n)
  }

  /** A tree that is written; a closed definition. */
  ghost predicate Wrote(img: Bytes, pos: nat, t: Tree) {
    forall k: int {:trigger OpenKids(k)} :: OpenKids(k) ==> Encodes(img, pos, t)
  }

  lemma WroteContent(img: Bytes, pos: nat, t: Tree)
    ensures Wrote(img, pos, t) <==> Encodes(img, pos, t)
  {
    assert OpenKids(0);
  }

  lemma DirWritten(img: Bytes, pos: nat, t: Tree)
    requires t.Dir? && HasKids(img, pos, t, |t.entries|) && pos + Size(t) <= |img|
    ensures Wrote(img, pos, t)
  {
    HasKidsContent(img, pos, t, |t.entries|);
    DirEncoded(img, pos, t);
    WroteContent(img, pos, t);
  }

  lemma HasKidsContent(img: Bytes, pos: nat, t: Tree, n: nat)
    requires t.Dir? && n <= |t.entries|
    ensures HasKids(img, pos, t, n) <==> HeadAt(img, pos, t) && KidsAt(img, pos, t, n)
  {
    assert OpenKids(0);
  }

  lemma KidDone(a: Bytes, b: Bytes, c: Bytes, pos: nat, t: Tree, i: nat, kid: nat, link: nat)
    requires t.Dir? && i < |t.entries| && kid == KidPos(pos, t, i) && link == DataPos(pos, t) + Rows(i) + WORD
    requires HasKids(a, pos, t, i) && Keeps(a, b, kid) && Wrote(b, kid, t.entries[i].tree)
    requires Patched(b, c, link, ToLE(kid, 8))
    ensures HasKids(c, pos, t, i + 1)
    ensures Keeps(a, c, pos)
  {
    RowFits(pos, t, i);
    WroteContent(b, kid, t.entries[i].tree);
    KidPatched(a, b, c, pos, t, i);
  }

  /** Writing child `i` and then its position keeps the head and the earlier children. */
  lemma KidPatched(a: Bytes, b: Bytes, c: Bytes, pos: nat, t: Tree, i: nat)
    requires t.Dir? && i < |t.entries|
    requires HasKids(a, pos, t, i) && KidStep(a, b, c, pos, t, i)
    ensures HasKids(c, pos, t, i + 1)
    ensures Keeps(a, c, pos)
  {
    HasKidsContent(a, pos, t, i);
    KidStepHead(a, b, c, pos, t, i);
    KidStepKids(a, b, c, pos, t, i);
    HasKidsContent(c, pos, t, i + 1);
  }

  lemma KidStepKids(a: Bytes, b: Bytes, c: Bytes, pos: nat, t: Tree, i: nat)
    requires t.Dir? && i < |t.entries| && KidsAt(a, pos, t, i) && KidStep(a, b, c, pos, t, i)
    ensures KidsAt(c, pos, t, i + 1)
  {
    forall j | 0 <= j < i + 1 ensures KidAt(c, pos, t, j) {
      if j < i {
        KidStepOther(a, b, c, pos, t, i, j);
      } else {
        KidStepNew(a, b, c, pos, t, i);
      }
    }
  }

  lemma KidStepNew(a: Bytes, b: Bytes, c: Bytes, pos: nat, t: Tree, i: nat)
    requires t.Dir? && i < |t.entries| && KidStep(a, b, c, pos, t, i)
    ensures KidAt(c, pos, t, i)
  {
    RowsInHead(pos, t, i);
    EncodesFrame(b, c, KidPos(pos, t, i), t.entries[i].tree);
  }
}
