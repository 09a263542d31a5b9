/** The flat disk: a one-chunk write-back buffer over the compressed store (data/chunk_builder.cc). */
module FlatDisk {
  import opened Prelude
  import opened Lru
  import opened Stores
  import opened SourceTree

  // The store keeps at least this many chunks (its default size), so that a build evicts none.
  const MAX_CHUNKS := 0x8000_0000

  // Offsets of the flat disk below this limit have such a chunk: MAX_CHUNKS * CHUNK_SIZE.
  const LIMIT := 0x20_0000_0000_0000

  // ---------------------------------------------------------------- contents of the disk

  /** Opens `ChunkBuilder.Sound`. */
  ghost predicate OpenDisk(k: int) {
    true
  }

  /** A flat disk after the bytes `bs` are written at `off`. */
  ghost function PutRun(disk: map<nat, byte>, off: nat, bs: Bytes): map<nat, byte>
    decreases |bs|
  {
    if |bs| == 0 then disk else PutRun(disk[off := bs[0]], off + 1, bs[1..])
  }

  lemma {:induction false} PutRunConcat(disk: map<nat, byte>, off: nat, x: Bytes, y: Bytes)
    ensures PutRun(disk, off, x + y) == PutRun(PutRun(disk, off, x), off + |x|, y)
    decreases |x|
  {
    if |x| == 0 {
      assert x + y == y;
    } else {
      assert (x + y)[0] == x[0] && (x + y)[1..] == x[1..] + y;
      PutRunConcat(disk[off := x[0]], off + 1, x[1..], y);
    }
  }

  /** The run holds its bytes and every other offset keeps what it had. */
  lemma {:induction false} PutRunBytes(disk: map<nat, byte>, off: nat, bs: Bytes)
    ensures var after := PutRun(disk, off, bs);
      && (forall o :: o in after <==> o in disk || off <= o < off + |bs|)
      && (forall o :: off <= o < off + |bs| ==> after[o] == bs[o - off])
      && (forall o :: o in disk && !(off <= o < off + |bs|) ==> after[o] == disk[o])
    decreases |bs|
  {
    var after := PutRun(disk, off, bs);
    if |bs| > 0 {
      var first := disk[off := bs[0]];
      PutRunBytes(first, off + 1, bs[1..]);
      assert after == PutRun(first, off + 1, bs[1..]);
      forall o: nat ensures o in after <==> o in disk || off <= o < off + |bs| {
        assert o in after <==> o in first || off + 1 <= o < off + 1 + |bs[1..]|;
      }
      forall o | off <= o < off + |bs| ensures o in after && after[o] == bs[o - off] {
        if o > off {
          assert bs[1..][o - (off + 1)] == bs[o - off];
        } else {
          assert o in first && first[o] == bs[0] == after[o];
        }
      }
    } else {
      assert after == disk;
    }
  }

  /** A set of chunk ids with those from `lo` up to, but without, `hi`. */
  ghost function AddRange(ids: set<nat>, lo: nat, hi: nat): set<nat> {
    if lo >= hi then ids else AddRange(ids, lo, hi - 1) + {hi - 1}
  }

  lemma {:induction false} AddRangeJoin(ids: set<nat>, a: nat, b: nat, c: nat)
    requires a <= b <= c
    ensures AddRange(AddRange(ids, a, b), b, c) == AddRange(ids, a, c)
    decreases c
  {
    if b < c {
      AddRangeJoin(ids, a, b, c - 1);
    }
  }

  lemma {:induction false} AddRangeMembers(ids: set<nat>, lo: nat, hi: nat)
    ensures forall i :: i in AddRange(ids, lo, hi) <==> i in ids || lo <= i < hi
  {
    if lo < hi {
      AddRangeMembers(ids, lo, hi - 1);
    }
  }

  lemma PassedMore(ids: set<nat>, from: nat, mid: nat, to: nat)
    requires from <= mid <= to
    ensures Passed(Passed(ids, from, mid), mid, to) == Passed(ids, from, to)
  {
    ChunkMonotone(from, mid);
    ChunkMonotone(mid, to);
    AddRangeJoin(ids, ChunkOf(from), ChunkOf(mid), ChunkOf(to));
  }

  lemma PassedStep(ids: set<nat>, from: nat, n: nat)
    requires Within(from) + n <= CHUNK_SIZE
    ensures ChunkOf(from + n) == ChunkOf(from) || ChunkOf(from + n) == ChunkOf(from) + 1
    ensures Passed(ids, from, from + n) == if ChunkOf(from + n) == ChunkOf(from) then ids else ids + {ChunkOf(from)}
  {
    var c := ChunkOf(from);
    assert AddRange(ids, c, c) == ids;
    assert AddRange(ids, c, c + 1) == ids + {c};
  }

  /** The stored chunks after the position went from one offset to a later one. */
  ghost function Passed(ids: set<nat>, from: nat, to: nat): set<nat> {
    AddRange(ids, ChunkOf(from), ChunkOf(to))
  }

  /** The chunks that a store holds, decompressed. */
  ghost function Chunks(disk: map<nat, Bytes>, codec: Codec): map<nat, Bytes> {
    map id | id in disk :: match codec.decompress(disk[id]) { case None => [] case Some(b) => b }
  }

  /** Storing a chunk whose compressed form fits. */
  lemma ChunksStored(disk: map<nat, Bytes>, codec: Codec, id: nat, b: Bytes)
    requires codec.Faithful() && |b| == CHUNK_SIZE && codec.compress(b).Some?
    ensures Chunks(disk[id := codec.Pack(b)], codec) == Chunks(disk, codec)[id := b]
  {
    PackedReadable(codec, b);
  }

  /** A byte of the flat disk, in its chunk. */
  ghost predicate ByteOn(chunks: map<nat, Bytes>, o: nat, b: byte) {
    ChunkOf(o) in chunks && |chunks[ChunkOf(o)]| == CHUNK_SIZE && chunks[ChunkOf(o)][Within(o)] == b
  }

  /** A run of bytes of the flat disk. */
  ghost predicate OnDisk(chunks: map<nat, Bytes>, off: nat, bs: Bytes) {
    forall i :: 0 <= i < |bs| ==> ByteOn(chunks, off + i, bs[i])
  }

  lemma OnDiskPart(chunks: map<nat, Bytes>, off: nat, bs: Bytes, i: nat, n: nat)
    requires OnDisk(chunks, off, bs) && i + n <= |bs|
    ensures OnDisk(chunks, off + i, bs[i..i + n])
  {
    var part := bs[i..i + n];
    forall j | 0 <= j < |part| ensures ByteOn(chunks, off + i + j, part[j]) {
      assert part[j] == bs[i + j];
      assert ByteOn(chunks, off + (i + j), bs[i + j]);
    }
  }

  /** A run goes on with bytes of one chunk. */
  lemma OnDiskMore(chunks: map<nat, Bytes>, off: nat, bs: Bytes, id: nat, of: nat, n: nat)
    requires OnDisk(chunks, off, bs) && off + |bs| == id * 4194304 + of
    requires id in chunks && |chunks[id]| == CHUNK_SIZE && of + n <= CHUNK_SIZE
    ensures OnDisk(chunks, off, bs + chunks[id][of..of + n])
  {
    var all := bs + chunks[id][of..of + n];
    forall i | 0 <= i < |all| ensures ByteOn(chunks, off + i, all[i]) {
      if i < |bs| {
        assert ByteOn(chunks, off + i, bs[i]);
      } else {
        SplitOffset(id, of + (i - |bs|));
        assert off + i == id * 4194304 + (of + (i - |bs|));
      }
    }
  }

  /** A disk has only one run of a given length at an offset. */
  lemma OnDiskUnique(chunks: map<nat, Bytes>, off: nat, x: Bytes, y: Bytes)
    requires OnDisk(chunks, off, x) && OnDisk(chunks, off, y) && |x| == |y|
    ensures x == y
  {
    forall i | 0 <= i < |x| ensures x[i] == y[i] {
      assert ByteOn(chunks, off + i, x[i]) && ByteOn(chunks, off + i, y[i]);
    }
  }

  /** Where the flat disk holds a byte: in the buffer for the current chunk, else in the stored chunk. */
  ghost predicate HoldsByte(chunks: map<nat, Bytes>, buff: Bytes, cur: nat, o: nat, b: byte) {
    if ChunkOf(o) == cur then |buff| == CHUNK_SIZE && buff[Within(o)] == b
    else ChunkOf(o) in chunks && |chunks[ChunkOf(o)]| == CHUNK_SIZE && chunks[ChunkOf(o)][Within(o)] == b
  }

  /** Opens `Intact`. */
  ghost predicate OpenBytes(k: int) {
    true
  }

  /** Stored chunks are whole, and every byte ever written has its latest value; a closed definition. */
  ghost predicate Intact(chunks: map<nat, Bytes>, buff: Bytes, cur: nat, written: map<nat, byte>) {
    forall k: int {:trigger OpenBytes(k)} :: OpenBytes(k) ==>
      && (forall id :: id in chunks ==> |chunks[id]| == CHUNK_SIZE)
      && (forall o :: o in written ==> HoldsByte(chunks, buff, cur, o, written[o]))
  }

  lemma WholeChunk(chunks: map<nat, Bytes>, buff: Bytes, cur: nat, written: map<nat, byte>, id: nat)
    requires Intact(chunks, buff, cur, written) && id in chunks
    ensures |chunks[id]| == CHUNK_SIZE
  {
    assert OpenBytes(0);
  }

  lemma FlushKeeps(chunks: map<nat, Bytes>, buff: Bytes, cur: nat, written: map<nat, byte>)
    requires Intact(chunks, buff, cur, written) && |buff| == CHUNK_SIZE
    ensures Intact(chunks[cur := buff], buff, cur, written)
  {
    assert OpenBytes(0);
    forall o | o in written ensures HoldsByte(chunks[cur := buff], buff, cur, o, written[o]) {
      assert HoldsByte(chunks, buff, cur, o, written[o]);
    }
  }

  /**
   Storing the buffer and going on with another chunk keeps the disk, whatever the buffer then
   holds if that chunk is new.
   */
  lemma SwitchChunk(chunks: map<nat, Bytes>, buff: Bytes, cur: nat, written: map<nat, byte>, next: nat, loaded: Bytes)
    requires Intact(chunks, buff, cur, written) && |buff| == CHUNK_SIZE
    requires next != cur && |loaded| == CHUNK_SIZE
    requires next in chunks ==> loaded == chunks[next]
    ensures Intact(chunks[cur := buff], loaded, next, written)
  {
    assert OpenBytes(0);
    forall o | o in written ensures HoldsByte(chunks[cur := buff], loaded, next, o, written[o]) {
      assert HoldsByte(chunks, buff, cur, o, written[o]);
    }
  }

  /** Copying bytes into the buffer at offsets of the current chunk. */
  lemma FillBuffer(chunks: map<nat, Bytes>, buff: Bytes, cur: nat, written: map<nat, byte>, off: nat, bs: Bytes,
                   after: Bytes)
    requires Intact(chunks, buff, cur, written) && |buff| == |after| == CHUNK_SIZE
    requires ChunkOf(off) == cur && Within(off) + |bs| <= CHUNK_SIZE
    requires forall i :: 0 <= i < |bs| ==> after[Within(off) + i] == bs[i]
    requires forall i :: 0 <= i < CHUNK_SIZE && !(Within(off) <= i < Within(off) + |bs|) ==> after[i] == buff[i]
    ensures Intact(chunks, after, cur, PutRun(written, off, bs))
  {
    assert OpenBytes(0);
    var all := PutRun(written, off, bs);
    PutRunBytes(written, off, bs);
    forall o | o in all ensures HoldsByte(chunks, after, cur, o, all[o]) {
      if off <= o < off + |bs| {
        FilledByte(chunks, after, cur, off, bs, o - off);
      } else {
        KeptByte(chunks, buff, after, cur, off, |bs|, o, written[o]);
      }
    }
  }

  /** A byte of the run that is copied into the buffer. */
  lemma FilledByte(chunks: map<nat, Bytes>, after: Bytes, cur: nat, off: nat, bs: Bytes, i: nat)
    requires |after| == CHUNK_SIZE && ChunkOf(off) == cur && Within(off) + |bs| <= CHUNK_SIZE && i < |bs|
    requires after[Within(off) + i] == bs[i]
    ensures HoldsByte(chunks, after, cur, off + i, bs[i])
  {
    SplitOffset(cur, Within(off) + i);
  }

  /** A byte outside the run that is copied into the buffer. */
  lemma KeptByte(chunks: map<nat, Bytes>, buff: Bytes, after: Bytes, cur: nat, off: nat, n: nat, o: nat, b: byte)
    requires HoldsByte(chunks, buff, cur, o, b) && |buff| == |after| == CHUNK_SIZE
    requires ChunkOf(off) == cur && Within(off) + n <= CHUNK_SIZE && !(off <= o < off + n)
    requires forall i :: 0 <= i < CHUNK_SIZE && !(Within(off) <= i < Within(off) + n) ==> after[i] == buff[i]
    ensures HoldsByte(chunks, after, cur, o, b)
  {
    if ChunkOf(o) == cur {
      assert Within(o) - Within(off) == o - off;
    }
  }

  // ---------------------------------------------------------------- the builder, chunk by chunk

  /**
   What a builder does when every chunk can be read back: the buffer, the chunk it is for, the
   stored chunks, and all buffers that were stored so far.
   */
  datatype ChunkState = ChunkState(buff: Bytes, cur: nat, chunks: map<nat, Bytes>, flushed: seq<Bytes>)

  /** The buffer is stored. */
  ghost function FlushOf(d: ChunkState): ChunkState {
    d.(chunks := d.chunks[d.cur := d.buff], flushed := d.flushed + [d.buff])
  }

  /** Go on with another chunk: the stored one, or the stale bytes of the buffer. */
  ghost function SwitchTo(d: ChunkState, next: nat): ChunkState {
    var f := FlushOf(d);
    f.(cur := next, buff := if next in f.chunks then f.chunks[next] else f.buff)
  }

  ghost function MoveTo(d: ChunkState, off: nat): ChunkState {
    if ChunkOf(off) == d.cur then d else SwitchTo(d, ChunkOf(off))
  }

  ghost function PutByte(d: ChunkState, off: nat, b: byte): ChunkState {
    MoveTo(d.(buff := if Within(off) < |d.buff| then d.buff[Within(off) := b] else d.buff), off + 1)
  }

  /** Bytes are written one after the other. */
  ghost function PutAll(d: ChunkState, off: nat, bs: Bytes): ChunkState
    decreases |bs|
  {
    if |bs| == 0 then d else PutAll(PutByte(d, off, bs[0]), off + 1, bs[1..])
  }

  lemma {:induction false} PutAllConcat(d: ChunkState, off: nat, x: Bytes, y: Bytes)
    ensures PutAll(d, off, x + y) == PutAll(PutAll(d, off, x), off + |x|, y)
    decreases |x|
  {
    if |x| == 0 {
      assert x + y == y;
    } else {
      var z := x + y;
      assert z[0] == x[0] && z[1..] == x[1..] + y;
      var first := PutByte(d, off, x[0]);
      PutAllConcat(first, off + 1, x[1..], y);
      assert PutAll(d, off, z) == PutAll(first, off + 1, z[1..]);
    }
  }

  /** Buffers that were stored are not forgotten. */
  lemma {:induction false} PutAllExtends(d: ChunkState, off: nat, bs: Bytes)
    ensures d.flushed <= PutAll(d, off, bs).flushed
    decreases |bs|
  {
    if |bs| > 0 {
      PutAllExtends(PutByte(d, off, bs[0]), off + 1, bs[1..]);
    }
  }

  lemma PutAllPrefix(d: ChunkState, off: nat, a: Bytes, b: Bytes)
    requires a <= b
    ensures PutAll(d, off, a).flushed <= PutAll(d, off, b).flushed
  {
    assert b == a + b[|a|..];
    PutAllConcat(d, off, a, b[|a|..]);
    PutAllExtends(PutAll(d, off, a), off + |a|, b[|a|..]);
  }

  /** The buffer after bytes were copied into it. */
  ghost function CopyTo(buff: Bytes, w: nat, bs: Bytes): Bytes
    requires w + |bs| <= |buff|
  {
    buff[..w] + bs + buff[w + |bs|..]
  }

  lemma CopyFirst(buff: Bytes, w: nat, bs: Bytes)
    requires 0 < |bs| && w + |bs| <= |buff|
    ensures CopyTo(buff, w, bs) == CopyTo(buff[w := bs[0]], w + 1, bs[1..])
  {
  }

  lemma PutByteStays(d: ChunkState, off: nat, b: byte)
    requires |d.buff| == CHUNK_SIZE && ChunkOf(off) == d.cur && Within(off) + 1 < CHUNK_SIZE
    ensures PutByte(d, off, b) == d.(buff := d.buff[Within(off) := b])
    ensures ChunkOf(off + 1) == d.cur && Within(off + 1) == Within(off) + 1
  {
    SplitOffset(d.cur, Within(off) + 1);
  }

  lemma PutNone(d: ChunkState, off: nat, bs: Bytes)
    requires |d.buff| == CHUNK_SIZE && ChunkOf(off) == d.cur && |bs| == 0
    ensures PutAll(d, off, bs) == MoveTo(d.(buff := CopyTo(d.buff, Within(off), bs)), off + |bs|)
  {
    assert CopyTo(d.buff, Within(off), bs) == d.buff;
  }

  lemma PutOne(d: ChunkState, off: nat, bs: Bytes)
    requires |d.buff| == CHUNK_SIZE && |bs| == 1
    ensures PutAll(d, off, bs) == MoveTo(d.(buff := CopyTo(d.buff, Within(off), bs)), off + 1)
  {
    assert bs[1..] == [];
    assert PutAll(d, off, bs) == PutByte(d, off, bs[0]);
    assert CopyTo(d.buff, Within(off), bs) == d.buff[Within(off) := bs[0]];
  }

  /** The first of several bytes that stay in the current chunk. */
  lemma PutFirst(d: ChunkState, off: nat, bs: Bytes)
    requires |d.buff| == CHUNK_SIZE && ChunkOf(off) == d.cur && Within(off) + |bs| <= CHUNK_SIZE && |bs| > 1
    ensures var next := d.(buff := d.buff[Within(off) := bs[0]]);
      && PutAll(d, off, bs) == PutAll(next, off + 1, bs[1..])
      && ChunkOf(off + 1) == d.cur && Within(off + 1) == Within(off) + 1
      && d.(buff := CopyTo(d.buff, Within(off), bs)) ==
         next.(buff := CopyTo(next.buff, Within(off) + 1, bs[1..]))
  {
    PutByteStays(d, off, bs[0]);
    CopyFirst(d.buff, Within(off), bs);
  }

  /** Bytes that stay in the current chunk are copied at once. */
  lemma {:induction false} PutInChunk(d: ChunkState, off: nat, bs: Bytes)
    requires |d.buff| == CHUNK_SIZE && ChunkOf(off) == d.cur && Within(off) + |bs| <= CHUNK_SIZE
    ensures PutAll(d, off, bs) == MoveTo(d.(buff := CopyTo(d.buff, Within(off), bs)), off + |bs|)
    decreases |bs|
  {
    if |bs| == 0 {
      PutNone(d, off, bs);
    } else if |bs| == 1 {
      PutOne(d, off, bs);
    } else {
      PutFirst(d, off, bs);
      PutInChunk(d.(buff := d.buff[Within(off) := bs[0]]), off + 1, bs[1..]);
    }
  }

  /** Opens `AllFit`. */
  ghost predicate OpenFit(k: int) {
    true
  }

  /** Whether buffers fit when compressed; a closed definition. */
  ghost predicate AllFit(codec: Codec, bs: seq<Bytes>) {
    forall k: int {:trigger OpenFit(k)} :: OpenFit(k) ==> forall i :: 0 <= i < |bs| ==> codec.compress(bs[i]).Some?
  }

  lemma FitContent(codec: Codec, bs: seq<Bytes>)
    ensures AllFit(codec, bs) <==> forall i :: 0 <= i < |bs| ==> codec.compress(bs[i]).Some?
  {
    assert OpenFit(0);
  }

  lemma OneMoreFits(codec: Codec, bs: seq<Bytes>, b: Bytes)
    ensures AllFit(codec, bs + [b]) <==> AllFit(codec, bs) && codec.compress(b).Some?
  {
    var more := bs + [b];
    FitContent(codec, bs);
    FitContent(codec, more);
    if AllFit(codec, more) {
      PrefixFits(codec, bs, more);
      assert codec.compress(more[|bs|]).Some?;
    }
  }

  lemma PrefixFits(codec: Codec, bs: seq<Bytes>, more: seq<Bytes>)
    requires bs <= more && AllFit(codec, more)
    ensures AllFit(codec, bs)
  {
    FitContent(codec, bs);
    FitContent(codec, more);
    forall i | 0 <= i < |bs| ensures codec.compress(bs[i]).Some? {
      assert bs[i] == more[i];
    }
  }

  /**
   A builder in state `s` came to `target`, as long as every chunk fits: all chunks fit exactly
   if they did before and the buffers of the target do.
   */
  ghost predicate Tracks(codec: Codec, fits: bool, s: ChunkState, before: bool, target: ChunkState) {
    && (fits <==> before && AllFit(codec, target.flushed))
    && (fits ==> s == target)
  }

  /** Two steps one after the other. */
  lemma TracksThen(codec: Codec, before: bool, f: bool, s: ChunkState, mid: ChunkState, f': bool, s': ChunkState,
                   step: ChunkState, target: ChunkState)
    requires Tracks(codec, f, s, before, mid) && Tracks(codec, f', s', f, step)
    requires f ==> step == target
    requires mid.flushed <= target.flushed
    ensures Tracks(codec, f', s', before, target)
  {
    if AllFit(codec, target.flushed) {
      PrefixFits(codec, mid.flushed, target.flushed);
    }
  }

  /** Once a chunk did not fit, no further step can change that. */
  lemma TracksFailed(codec: Codec, before: bool, s: ChunkState, mid: ChunkState, target: ChunkState)
    requires Tracks(codec, false, s, before, mid) && mid.flushed <= target.flushed
    ensures Tracks(codec, false, s, before, target)
  {
    if AllFit(codec, target.flushed) {
      PrefixFits(codec, mid.flushed, target.flushed);
    }
  }

  /** Opens `PutsAll`. */
  ghost predicate OpenPuts(k: int) {
    true
  }

  /**
   A builder in state `s` came from `d` by writing bytes at an offset, as long as every chunk
   fits; a closed definition.
   */
  ghost predicate PutsAll(codec: Codec, fits: bool, s: ChunkState, before: bool, d: ChunkState, off: nat, bs: Bytes) {
    forall k: int {:trigger OpenPuts(k)} :: OpenPuts(k) ==> Tracks(codec, fits, s, before, PutAll(d, off, bs))
  }

  lemma PutsContent(codec: Codec, fits: bool, s: ChunkState, before: bool, d: ChunkState, off: nat, bs: Bytes)
    ensures PutsAll(codec, fits, s, before, d, off, bs) <==> Tracks(codec, fits, s, before, PutAll(d, off, bs))
  {
    assert OpenPuts(0);
  }

  lemma PutsNothing(codec: Codec, fits: bool, s: ChunkState, off: nat)
    requires Tracks(codec, fits, s, fits, s)
    ensures PutsAll(codec, fits, s, fits, s, off, [])
  {
    PutsContent(codec, fits, s, fits, s, off, []);
  }

  lemma PutsMore(codec: Codec, before: bool, d: ChunkState, off: nat, bs: Bytes, part: Bytes,
                 f: bool, s: ChunkState, f': bool, s': ChunkState)
    requires PutsAll(codec, f, s, before, d, off, bs) && PutsAll(codec, f', s', f, s, off + |bs|, part)
    ensures PutsAll(codec, f', s', before, d, off, bs + part)
  {
    var mid := PutAll(d, off, bs);
    PutsContent(codec, f, s, before, d, off, bs);
    PutsFrom(codec, before, mid, f, s, f', s', off + |bs|, part);
    PutAllConcat(d, off, bs, part);
    PutsContent(codec, f', s', before, mid, off + |bs|, part);
    PutsContent(codec, f', s', before, d, off, bs + part);
  }

  lemma PutsFrom(codec: Codec, before: bool, mid: ChunkState, f: bool, s: ChunkState, f': bool, s': ChunkState,
                 off: nat, bs: Bytes)
    requires Tracks(codec, f, s, before, mid) && PutsAll(codec, f', s', f, s, off, bs)
    ensures PutsAll(codec, f', s', before, mid, off, bs)
  {
    PutsContent(codec, f', s', f, s, off, bs);
    PutAllExtends(mid, off, bs);
    TracksThen(codec, before, f, s, mid, f', s', PutAll(s, off, bs), PutAll(mid, off, bs));
    PutsContent(codec, f', s', before, mid, off, bs);
  }

  /** Once a chunk did not fit, what would have been written does not matter. */
  lemma PutsFailed(codec: Codec, before: bool, s: ChunkState, d: ChunkState, off: nat, bs: Bytes, data: Bytes)
    requires bs <= data && PutsAll(codec, false, s, before, d, off, bs)
    ensures PutsAll(codec, false, s, before, d, off, data)
  {
    PutsContent(codec, false, s, before, d, off, bs);
    PutAllPrefix(d, off, bs, data);
    TracksFailed(codec, before, s, PutAll(d, off, bs), PutAll(d, off, data));
    PutsContent(codec, false, s, before, d, off, data);
  }

  lemma PutsNever(codec: Codec, before: bool, s: ChunkState, mid: ChunkState, off: nat, bs: Bytes)
    requires Tracks(codec, false, s, before, mid)
    ensures PutsAll(codec, false, s, before, mid, off, bs)
  {
    PutAllExtends(mid, off, bs);
    TracksFailed(codec, before, s, mid, PutAll(mid, off, bs));
    PutsContent(codec, false, s, before, mid, off, bs);
  }

  /** Bytes that do not cross the end of the current chunk. */
  lemma PutsPart(codec: Codec, f: bool, s: ChunkState, before: bool, d: ChunkState, off: nat, bs: Bytes)
    requires |d.buff| == CHUNK_SIZE && Within(off) + |bs| <= CHUNK_SIZE && (before ==> ChunkOf(off) == d.cur)
    requires Tracks(codec, f, s, before, MoveTo(d.(buff := CopyTo(d.buff, Within(off), bs)), off + |bs|))
    ensures PutsAll(codec, f, s, before, d, off, bs)
  {
    PutsContent(codec, f, s, before, d, off, bs);
    if before {
      PutInChunk(d, off, bs);
    }
  }

  /** Only whole chunks are stored. */
  ghost predicate Whole(d: ChunkState) {
    && |d.buff| == CHUNK_SIZE
    && (forall id :: id in d.chunks ==> |d.chunks[id]| == CHUNK_SIZE)
    && (forall i :: 0 <= i < |d.flushed| ==> |d.flushed[i]| == CHUNK_SIZE)
  }

  lemma {:induction false} PutAllWhole(d: ChunkState, off: nat, bs: Bytes)
    requires Whole(d)
    ensures Whole(PutAll(d, off, bs))
    decreases |bs|
  {
    if |bs| > 0 {
      PutAllWhole(PutByte(d, off, bs[0]), off + 1, bs[1..]);
    }
  }

  /** A codec with room for every chunk has room for the buffers of any run. */
  lemma RoomyFits(codec: Codec, d: ChunkState)
    requires codec.Roomy() && Whole(d)
    ensures AllFit(codec, FlushOf(d).flushed)
  {
    FitContent(codec, FlushOf(d).flushed);
  }

  // ---------------------------------------------------------------- the builder

  /** Ids that are distinct and small leave room in a store of the default size. */
  lemma NoVictim(ids: seq<nat>, size: nat, id: nat)
    requires Distinct(ids) && size >= MAX_CHUNKS && id < MAX_CHUNKS
    requires forall x :: x in ids ==> x < MAX_CHUNKS
    ensures Victim(ids, size, id) == None
    ensures forall x :: x in Updated(ids, size, id) ==> x < MAX_CHUNKS
  {
    WithoutMembers(ids, id);
    if id !in ids {
      var all: seq<int> := [id] + ids;
      assert Distinct(all) by {
        DistinctCons(id, ids);
      }
      forall i | 0 <= i < |all| ensures 0 <= all[i] < MAX_CHUNKS {
        if i > 0 {
          assert all[i] in ids;
        }
      }
      DistinctBounded(all, 0, MAX_CHUNKS);
    }
  }

  /** Where the builder was before a run of bytes. */
  datatype Start = Start(state: ChunkState, fits: bool, written: map<nat, byte>, ids: set<nat>, pos: nat)

  /** Opens `Ran`. */
  ghost predicate OpenRun(k: int) {
    true
  }

  /** The builder wrote bytes from `start` on, and passed chunks are stored; a closed definition. */
  ghost predicate Ran(codec: Codec, now: Start, start: Start, bs: Bytes) {
    && now.pos == start.pos + |bs|
    && forall k: int {:trigger OpenRun(k)} :: OpenRun(k) ==>
      && PutsAll(codec, now.fits, now.state, start.fits, start.state, start.pos, bs)
      && (now.fits ==>
           && start.fits
           && now.written == PutRun(start.written, start.pos, bs)
           && now.ids == Passed(start.ids, start.pos, now.pos))
  }

  lemma RanContent(codec: Codec, now: Start, start: Start, bs: Bytes)
    requires Ran(codec, now, start, bs)
    ensures PutsAll(codec, now.fits, now.state, start.fits, start.state, start.pos, bs)
    ensures now.fits ==>
      && start.fits
      && now.written == PutRun(start.written, start.pos, bs)
      && now.ids == Passed(start.ids, start.pos, now.pos)
  {
    assert OpenRun(0);
  }

  /** The next part of a run. */
  lemma RanMore(codec: Codec, before: Start, now: Start, start: Start, bs: Bytes, part: Bytes)
    requires Ran(codec, before, start, bs) && now.pos == before.pos + |part|
    requires PutsAll(codec, now.fits, now.state, before.fits, before.state, before.pos, part)
    requires now.fits ==>
      && before.fits
      && now.written == PutRun(before.written, before.pos, part)
      && now.ids == Passed(before.ids, before.pos, now.pos)
    ensures Ran(codec, now, start, bs + part)
  {
    RanContent(codec, before, start, bs);
    PutsMore(codec, start.fits, start.state, start.pos, bs, part, before.fits, before.state, now.fits, now.state);
    if now.fits {
      PutRunConcat(start.written, start.pos, bs, part);
      PassedMore(start.ids, start.pos, before.pos, now.pos);
    }
  }

  /** A chunk of the next part did not fit. */
  lemma RanStopped(codec: Codec, before: Start, now: Start, start: Start, bs: Bytes, part: Bytes, data: Bytes)
    requires Ran(codec, before, start, bs) && !now.fits && bs + part <= data
    requires PutsAll(codec, now.fits, now.state, before.fits, before.state, before.pos, part)
    ensures PutsAll(codec, now.fits, now.state, start.fits, start.state, start.pos, data)
  {
    RanContent(codec, before, start, bs);
    PutsMore(codec, start.fits, start.state, start.pos, bs, part, before.fits, before.state, now.fits, now.state);
    PutsFailed(codec, start.fits, now.state, start.state, start.pos, bs + part, data);
  }

  class ChunkBuilder {
    const store: CompressedStore
    const buff: array<byte>
    const readBuffer: array<byte>
    var pos: nat
    var chunkNum: nat
    var built: bool

    // The flat disk that the buffer and the store stand for: every byte ever written.
    ghost var written: map<nat, byte>

    // Whether every chunk stored so far fitted when compressed. The program does not know it.
    ghost var fits: bool

    // The buffers that were stored, in order.
    ghost var flushed: seq<Bytes>

    ghost function State(): ChunkState
      reads this`chunkNum, this`flushed, buff, store.chunkStore
    {
      ChunkState(buff[..], chunkNum, Disk(), flushed)
    }

    ghost predicate Follows(before: bool, target: ChunkState)
      reads this, buff, store, store.chunkStore
    {
      Tracks(store.codec, fits, State(), before, target)
    }

    ghost predicate Puts(before: bool, d: ChunkState, off: nat, bs: Bytes)
      reads this, buff, store, store.chunkStore
    {
      PutsAll(store.codec, fits, State(), before, d, off, bs)
    }

    /** The files after a buffer was stored as a chunk. */
    ghost function Flushed(disk: map<nat, Bytes>, id: nat, b: Bytes): map<nat, Bytes> {
      disk[id := store.codec.Pack(b)]
    }

    ghost function Repr(): set<object> {
      {this, buff, readBuffer, store.chunkStore, store.chunkStore.collector}
    }

    // A closed definition.
    ghost predicate Sound()
      reads this`chunkNum, this`fits, this`flushed, this`written, buff, readBuffer, store
      reads store.chunkStore, store.chunkStore.collector
    {
      && buff != readBuffer && buff.Length == CHUNK_SIZE && readBuffer.Length == CHUNK_SIZE
      && forall k: int {:trigger OpenDisk(k)} :: OpenDisk(k) ==>
        && store.Valid()
        && store.chunkStore.collector.size >= MAX_CHUNKS
        && (forall id :: id in Lru.Ids(store.chunkStore.collector.queue) ==> id < MAX_CHUNKS)
        && chunkNum < MAX_CHUNKS
        && (fits <==> AllFit(store.codec, flushed))
        && (fits ==> Intact(Disk(), buff[..], chunkNum, written))
    }

    ghost predicate Valid()
      reads this, buff, readBuffer, store, store.chunkStore, store.chunkStore.collector
    {
      && Sound()
      && pos < LIMIT
      && (fits ==> chunkNum == ChunkOf(pos))
    }

    ghost function Disk(): map<nat, Bytes>
      reads store.chunkStore
    {
      Chunks(store.chunkStore.disk, store.codec)
    }

    /** A builder whose buffers are fresh memory, which the program does not clear. */
    constructor (store: CompressedStore, memory: Bytes)
      requires |memory| == CHUNK_SIZE
      requires store.Valid() && store.chunkStore.disk == map[]
      requires store.chunkStore.collector.size >= MAX_CHUNKS
      requires forall id :: id in Lru.Ids(store.chunkStore.collector.queue) ==> id < MAX_CHUNKS
      ensures Valid() && this.store == store && fresh(buff) && fresh(readBuffer)
      ensures fits && pos == 0 && written == map[] && !built
      ensures State() == ChunkState(memory, 0, map[], [])
    {
      this.store := store;
      buff := new byte[CHUNK_SIZE](i requires 0 <= i < CHUNK_SIZE => memory[i]);
      readBuffer := new byte[CHUNK_SIZE];
      pos, chunkNum, built := 0, 0, false;
      written, fits, flushed := map[], true, [];
      new;
      assert buff[..] == memory;
      FitContent(store.codec, []);
    }

    /** Store the buffer under the current chunk number. */
    method Flush() returns (err: ErrorCode)
      requires Sound()
      modifies this`fits, this`flushed, store.chunkStore, store.chunkStore.collector
      ensures Sound() && err == OK
      ensures fits <==> old(fits) && store.codec.compress(buff[..]).Some?
      ensures flushed == old(flushed) + [buff[..]]
      ensures Follows(old(fits), FlushOf(old(State())))
      ensures store.chunkStore.disk == Flushed(old(store.chunkStore.disk), chunkNum, buff[..])
      ensures store.chunkStore.disk.Keys == old(store.chunkStore.disk.Keys) + {chunkNum}
    {
      assert OpenDisk(0);
      var collector := store.chunkStore.collector;
      NoVictim(Lru.Ids(collector.queue), collector.size, chunkNum);
      PackedReadable(store.codec, buff[..]);
      err := store.WriteChunk(chunkNum, buff[..]);
      fits := fits && store.codec.compress(buff[..]).Some?;
      flushed := flushed + [buff[..]];
      OneMoreFits(store.codec, old(flushed), buff[..]);
      if fits {
        ChunksStored(old(store.chunkStore.disk), store.codec, chunkNum, buff[..]);
        FlushKeeps(old(Disk()), buff[..], chunkNum, written);
      }
    }

    ghost function Ids(): set<nat>
      reads store, store.chunkStore
    {
      store.chunkStore.disk.Keys
    }

    /** Load the current chunk into the buffer, if it was stored before; else the buffer keeps its stale bytes. */
    method Load() returns (err: ErrorCode)
      requires store.Valid() && buff.Length == CHUNK_SIZE
      modifies buff, store.chunkStore.collector
      ensures store.Valid()
      ensures forall x :: x in Lru.Ids(store.chunkStore.collector.queue) <==>
                x in old(Lru.Ids(store.chunkStore.collector.queue))
      ensures chunkNum in Disk() && |Disk()[chunkNum]| == CHUNK_SIZE ==> err == OK && buff[..] == Disk()[chunkNum]
      ensures chunkNum !in Disk() ==> err == OK && buff[..] == old(buff[..])
      ensures err == OK || err == INTERNAL_ERROR
    {
      var ids := store.Available();
      err := OK;
      if chunkNum in ids {
        var data;
        err, data := store.ReadChunk(chunkNum);
        if err == OK {
          forall i | 0 <= i < |data| && i < CHUNK_SIZE {
            buff[i] := data[i];
          }
        }
      }
    }

    /** Store the buffer and go on with another chunk. */
    method Switch(next: nat) returns (err: ErrorCode)
      requires Sound() && next != chunkNum && next < MAX_CHUNKS
      modifies this`chunkNum, this`fits, this`flushed, buff, store.chunkStore, store.chunkStore.collector
      ensures Sound() && chunkNum == next
      ensures fits ==> old(fits) && err == OK
      ensures Follows(old(fits), SwitchTo(old(State()), next))
      ensures Ids() == old(Ids()) + {old(chunkNum)}
      ensures store.chunkStore.disk == Flushed(old(store.chunkStore.disk), old(chunkNum), old(buff[..]))
      ensures next !in store.chunkStore.disk ==> err == OK
      ensures err == OK || err == INTERNAL_ERROR
    {
      err := Flush();
      err := GoTo(next);
    }

    /** Go on with another chunk after the buffer was stored. */
    method GoTo(next: nat) returns (err: ErrorCode)
      requires Sound() && next != chunkNum && next < MAX_CHUNKS
      requires fits ==> chunkNum in Disk() && Disk()[chunkNum] == buff[..]
      modifies this`chunkNum, buff, store.chunkStore.collector
      ensures Sound() && chunkNum == next
      ensures fits ==> err == OK
      ensures fits ==>
        State() == old(State()).(cur := next, buff := if next in Disk() then Disk()[next] else old(buff[..]))
      ensures next !in store.chunkStore.disk ==> err == OK
      ensures err == OK || err == INTERNAL_ERROR
    {
      assert OpenDisk(0);
      ghost var stored, cur := buff[..], chunkNum;
      chunkNum := next;
      if fits && next in Disk() {
        WholeChunk(Disk(), stored, cur, written, next);
      }
      err := Load();
      if fits {
        SwitchChunk(Disk(), stored, cur, written, next, buff[..]);
        assert Disk()[cur := stored] == Disk();
      }
    }

    /** Go to an offset. */
    method MovePos(newOffset: nat) returns (err: ErrorCode)
      requires Sound() && newOffset < LIMIT
      modifies this`pos, this`chunkNum, this`fits, this`flushed, buff, store.chunkStore, store.chunkStore.collector
      ensures Sound() && (old(pos) < LIMIT ==> Valid())
      ensures err == OK ==> pos == newOffset && chunkNum == ChunkOf(newOffset) && Valid()
      ensures err != OK ==> pos == old(pos)
      ensures err == OK || err == INTERNAL_ERROR
      ensures fits ==> old(fits) && err == OK
      ensures Follows(old(fits), MoveTo(old(State()), newOffset))
      ensures Ids() == old(Ids()) + (if ChunkOf(newOffset) != old(chunkNum) then {old(chunkNum)} else {})
      ensures ChunkOf(newOffset) == old(chunkNum) ==>
        store.chunkStore.disk == old(store.chunkStore.disk) && buff[..] == old(buff[..]) && fits == old(fits)
      ensures ChunkOf(newOffset) != old(chunkNum) ==>
        && store.chunkStore.disk == Flushed(old(store.chunkStore.disk), old(chunkNum), old(buff[..]))
        && (ChunkOf(newOffset) !in store.chunkStore.disk ==> err == OK)
    {
      err := OK;
      Unmoved();
      if ChunkOf(newOffset) != chunkNum {
        err := Switch(ChunkOf(newOffset));
        if err != OK {
          return;
        }
      }
      pos := newOffset;
    }

    /** Copy bytes into the buffer at the current position, which they do not cross the chunk of. */
    method CopyIn(bs: Bytes)
      requires Valid() && Within(pos) + |bs| <= CHUNK_SIZE
      modifies this`written, buff
      ensures Valid() && written == PutRun(old(written), pos, bs)
      ensures buff[..] == CopyTo(old(buff[..]), Within(pos), bs)
      ensures State() == old(State()).(buff := buff[..])
    {
      assert OpenDisk(0);
      ghost var before := buff[..];
      var curr := Within(pos);
      forall i | 0 <= i < |bs| {
        buff[curr + i] := bs[i];
      }
      written := PutRun(written, pos, bs);
      if fits {
        FillBuffer(Disk(), before, chunkNum, old(written), pos, bs, buff[..]);
      }
      assert buff[..] == CopyTo(before, curr, bs);
    }

    /** The part of the data that fits into the current chunk. */
    method WritePart(bs: Bytes) returns (err: ErrorCode)
      requires Valid() && Within(pos) + |bs| <= CHUNK_SIZE && pos + |bs| < LIMIT
      modifies this`pos, this`chunkNum, this`fits, this`flushed, this`written
      modifies buff, store.chunkStore, store.chunkStore.collector
      ensures Valid() && pos == old(pos) + |bs|
      ensures fits ==> old(fits) && err == OK
      ensures Puts(old(fits), old(State()), old(pos), bs)
      ensures fits ==> written == PutRun(old(written), old(pos), bs)
      ensures err == OK || err == INTERNAL_ERROR
      ensures fits ==> Ids() == Passed(old(Ids()), old(pos), pos)
      ensures ChunkOf(pos) != old(chunkNum) ==>
        && store.chunkStore.disk ==
             Flushed(old(store.chunkStore.disk), old(chunkNum), CopyTo(old(buff[..]), Within(old(pos)), bs))
        && (ChunkOf(pos) !in store.chunkStore.disk ==> err == OK && chunkNum == ChunkOf(pos))
    {
      ghost var d, from := State(), pos;
      PassedStep(Ids(), pos, |bs|);
      CopyIn(bs);
      pos := pos + |bs|;
      err := MovePos(pos);
      PutsPart(store.codec, fits, State(), old(fits), d, from, bs);
    }

    /** The bytes from `start` on are written, and passed chunks are stored. */
    ghost predicate Progress(start: Start, bs: Bytes)
      reads this, buff, store, store.chunkStore
    {
      Ran(store.codec, Here(), start, bs)
    }

    ghost function Here(): Start
      reads this, buff, store, store.chunkStore
    {
      Start(State(), fits, written, Ids(), pos)
    }

    lemma Unmoved()
      requires Sound()
      ensures Follows(fits, State())
    {
      assert OpenDisk(0);
    }

    lemma StoreValid()
      requires Valid()
      ensures store.Valid()
    {
      assert OpenDisk(0);
    }

    lemma Begun()
      requires Sound()
      ensures Progress(Here(), [])
    {
      Unmoved();
      PutsNothing(store.codec, fits, State(), pos);
    }

    /** One round of writing: as much as fits into the current chunk. */
    method WriteRound(data: Bytes, done: nat, ghost start: Start) returns (err: ErrorCode, next: nat)
      requires Valid() && done < |data| && Progress(start, data[..done]) && start.pos + |data| < LIMIT
      modifies this`pos, this`chunkNum, this`fits, this`flushed, this`written
      modifies buff, store.chunkStore, store.chunkStore.collector
      ensures Valid() && next > 0 && done + next <= |data| && Progress(start, data[..done + next])
      ensures err == OK || err == INTERNAL_ERROR
      ensures fits ==> old(fits) && err == OK
    {
      ghost var before := Here();
      next := Min(CHUNK_SIZE - Within(pos), |data| - done);
      var part := data[done..done + next];
      assert data[..done + next] == data[..done] + part;
      err := WritePart(part);
      RanMore(store.codec, before, Here(), start, data[..done], part);
    }

    method WriteData(data: Bytes) returns (err: ErrorCode)
      requires Valid() && pos + |data| < LIMIT
      modifies this`pos, this`chunkNum, this`fits, this`flushed, this`written
      modifies buff, store.chunkStore, store.chunkStore.collector
      ensures Valid()
      ensures err == OK ==> pos == old(pos) + |data|
      ensures fits ==> old(fits) && err == OK
      ensures Puts(old(fits), old(State()), old(pos), data)
      ensures fits ==> written == PutRun(old(written), old(pos), data)
      ensures err == OK || err == INTERNAL_ERROR
      ensures fits ==> Ids() == Passed(old(Ids()), old(pos), pos)
    {
      ghost var start := Here();
      Begun();
      assert data[..0] == [];
      var done := 0;
      while done < |data|
        invariant Valid() && done <= |data| && Progress(start, data[..done])
        invariant fits ==> old(fits)
      {
        var next;
        err, next := WriteRound(data, done, start);
        done := done + next;
        if err != OK {
          RanContent(store.codec, Here(), start, data[..done]);
          PutsFailed(store.codec, start.fits, State(), start.state, start.pos, data[..done], data);
          return;
        }
      }
      assert data[..done] == data;
      RanContent(store.codec, Here(), start, data);
      err := OK;
    }

    method Reserve(length: nat) returns (err: ErrorCode, offset: nat)
      requires Valid() && pos + length < LIMIT
      modifies this`pos, this`chunkNum, this`fits, this`flushed, buff, store.chunkStore, store.chunkStore.collector
      ensures Valid() && offset == old(pos)
      ensures err == OK || err == INTERNAL_ERROR
      ensures fits ==> old(fits) && err == OK
      ensures Follows(old(fits), MoveTo(old(State()), old(pos) + length))
      ensures err == OK ==> pos == old(pos) + length
      ensures Ids() == old(Ids()) + (if ChunkOf(old(pos) + length) != old(chunkNum) then {old(chunkNum)} else {})
    {
      offset := pos;
      err := MovePos(pos + length);
    }

    method Write(offset: nat, data: Bytes) returns (err: ErrorCode)
      requires Valid() && offset + |data| < LIMIT
      modifies this`pos, this`chunkNum, this`fits, this`flushed, this`written
      modifies buff, store.chunkStore, store.chunkStore.collector
      ensures Valid()
      ensures err == OK ==> pos == offset + |data|
      ensures err == OK || err == INTERNAL_ERROR
      ensures fits ==> old(fits) && err == OK
      ensures Puts(old(fits), MoveTo(old(State()), offset), offset, data)
      ensures fits ==> written == PutRun(old(written), offset, data)
      ensures fits ==>
        Ids() == Passed(old(Ids()) + (if ChunkOf(offset) != old(chunkNum) then {old(chunkNum)} else {}), offset, pos)
    {
      ghost var before := Here();
      err := MovePos(offset);
      ghost var mid, f, moved := MoveTo(before.state, offset), fits, State();
      if err != OK {
        PutsNever(store.codec, before.fits, moved, mid, offset, data);
        return;
      }
      err := WriteData(data);
      PutsFrom(store.codec, before.fits, mid, f, moved, fits, State(), offset, data);
    }

    /** Fill the read buffer from a file whose first `done` bytes were read before, however the reads are cut. */
    method FillReadBuffer(file: Bytes, done: nat) returns (fill: nat, res: nat)
      requires readBuffer.Length == CHUNK_SIZE && done <= |file|
      modifies readBuffer
      ensures fill <= CHUNK_SIZE && done + fill <= |file|
      ensures readBuffer[..fill] == file[done..done + fill]
      ensures res > 0 ==> fill == CHUNK_SIZE
      ensures res == 0 ==> done + fill == |file|
    {
      fill := 0;
      var more := true;
      res := 0;
      while more
        invariant fill <= CHUNK_SIZE && done + fill <= |file|
        invariant readBuffer[..fill] == file[done..done + fill]
        invariant more ==> fill < CHUNK_SIZE
        invariant !more && res > 0 ==> fill == CHUNK_SIZE
        invariant !more && res == 0 ==> done + fill == |file|
        decreases CHUNK_SIZE - fill, more
      {
        res := Transfer(Min(CHUNK_SIZE - fill, |file| - (done + fill)));
        ghost var part := file[done + fill..done + fill + res];
        ghost var before := readBuffer[..fill];
        forall i | 0 <= i < res {
          readBuffer[fill + i] := file[done + fill + i];
        }
        assert readBuffer[..fill + res] == before + part;
        assert file[done..done + (fill + res)] == file[done..done + fill] + part;
        fill := fill + res;
        more := fill < CHUNK_SIZE && res > 0;
      }
    }

    /** Append the content of a file at the current position, one buffer after the other. */
    method AddFile(content: Content) returns (err: ErrorCode, offset: nat, length: nat)
      requires Valid()
      requires content.Readable? ==> pos + |content.bytes| < LIMIT
      modifies this`pos, this`chunkNum, this`fits, this`flushed, this`written, buff, readBuffer
      modifies store.chunkStore, store.chunkStore.collector
      ensures Valid() && (fits ==> old(fits))
      ensures Puts(old(fits), old(State()), old(pos), BytesOf(content))
      ensures content.Missing? ==> err == NOT_FOUND
      ensures content.Denied? ==> err == ACCESS_DENIED
      ensures content.Readable? ==> err == OK || err == INTERNAL_ERROR
      ensures !content.Readable? ==>
        && pos == old(pos) && fits == old(fits) && written == old(written)
        && State() == old(State()) && Ids() == old(Ids())
      ensures content.Readable? && err == OK ==>
        offset == old(pos) && length == |content.bytes| && pos == old(pos) + length
      ensures fits && content.Readable? ==> err == OK && written == PutRun(old(written), old(pos), content.bytes)
      ensures fits && content.Readable? ==> Ids() == Passed(old(Ids()), old(pos), pos)
    {
      offset, length := 0, 0;
      Unmoved();
      PutsNothing(store.codec, fits, State(), pos);
      var p := pos;
      match content {
        case Missing => return NOT_FOUND, 0, 0;
        case Denied => return ACCESS_DENIED, 0, 0;
        case Readable(bytes) =>
          err, length := Stream(bytes);
          offset := p;
      }
    }

    /** One round of streaming: the next buffer of a file. */
    method StreamRound(bytes: Bytes, done: nat, ghost start: Start) returns (err: ErrorCode, fill: nat, more: bool)
      requires Valid() && done <= |bytes| && Progress(start, bytes[..done]) && start.pos + |bytes| < LIMIT
      modifies this`pos, this`chunkNum, this`fits, this`flushed, this`written
      modifies buff, readBuffer, store.chunkStore, store.chunkStore.collector
      ensures Valid()
      ensures done + fill <= |bytes|
      ensures if more then fill > 0 else done + fill == |bytes|
      ensures err == OK ==> Progress(start, bytes[..done + fill])
      ensures err != OK ==> !fits && Puts(start.fits, start.state, start.pos, bytes)
      ensures fits ==> old(fits)
      ensures err == OK || err == INTERNAL_ERROR
    {
      var res;
      fill, res := FillReadBuffer(bytes, done);
      ghost var before := Here();
      var part := readBuffer[..fill];
      assert bytes[..done + fill] == bytes[..done] + part;
      err := WriteData(part);
      if err == OK {
        RanMore(store.codec, before, Here(), start, bytes[..done], part);
      } else {
        RanStopped(store.codec, before, Here(), start, bytes[..done], part, bytes);
      }
      more := res > 0;
    }

    method Stream(bytes: Bytes) returns (err: ErrorCode, length: nat)
      requires Valid() && pos + |bytes| < LIMIT
      modifies this`pos, this`chunkNum, this`fits, this`flushed, this`written
      modifies buff, readBuffer, store.chunkStore, store.chunkStore.collector
      ensures Valid() && (fits ==> old(fits))
      ensures Puts(old(fits), old(State()), old(pos), bytes)
      ensures err == OK ==> length == |bytes| && pos == old(pos) + length
      ensures fits ==> err == OK && written == PutRun(old(written), old(pos), bytes)
      ensures err == OK || err == INTERNAL_ERROR
      ensures fits ==> Ids() == Passed(old(Ids()), old(pos), pos)
    {
      ghost var start := Here();
      Begun();
      assert bytes[..0] == [];
      length := 0;
      var more := true;
      while more
        invariant Valid() && length <= |bytes| && Progress(start, bytes[..length])
        invariant fits ==> old(fits)
        invariant !more ==> length == |bytes|
        decreases |bytes| - length, more
      {
        var fill;
        err, fill, more := StreamRound(bytes, length, start);
        length := length + fill;
        if err != OK {
          return;
        }
      }
      assert bytes[..length] == bytes;
      RanContent(store.codec, Here(), start, bytes);
      err := OK;
    }

    /** The last chunk goes to the store. */
    method Build() returns (err: ErrorCode)
      requires Valid()
      modifies this`fits, this`flushed, this`built, store.chunkStore, store.chunkStore.collector
      ensures Valid() && err == OK && built && written == old(written) && pos == old(pos)
      ensures fits ==> old(fits)
      ensures Follows(old(fits), FlushOf(old(State())))
      ensures fits ==> Stored(Disk(), written)
      ensures Ids() == old(Ids()) + {chunkNum}
      ensures store.chunkStore.disk == Flushed(old(store.chunkStore.disk), chunkNum, buff[..])
    {
      assert fits ==> Intact(Disk(), buff[..], chunkNum, written) by {
        assert OpenDisk(0);
      }
      err := Flush();
      built := true;
      if fits {
        AllStored(old(Disk()), buff[..], chunkNum, written);
      }
    }
  }

  /** Every chunk is whole and every written byte is in its chunk. */
  ghost predicate Stored(chunks: map<nat, Bytes>, written: map<nat, byte>) {
    && (forall id :: id in chunks ==> |chunks[id]| == CHUNK_SIZE)
    && (forall o :: o in written ==> ChunkOf(o) in chunks && chunks[ChunkOf(o)][Within(o)] == written[o])
  }

  lemma AllStored(chunks: map<nat, Bytes>, buff: Bytes, cur: nat, written: map<nat, byte>)
    requires Intact(chunks, buff, cur, written) && |buff| == CHUNK_SIZE
    ensures Stored(chunks[cur := buff], written)
  {
    assert OpenBytes(0);
    forall o | o in written
      ensures var c := chunks[cur := buff]; ChunkOf(o) in c && c[ChunkOf(o)][Within(o)] == written[o]
    {
      assert HoldsByte(chunks, buff, cur, o, written[o]);
    }
  }

  // ---------------------------------------------------------------- any run of operations

  datatype DiskOp = ReserveOp(length: nat) | WriteOp(offset: nat, data: Bytes) | AppendOp(content: Content)

  /** Where the next byte goes after an operation. */
  function PosAfter(pos: nat, op: DiskOp): nat {
    match op
    case ReserveOp(length) => pos + length
    case WriteOp(offset, data) => offset + |data|
    case AppendOp(content) => if content.Readable? then pos + |content.bytes| else pos
  }

  /** What the flat disk holds after an operation at a position. */
  ghost function DiskAfter(disk: map<nat, byte>, pos: nat, op: DiskOp): map<nat, byte> {
    match op
    case ReserveOp(_) => disk
    case WriteOp(offset, data) => PutRun(disk, offset, data)
    case AppendOp(content) => if content.Readable? then PutRun(disk, pos, content.bytes) else disk
  }

  ghost function PosAfterAll(pos: nat, ops: seq<DiskOp>): nat {
    if |ops| == 0 then pos else PosAfter(PosAfterAll(pos, ops[..|ops| - 1]), ops[|ops| - 1])
  }

  ghost function DiskAfterAll(disk: map<nat, byte>, pos: nat, ops: seq<DiskOp>): map<nat, byte> {
    if |ops| == 0 then disk
    else
      var before := ops[..|ops| - 1];
      DiskAfter(DiskAfterAll(disk, pos, before), PosAfterAll(pos, before), ops[|ops| - 1])
  }

  /** The chunks after an operation at a position. */
  ghost function StateAfter(d: ChunkState, pos: nat, op: DiskOp): ChunkState {
    match op
    case ReserveOp(length) => MoveTo(d, pos + length)
    case WriteOp(offset, data) => PutAll(MoveTo(d, offset), offset, data)
    case AppendOp(content) => PutAll(d, pos, BytesOf(content))
  }

  ghost function StateAfterAll(d: ChunkState, pos: nat, ops: seq<DiskOp>): ChunkState {
    if |ops| == 0 then d
    else
      var before := ops[..|ops| - 1];
      StateAfter(StateAfterAll(d, pos, before), PosAfterAll(pos, before), ops[|ops| - 1])
  }

  lemma StateAfterExtends(d: ChunkState, pos: nat, op: DiskOp)
    ensures d.flushed <= StateAfter(d, pos, op).flushed
  {
    match op
    case ReserveOp(_) =>
    case WriteOp(offset, data) => PutAllExtends(MoveTo(d, offset), offset, data);
    case AppendOp(content) => PutAllExtends(d, pos, BytesOf(content));
  }

  lemma {:induction false} StateAfterAllExtends(d: ChunkState, pos: nat, ops: seq<DiskOp>, k: nat)
    requires k <= |ops|
    ensures StateAfterAll(d, pos, ops[..k]).flushed <= StateAfterAll(d, pos, ops).flushed
    decreases |ops|
  {
    if k == |ops| {
      assert ops[..k] == ops;
    } else {
      var before := ops[..|ops| - 1];
      assert before[..k] == ops[..k];
      StateAfterAllExtends(d, pos, before, k);
      StateAfterExtends(StateAfterAll(d, pos, before), PosAfterAll(pos, before), ops[|ops| - 1]);
    }
  }

  /** One operation. A file that cannot be opened changes nothing. */
  method Perform(builder: ChunkBuilder, op: DiskOp) returns (err: ErrorCode)
    requires builder.Valid() && PosAfter(builder.pos, op) < LIMIT
    modifies builder.Repr()
    ensures builder.Valid()
    ensures err == OK ==> builder.pos == PosAfter(old(builder.pos), op)
    ensures builder.fits ==> old(builder.fits) && err == OK
    ensures builder.Follows(old(builder.fits), StateAfter(old(builder.State()), old(builder.pos), op))
    ensures builder.fits ==> builder.written == DiskAfter(old(builder.written), old(builder.pos), op)
  {
    builder.Unmoved();
    match op {
      case ReserveOp(length) =>
        var offset;
        err, offset := builder.Reserve(length);
      case WriteOp(offset, data) =>
        err := builder.Write(offset, data);
        PutsContent(builder.store.codec, builder.fits, builder.State(),
                    old(builder.fits), MoveTo(old(builder.State()), offset), offset, data);
      case AppendOp(content) =>
        var offset, length;
        err, offset, length := builder.AddFile(content);
        PutsContent(builder.store.codec, builder.fits, builder.State(),
                    old(builder.fits), old(builder.State()), old(builder.pos), BytesOf(content));
        if err == NOT_FOUND || err == ACCESS_DENIED {
          err := OK;
        }
    }
  }

  /**
   After any operations in any order, and the final flush, every byte that was ever written
   is on the disk with its latest value, in chunks that are whole.
   */
  method PerformAll(builder: ChunkBuilder, ops: seq<DiskOp>) returns (err: ErrorCode)
    requires builder.Valid()
    requires forall k :: 0 <= k <= |ops| ==> PosAfterAll(builder.pos, ops[..k]) < LIMIT
    modifies builder.Repr()
    ensures builder.Valid()
    ensures builder.fits ==> err == OK && old(builder.fits)
    ensures builder.Follows(old(builder.fits), FlushOf(StateAfterAll(old(builder.State()), old(builder.pos), ops)))
    ensures builder.fits ==> Stored(builder.Disk(), DiskAfterAll(old(builder.written), old(builder.pos), ops))
  {
    builder.Unmoved();
    ghost var w, p, d, codec := builder.written, builder.pos, builder.State(), builder.store.codec;
    for k := 0 to |ops|
      invariant builder.Valid() && builder.pos == PosAfterAll(p, ops[..k])
      invariant builder.fits ==> old(builder.fits) && builder.written == DiskAfterAll(w, p, ops[..k])
      invariant builder.Follows(old(builder.fits), StateAfterAll(d, p, ops[..k]))
    {
      assert ops[..k + 1][..k] == ops[..k];
      assert PosAfterAll(p, ops[..k + 1]) < LIMIT;
      ghost var f, s, mid := builder.fits, builder.State(), StateAfterAll(d, p, ops[..k]);
      StateAfterExtends(mid, builder.pos, ops[k]);
      err := Perform(builder, ops[k]);
      ghost var after := StateAfterAll(d, p, ops[..k + 1]);
      TracksThen(codec, old(builder.fits), f, s, mid, builder.fits, builder.State(),
        StateAfter(s, PosAfterAll(p, ops[..k]), ops[k]), after);
      if err != OK {
        StateAfterAllExtends(d, p, ops, k + 1);
        TracksFailed(codec, old(builder.fits), builder.State(), after, FlushOf(StateAfterAll(d, p, ops)));
        return;
      }
    }
    assert ops[..|ops|] == ops;
    ghost var f, s, mid := builder.fits, builder.State(), StateAfterAll(d, p, ops);
    err := builder.Build();
    TracksThen(codec, old(builder.fits), f, s, mid, builder.fits, builder.State(), FlushOf(s), FlushOf(mid));
  }

  // ---------------------------------------------------------------- when a chunk does not fit

  /** One chunk fills a new disk up to the second chunk. */
  method FirstChunk(builder: ChunkBuilder, b: Bytes)
    requires builder.Valid() && |b| == CHUNK_SIZE && builder.pos == builder.chunkNum == 0
    requires builder.store.chunkStore.disk == map[]
    modifies builder.Repr()
    ensures builder.Valid() && builder.chunkNum == 1
    ensures builder.store.chunkStore.disk == map[0 := builder.store.codec.Pack(b)]
  {
    assert OpenDisk(0) && ChunkOf(0) == 0 && ChunkOf(CHUNK_SIZE) == 1;
    assert CopyTo(builder.buff[..], 0, b) == b;
    var _ := builder.WritePart(b);
  }

  /**
   A chunk that does not fit when compressed is lost without a word: for any such chunk, a
   disk that starts with it is built without an error, and the chunk cannot be read.
   */
  method Incompressible(codec: Codec, memory: Bytes, b: Bytes) returns (err: ErrorCode, builder: ChunkBuilder)
    requires codec.Faithful() && |memory| == |b| == CHUNK_SIZE && codec.compress(b) == None
    ensures fresh(builder) && fresh(builder.store) && builder.Valid() && builder.store.codec == codec
    ensures err == OK && builder.built && !builder.fits
    ensures 0 in builder.store.chunkStore.disk && codec.decompress(builder.store.chunkStore.disk[0]) == None
    ensures !Stored(builder.Disk(), PutRun(map[], 0, b))
  {
    var chunkStore := new ChunkStore(map[], [], MAX_CHUNKS);
    var store := new CompressedStore(chunkStore, codec);
    builder := new ChunkBuilder(store, memory);
    FirstChunk(builder, b);
    err := builder.Build();
    PackedReadable(codec, b);
    assert 0 in builder.Disk() && builder.Disk()[0] == [];
  }
}
