/** Which buffers a build compresses, and hence when every chunk of a packed tree fits. */
module PackedChunks {
  import opened Prelude
  import opened SourceTree
  import opened Image
  import opened WorkQueue
  import opened Stores
  import opened FlatDisk
  import opened Placement

  /** Opens the closed definitions of this module. */
  ghost predicate OpenPacked(k: int) {
    true
  }

  /**
   The builder when all contents, `data`, are stored behind the room for an image of `n`
   bytes. `memory` is what its buffer starts with, which the program does not clear.
   */
  ghost function FilledState(memory: Bytes, n: nat, data: Bytes): ChunkState {
    PutAll(MoveTo(ChunkState(memory, 0, map[], []), n), n, data)
  }

  /** The builder when then the image is stored at the start. */
  ghost function ImageState(memory: Bytes, img: Bytes, data: Bytes): ChunkState {
    PutAll(MoveTo(FilledState(memory, |img|, data), 0), 0, img)
  }

  /** Every buffer that is compressed while contents are stored fits; a closed definition. */
  ghost predicate FilledFits(codec: Codec, memory: Bytes, n: nat, data: Bytes) {
    forall k: int {:trigger OpenPacked(k)} :: OpenPacked(k) ==> AllFit(codec, FilledState(memory, n, data).flushed)
  }

  /** Every buffer that is compressed for contents, image and the last chunk fits; a closed definition. */
  ghost predicate ImageFits(codec: Codec, memory: Bytes, img: Bytes, data: Bytes) {
    forall k: int {:trigger OpenPacked(k)} :: OpenPacked(k) ==>
      AllFit(codec, FlushOf(ImageState(memory, img, data)).flushed)
  }

  /** A builder that has stored the contents, as long as every chunk fits; a closed definition. */
  ghost predicate FilledTo(codec: Codec, fits: bool, s: ChunkState, memory: Bytes, n: nat, data: Bytes) {
    forall k: int {:trigger OpenPacked(k)} :: OpenPacked(k) ==>
      Tracks(codec, fits, s, true, FilledState(memory, n, data))
  }

  /** A builder that has stored the contents and the image, as long as every chunk fits; a closed definition. */
  ghost predicate ImagedTo(codec: Codec, fits: bool, s: ChunkState, memory: Bytes, img: Bytes, data: Bytes) {
    forall k: int {:trigger OpenPacked(k)} :: OpenPacked(k) ==>
      Tracks(codec, fits, s, true, ImageState(memory, img, data))
  }

  lemma FilledFitsContent(codec: Codec, memory: Bytes, n: nat, data: Bytes)
    ensures FilledFits(codec, memory, n, data) <==> AllFit(codec, FilledState(memory, n, data).flushed)
  {
    assert OpenPacked(0);
  }

  lemma ImageFitsContent(codec: Codec, memory: Bytes, img: Bytes, data: Bytes)
    ensures ImageFits(codec, memory, img, data) <==>
      AllFit(codec, FlushOf(ImageState(memory, img, data)).flushed)
  {
    assert OpenPacked(0);
  }

  lemma FilledToContent(codec: Codec, fits: bool, s: ChunkState, memory: Bytes, n: nat, data: Bytes)
    ensures FilledTo(codec, fits, s, memory, n, data) <==> Tracks(codec, fits, s, true, FilledState(memory, n, data))
  {
    assert OpenPacked(0);
  }

  lemma ImagedToContent(codec: Codec, fits: bool, s: ChunkState, memory: Bytes, img: Bytes, data: Bytes)
    ensures ImagedTo(codec, fits, s, memory, img, data) <==> Tracks(codec, fits, s, true, ImageState(memory, img, data))
  {
    assert OpenPacked(0);
  }

  /** When contents and image fit, the contents do. */
  lemma FilledFirst(codec: Codec, memory: Bytes, img: Bytes, data: Bytes)
    requires ImageFits(codec, memory, img, data)
    ensures FilledFits(codec, memory, |img|, data)
  {
    ImageFitsContent(codec, memory, img, data);
    FilledFitsContent(codec, memory, |img|, data);
    var filled := FilledState(memory, |img|, data);
    PutAllExtends(MoveTo(filled, 0), 0, img);
    PrefixFits(codec, filled.flushed, FlushOf(ImageState(memory, img, data)).flushed);
  }

  lemma FilledAfter(codec: Codec, memory: Bytes, n: nat, data: Bytes, f: bool, s: ChunkState, f': bool, s': ChunkState)
    requires Tracks(codec, f, s, true, MoveTo(ChunkState(memory, 0, map[], []), n))
    requires PutsAll(codec, f', s', f, s, n, data)
    ensures FilledTo(codec, f', s', memory, n, data)
  {
    var room := MoveTo(ChunkState(memory, 0, map[], []), n);
    PutsFrom(codec, true, room, f, s, f', s', n, data);
    PutsContent(codec, f', s', true, room, n, data);
    FilledToContent(codec, f', s', memory, n, data);
  }

  lemma ImageAfter(codec: Codec, memory: Bytes, img: Bytes, data: Bytes, f: bool, s: ChunkState, f': bool,
                   s': ChunkState)
    requires FilledTo(codec, f, s, memory, |img|, data)
    requires PutsAll(codec, f', s', f, MoveTo(s, 0), 0, img)
    ensures ImagedTo(codec, f', s', memory, img, data)
  {
    var filled := FilledState(memory, |img|, data);
    FilledToContent(codec, f, s, memory, |img|, data);
    PutsContent(codec, f', s', f, MoveTo(s, 0), 0, img);
    PutAllExtends(MoveTo(filled, 0), 0, img);
    TracksThen(codec, true, f, s, filled, f', s', PutAll(MoveTo(s, 0), 0, img), ImageState(memory, img, data));
    ImagedToContent(codec, f', s', memory, img, data);
  }

  /** After the last chunk was stored, the flag of the builder tells whether everything fits. */
  lemma LastAfter(codec: Codec, memory: Bytes, img: Bytes, data: Bytes, f: bool, s: ChunkState, f': bool,
                  s': ChunkState)
    requires ImagedTo(codec, f, s, memory, img, data) && Tracks(codec, f', s', f, FlushOf(s))
    ensures f' <==> ImageFits(codec, memory, img, data)
  {
    var imaged := ImageState(memory, img, data);
    ImagedToContent(codec, f, s, memory, img, data);
    TracksThen(codec, true, f, s, imaged, f', s', FlushOf(s), FlushOf(imaged));
    ImageFitsContent(codec, memory, img, data);
  }

  lemma RoomFailed(codec: Codec, memory: Bytes, n: nat, data: Bytes, s: ChunkState)
    requires Tracks(codec, false, s, true, MoveTo(ChunkState(memory, 0, map[], []), n))
    ensures !FilledFits(codec, memory, n, data)
  {
    PutsNever(codec, true, s, MoveTo(ChunkState(memory, 0, map[], []), n), n, data);
    PutsContent(codec, false, s, true, MoveTo(ChunkState(memory, 0, map[], []), n), n, data);
    FilledFitsContent(codec, memory, n, data);
  }

  lemma FilledFailed(codec: Codec, memory: Bytes, n: nat, data: Bytes, s: ChunkState)
    requires FilledTo(codec, false, s, memory, n, data)
    ensures !FilledFits(codec, memory, n, data)
  {
    FilledToContent(codec, false, s, memory, n, data);
    FilledFitsContent(codec, memory, n, data);
  }

  // ---------------------------------------------------------------- a tree that is packed

  /** Every buffer that is compressed when a tree with this image is packed fits. */
  ghost predicate PackFits(codec: Codec, memory: Bytes, img: Bytes, root: Tree) {
    forall data :: IsAll(root, data) ==> ImageFits(codec, memory, img, data)
  }

  /** Every buffer that is compressed while the contents of its files are placed behind an image of `n` bytes fits. */
  ghost predicate ContentsFit(codec: Codec, memory: Bytes, n: nat, root: Tree) {
    forall data :: IsAll(root, data) ==> FilledFits(codec, memory, n, data)
  }

  lemma PackFitsContent(codec: Codec, memory: Bytes, img: Bytes, root: Tree, data: Bytes)
    requires IsAll(root, data)
    ensures PackFits(codec, memory, img, root) <==> ImageFits(codec, memory, img, data)
  {
    if ImageFits(codec, memory, img, data) {
      forall other | IsAll(root, other) ensures ImageFits(codec, memory, img, other) {
        AllUnique(root, data, other);
      }
    }
  }

  lemma ContentsFitContent(codec: Codec, memory: Bytes, n: nat, root: Tree, data: Bytes)
    requires IsAll(root, data)
    ensures ContentsFit(codec, memory, n, root) <==> FilledFits(codec, memory, n, data)
  {
    if FilledFits(codec, memory, n, data) {
      forall other | IsAll(root, other) ensures FilledFits(codec, memory, n, other) {
        AllUnique(root, data, other);
      }
    }
  }

  /** Opens `Suits`. */
  ghost predicate OpenSuits(k: int) {
    true
  }

  /**
   The codec has room for every buffer that packing the tree compresses, whatever bytes of
   its image the tree leaves open; a closed definition.
   */
  ghost predicate Suits(codec: Codec, memory: Bytes, root: Tree) {
    forall k: int {:trigger OpenSuits(k)} :: OpenSuits(k) ==>
      && ContentsFit(codec, memory, WORD + Size(root), root)
      && forall img :: Laid(img, root, BfsOrder(root)) ==> PackFits(codec, memory, img, root)
  }

  lemma SuitsFits(codec: Codec, memory: Bytes, root: Tree, img: Bytes)
    requires |img| == WORD + Size(root) && (ContentsFit(codec, memory, |img|, root) ==> Laid(img, root, BfsOrder(root)))
    requires Suits(codec, memory, root)
    ensures PackFits(codec, memory, img, root)
  {
    assert OpenSuits(0);
  }

  lemma RoomyPacks(codec: Codec, memory: Bytes, img: Bytes, data: Bytes)
    requires codec.Roomy() && |memory| == CHUNK_SIZE
    ensures ImageFits(codec, memory, img, data) && FilledFits(codec, memory, |img|, data)
  {
    var room := MoveTo(ChunkState(memory, 0, map[], []), |img|);
    PutAllWhole(room, |img|, data);
    var filled := FilledState(memory, |img|, data);
    PutAllWhole(MoveTo(filled, 0), 0, img);
    RoomyFits(codec, ImageState(memory, img, data));
    ImageFitsContent(codec, memory, img, data);
    FilledFirst(codec, memory, img, data);
  }

  lemma RoomyTree(codec: Codec, memory: Bytes, img: Bytes, root: Tree)
    requires codec.Roomy() && |memory| == CHUNK_SIZE
    ensures PackFits(codec, memory, img, root) && ContentsFit(codec, memory, |img|, root)
  {
    var data := TheContents(root);
    RoomyPacks(codec, memory, img, data);
    PackFitsContent(codec, memory, img, root, data);
    ContentsFitContent(codec, memory, |img|, root, data);
  }

  /** A codec that has room for every chunk suits every tree. */
  lemma RoomySuits(codec: Codec, memory: Bytes, root: Tree)
    requires codec.Roomy() && |memory| == CHUNK_SIZE
    ensures Suits(codec, memory, root)
  {
    RoomyTree(codec, memory, seq(WORD + Size(root), i => NUL), root);
    forall img | Laid(img, root, BfsOrder(root)) ensures PackFits(codec, memory, img, root) {
      RoomyTree(codec, memory, img, root);
    }
  }
}
