/**
 The layout of the metadata image: where the nodes, tables and strings of a tree lie
 and which bytes they hold.

 A node of 72 bytes (`struct Node`) is followed by its extended attributes (a table of
 16-byte rows, then names, lengths and values), then by the link target or by the table
 of directory rows and the entry names, then by the images of the children in order.
 Bytes the writer does not set (padding, unused fields) are unconstrained.
 */
module Image {
  import opened Prelude
  import opened ByteImage
  import opened SourceTree

  const NODE := 72   // sizeof(Node)
  const ENTRY := 16  // sizeof(Entry)
  const WORD := 8    // sizeof(usize)

  /** Bytes of `n` rows of a table. */
  function Rows(n: nat): nat {
    16 * n
  }

  // Fields of a node.
  const UID := 4
  const GID := 8
  const SIZE := 16
  const BLOCKS := 24
  const MTIME := 32
  const CTIME := 40
  const XATTRS_COUNT := 48
  const LENGTH := 56
  const DATA_OFFSET := 64

  /** A time in nanoseconds, cast to an unsigned 64-bit integer. */
  function NanoSeconds(t: Time): (ns: nat)
    ensures ns < U64
  {
    (t.nsec + t.sec * 1_000_000_000) % 0x1_0000_0000_0000_0000
  }

  // ---------------------------------------------------------------- sizes and positions

  function XattrSize(x: Xattr): nat {
    |x.name| + 1 + WORD + |x.value| + 1
  }

  function XattrStrings(xs: seq<Xattr>, n: nat): nat
    requires n <= |xs|
  {
    if n == 0 then 0 else XattrStrings(xs, n - 1) + XattrSize(xs[n - 1])
  }

  function XattrsSize(xs: seq<Xattr>): nat {
    Rows(|xs|) + XattrStrings(xs, |xs|)
  }

  /** Where the name of attribute `i` is stored, for a table at `base`. */
  function XattrPos(base: nat, xs: seq<Xattr>, i: nat): nat
    requires i <= |xs|
  {
    base + Rows(|xs|) + XattrStrings(xs, i)
  }

  /** Where the length word and then the value of attribute `i` are stored. */
  function ValuePos(base: nat, xs: seq<Xattr>, i: nat): nat
    requires i < |xs|
  {
    XattrPos(base, xs, i) + |xs[i].name| + 1
  }

  function NamesSize(es: seq<DirEntry>, n: nat): nat
    requires n <= |es|
  {
    if n == 0 then 0 else NamesSize(es, n - 1) + |es[n - 1].name| + 1
  }

  /** Bytes of a node without its children. */
  function HeadSize(t: Tree): nat {
    NODE + XattrsSize(t.xattrs) + match t {
      case File(_, _, _) => 0
      case Link(_, _, target) => |target| + 1
      case Dir(_, _, es) => Rows(|es|) + NamesSize(es, |es|)
    }
  }

  /** The value of `data_offset` in a link or a directory. */
  function DataPos(pos: nat, t: Tree): nat {
    pos + NODE + XattrsSize(t.xattrs)
  }

  function NamePos(pos: nat, t: Tree, i: nat): nat
    requires t.Dir? && i <= |t.entries|
  {
    DataPos(pos, t) + Rows(|t.entries|) + NamesSize(t.entries, i)
  }

  /** Bytes of a whole subtree. */
  function Size(t: Tree): (n: nat)
    ensures n >= NODE
    decreases t, 0
  {
    HeadSize(t) + if t.Dir? then KidsSize(t.entries, |t.entries|) else 0
  }

  function KidsSize(es: seq<DirEntry>, n: nat): nat
    requires n <= |es|
    decreases es, n
  {
    if n == 0 then 0 else KidsSize(es, n - 1) + Size(es[n - 1].tree)
  }

  /** Where child `i` of a directory at `pos` lies. */
  function KidPos(pos: nat, t: Tree, i: nat): nat
    requires t.Dir? && i <= |t.entries|
  {
    pos + HeadSize(t) + KidsSize(t.entries, i)
  }

  lemma {:induction false} XattrPosMonotone(base: nat, xs: seq<Xattr>, i: nat, j: nat)
    requires i <= j <= |xs|
    ensures XattrPos(base, xs, i) <= XattrPos(base, xs, j)
    ensures i < j ==> XattrPos(base, xs, i) + XattrSize(xs[i]) <= XattrPos(base, xs, j)
    ensures XattrPos(base, xs, |xs|) == base + XattrsSize(xs)
    decreases j
  {
    if i < j {
      XattrPosMonotone(base, xs, i, j - 1);
    }
  }

  lemma {:induction false} NamePosMonotone(pos: nat, t: Tree, i: nat, j: nat)
    requires t.Dir? && i <= j <= |t.entries|
    ensures NamePos(pos, t, i) <= NamePos(pos, t, j)
    ensures i < j ==> NamePos(pos, t, i) + |t.entries[i].name| + 1 <= NamePos(pos, t, j)
    ensures NamePos(pos, t, |t.entries|) == pos + HeadSize(t)
    decreases j
  {
    if i < j {
      NamePosMonotone(pos, t, i, j - 1);
    }
  }

  lemma {:induction false} KidPosMonotone(pos: nat, t: Tree, i: nat, j: nat)
    requires t.Dir? && i <= j <= |t.entries|
    ensures KidPos(pos, t, i) <= KidPos(pos, t, j)
    ensures i < j ==> KidPos(pos, t, i) + Size(t.entries[i].tree) <= KidPos(pos, t, j)
    ensures KidPos(pos, t, |t.entries|) == pos + Size(t)
    decreases j
  {
    if i < j {
      KidPosMonotone(pos, t, i, j - 1);
    }
  }

  // ---------------------------------------------------------------- contents

  predicate StatAt(img: Bytes, pos: nat, st: Stat) {
    && HalfAt(img, pos, st.mode)
    && HalfAt(img, pos + UID, st.uid)
    && HalfAt(img, pos + GID, st.gid)
    && WordAt(img, pos + SIZE, st.size)
    && WordAt(img, pos + BLOCKS, st.blocks)
    && WordAt(img, pos + MTIME, NanoSeconds(st.mtime))
    && WordAt(img, pos + CTIME, NanoSeconds(st.ctime))
  }

  /** The fields of `struct Node` that are set with the node, `data_offset` excepted. */
  predicate NodeAt(img: Bytes, pos: nat, t: Tree) {
    && StatAt(img, pos, t.st)
    && HalfAt(img, pos + XATTRS_COUNT, |t.xattrs|)
    && (t.Dir? ==> WordAt(img, pos + LENGTH, |t.entries|))
  }

  /** Attribute `i` of a table at `base`: its row, its name, and its value behind a length word. */
  predicate XattrAt(img: Bytes, base: nat, xs: seq<Xattr>, i: nat)
    requires i < |xs|
  {
    && WordAt(img, base + Rows(i), XattrPos(base, xs, i))
    && WordAt(img, base + Rows(i) + WORD, ValuePos(base, xs, i))
    && At(img, XattrPos(base, xs, i), CString(xs[i].name))
    && WordAt(img, ValuePos(base, xs, i), |xs[i].value|)
    && At(img, ValuePos(base, xs, i) + WORD, CString(xs[i].value))
  }

  predicate XattrsAt(img: Bytes, base: nat, xs: seq<Xattr>, n: nat)
    requires n <= |xs|
  {
    forall i :: 0 <= i < n ==> XattrAt(img, base, xs, i)
  }

  /** Row `i` of a directory, without the position of the child. */
  predicate NameAt(img: Bytes, pos: nat, t: Tree, i: nat)
    requires t.Dir? && i < |t.entries|
  {
    && WordAt(img, DataPos(pos, t) + Rows(i), NamePos(pos, t, i))
    && At(img, NamePos(pos, t, i), CString(t.entries[i].name))
  }

  predicate NamesAt(img: Bytes, pos: nat, t: Tree, n: nat)
    requires t.Dir? && n <= |t.entries|
  {
    forall i :: 0 <= i < n ==> NameAt(img, pos, t, i)
  }

  predicate BodyAt(img: Bytes, pos: nat, t: Tree) {
    match t
    case File(_, _, _) => true
    case Link(_, _, target) =>
      && WordAt(img, pos + DATA_OFFSET, DataPos(pos, t))
      && At(img, DataPos(pos, t), CString(target))
    case Dir(_, _, es) =>
      && WordAt(img, pos + DATA_OFFSET, DataPos(pos, t))
      && NamesAt(img, pos, t, |es|)
  }

  /** A node without the positions of its children. */
  predicate HeadAt(img: Bytes, pos: nat, t: Tree) {
    && pos + HeadSize(t) <= |img|
    && NodeAt(img, pos, t)
    && XattrsAt(img, pos + NODE, t.xattrs, |t.xattrs|)
    && BodyAt(img, pos, t)
  }

  /** Where row `i` of a directory stores the position of its child. */
  function LinkPos(pos: nat, t: Tree, i: nat): nat
    requires t.Dir?
  {
    DataPos(pos, t) + Rows(i) + WORD
  }

  /** The image of a tree at `pos`: what the writer must produce and what the reader relies on. */
  predicate Encodes(img: Bytes, pos: nat, t: Tree)
    decreases t
  {
    && pos + Size(t) <= |img|
    && HeadAt(img, pos, t)
    && (t.Dir? ==> forall i :: 0 <= i < |t.entries| ==>
          && WordAt(img, LinkPos(pos, t, i), KidPos(pos, t, i))
          && Encodes(img, KidPos(pos, t, i), t.entries[i].tree))
  }

  /** The first `n` children of a directory are encoded and recorded in its rows. */
  ghost predicate KidsAt(img: Bytes, pos: nat, t: Tree, n: nat)
    requires t.Dir? && n <= |t.entries|
  {
    forall i :: 0 <= i < n ==> KidAt(img, pos, t, i)
  }

  ghost predicate KidAt(img: Bytes, pos: nat, t: Tree, i: nat)
    requires t.Dir? && i < |t.entries|
  {
    && WordAt(img, LinkPos(pos, t, i), KidPos(pos, t, i))
    && Encodes(img, KidPos(pos, t, i), t.entries[i].tree)
  }

  lemma DirEncoded(img: Bytes, pos: nat, t: Tree)
    requires t.Dir? && HeadAt(img, pos, t) && KidsAt(img, pos, t, |t.entries|)
    requires pos + Size(t) <= |img|
    ensures Encodes(img, pos, t)
  {
    forall i | 0 <= i < |t.entries|
      ensures WordAt(img, LinkPos(pos, t, i), KidPos(pos, t, i)) && Encodes(img, KidPos(pos, t, i), t.entries[i].tree)
    {
      assert KidAt(img, pos, t, i);
    }
  }

  lemma RowsInHead(pos: nat, t: Tree, i: nat)
    requires t.Dir? && i < |t.entries|
    ensures DataPos(pos, t) <= LinkPos(pos, t, i) && LinkPos(pos, t, i) + WORD <= NamePos(pos, t, 0)
    ensures NamePos(pos, t, 0) <= pos + HeadSize(t) <= KidPos(pos, t, i)
  {
    NamePosMonotone(pos, t, 0, |t.entries|);
    KidPosMonotone(pos, t, 0, i);
  }

  // ---------------------------------------------------------------- places of file contents

  /** The two words of a file node: `data_offset` and `length`. */
  datatype Place = Place(off: nat, len: nat)

  predicate PlacedAt(img: Bytes, pos: nat, p: Place) {
    WordAt(img, pos + LENGTH, p.len) && WordAt(img, pos + DATA_OFFSET, p.off)
  }

  /** A place is read back from the words of the node. */
  lemma PlaceWords(img: Bytes, pos: nat, at: Place)
    requires PlacedAt(img, pos, at) && at.off < U64 && at.len < U64
    ensures pos + NODE <= |img|
    ensures Word(img, pos + LENGTH) == at.len && Word(img, pos + DATA_OFFSET) == at.off
  {
    ReadWord(img, pos + LENGTH, at.len);
    ReadWord(img, pos + DATA_OFFSET, at.off);
  }

  // ---------------------------------------------------------------- frames

  lemma XattrFrame(a: Bytes, b: Bytes, base: nat, xs: seq<Xattr>, i: nat)
    requires i < |xs| && XattrAt(a, base, xs, i)
    requires base + XattrsSize(xs) <= |b|
    requires forall k :: base + Rows(i) <= k < base + Rows(i) + ENTRY ==> a[k] == b[k]
    requires XattrPos(base, xs, i) + XattrSize(xs[i]) <= |b|
    requires forall k :: XattrPos(base, xs, i) <= k < XattrPos(base, xs, i) + XattrSize(xs[i]) ==> a[k] == b[k]
    ensures XattrAt(b, base, xs, i)
  {
    XattrPosMonotone(base, xs, i, |xs|);
    AtFrame(a, b, base + Rows(i), ToLE(XattrPos(base, xs, i), 8));
    AtFrame(a, b, base + Rows(i) + WORD, ToLE(ValuePos(base, xs, i), 8));
    AtFrame(a, b, XattrPos(base, xs, i), CString(xs[i].name));
    AtFrame(a, b, ValuePos(base, xs, i), ToLE(|xs[i].value|, 8));
    AtFrame(a, b, ValuePos(base, xs, i) + WORD, CString(xs[i].value));
  }

  /** Attributes written so far are kept while row `n` and the strings behind them are written. */
  lemma XattrsKept(a: Bytes, b: Bytes, base: nat, xs: seq<Xattr>, n: nat)
    requires n <= |xs| && XattrsAt(a, base, xs, n)
    requires base + XattrsSize(xs) <= |a| && base + XattrsSize(xs) <= |b|
    requires forall k :: base <= k < base + Rows(n) ==> a[k] == b[k]
    requires XattrPos(base, xs, n) <= |a| && XattrPos(base, xs, n) <= |b|
    requires forall k :: base + Rows(|xs|) <= k < XattrPos(base, xs, n) ==> a[k] == b[k]
    ensures XattrsAt(b, base, xs, n)
  {
    forall j | 0 <= j < n ensures XattrAt(b, base, xs, j) {
      XattrPosMonotone(base, xs, 0, j);
      XattrPosMonotone(base, xs, j, n);
      XattrFrame(a, b, base, xs, j);
    }
  }

  /** The stores that write the attributes of a node. */
  function StatStores(pos: nat, st: Stat): seq<Store> {
    [ Store(pos, ToLE(st.mode, 4)),
      Store(pos + UID, ToLE(st.uid, 4)),
      Store(pos + GID, ToLE(st.gid, 4)),
      Store(pos + SIZE, ToLE(st.size, 8)),
      Store(pos + BLOCKS, ToLE(st.blocks, 8)),
      Store(pos + MTIME, ToLE(NanoSeconds(st.mtime), 8)),
      Store(pos + CTIME, ToLE(NanoSeconds(st.ctime), 8)) ]
  }

  lemma StatStored(a: Bytes, b: Bytes, pos: nat, st: Stat)
    requires Applied(a, b, StatStores(pos, st)) && pos <= |a|
    ensures StatAt(b, pos, st)
    ensures forall k :: 0 <= k < pos ==> a[k] == b[k]
  {
    var ws := StatStores(pos, st);
    assert At(b, ws[0].off, ws[0].bs) && At(b, ws[1].off, ws[1].bs);
    assert At(b, ws[2].off, ws[2].bs) && At(b, ws[3].off, ws[3].bs);
    assert At(b, ws[4].off, ws[4].bs) && At(b, ws[5].off, ws[5].bs);
    assert At(b, ws[6].off, ws[6].bs);
    forall k | 0 <= k < pos ensures a[k] == b[k] {
      assert !Touches(ws, k);
    }
  }

  /** The stores that write attribute `i` of a table at `base`. */
  function XattrStores(base: nat, xs: seq<Xattr>, i: nat): (ws: seq<Store>)
    requires i < |xs|
    ensures |ws| == 5
  {
    var x := xs[i];
    [ Store(base + Rows(i), ToLE(XattrPos(base, xs, i), 8)),
      Store(base + Rows(i) + WORD, ToLE(ValuePos(base, xs, i), 8)),
      Store(XattrPos(base, xs, i), CString(x.name)),
      Store(ValuePos(base, xs, i), ToLE(|x.value|, 8)),
      Store(ValuePos(base, xs, i) + WORD, CString(x.value)) ]
  }

  lemma XattrStoresAscend(base: nat, xs: seq<Xattr>, i: nat, limit: nat)
    requires i < |xs| && base + XattrsSize(xs) <= limit
    ensures Ascending(XattrStores(base, xs, i), limit)
  {
    XattrPosMonotone(base, xs, 0, i);
    XattrPosMonotone(base, xs, i, |xs|);
  }

  lemma XattrStored(a: Bytes, b: Bytes, base: nat, xs: seq<Xattr>, i: nat)
    requires i < |xs| && Applied(a, b, XattrStores(base, xs, i))
    requires base + XattrsSize(xs) <= |a|
    ensures XattrAt(b, base, xs, i)
    ensures forall k :: 0 <= k < base + Rows(i) ==> a[k] == b[k]
    ensures XattrPos(base, xs, i) <= |a|
    ensures forall k :: base + Rows(|xs|) <= k < XattrPos(base, xs, i) ==> a[k] == b[k]
  {
    var ws := XattrStores(base, xs, i);
    XattrPosMonotone(base, xs, 0, i);
    XattrPosMonotone(base, xs, i, |xs|);
    assert At(b, ws[0].off, ws[0].bs) && At(b, ws[1].off, ws[1].bs);
    assert At(b, ws[2].off, ws[2].bs) && At(b, ws[3].off, ws[3].bs);
    assert At(b, ws[4].off, ws[4].bs);
    forall k | 0 <= k < base + Rows(i) || base + Rows(|xs|) <= k < XattrPos(base, xs, i)
      ensures a[k] == b[k]
    {
      assert !Touches(ws, k);
    }
  }

  lemma NameFrame(a: Bytes, b: Bytes, pos: nat, t: Tree, i: nat)
    requires t.Dir? && i < |t.entries| && NameAt(a, pos, t, i)
    requires pos + HeadSize(t) <= |b|
    requires forall k :: DataPos(pos, t) + Rows(i) <= k < DataPos(pos, t) + Rows(i) + WORD ==> a[k] == b[k]
    requires NamePos(pos, t, i) + |t.entries[i].name| + 1 <= |b|
    requires forall k :: NamePos(pos, t, i) <= k < NamePos(pos, t, i) + |t.entries[i].name| + 1 ==> a[k] == b[k]
    ensures NameAt(b, pos, t, i)
  {
    NamePosMonotone(pos, t, i, |t.entries|);
    AtFrame(a, b, DataPos(pos, t) + Rows(i), ToLE(NamePos(pos, t, i), 8));
    AtFrame(a, b, NamePos(pos, t, i), CString(t.entries[i].name));
  }

  /** Names written so far are kept while row `n` and the name behind them are written. */
  lemma NamesKept(a: Bytes, b: Bytes, pos: nat, t: Tree, n: nat)
    requires t.Dir? && n <= |t.entries| && NamesAt(a, pos, t, n)
    requires pos + HeadSize(t) <= |a| && pos + HeadSize(t) <= |b|
    requires NamePos(pos, t, n) <= |a|
    requires forall k :: DataPos(pos, t) <= k < DataPos(pos, t) + Rows(n) ==> a[k] == b[k]
    requires NamePos(pos, t, n) <= |b|
    requires forall k :: NamePos(pos, t, 0) <= k < NamePos(pos, t, n) ==> a[k] == b[k]
    ensures NamesAt(b, pos, t, n)
  {
    forall j | 0 <= j < n ensures NameAt(b, pos, t, j) {
      NamePosMonotone(pos, t, 0, j);
      NamePosMonotone(pos, t, j, n);
      NameFrame(a, b, pos, t, j);
    }
  }

  /** The bytes of a head that are filled later: the placement of a file and the positions of children. */
  predicate Loose(pos: nat, t: Tree, k: nat) {
    || (t.File? && pos + LENGTH <= k < pos + NODE)
    || (t.Dir? && DataPos(pos, t) <= k < DataPos(pos, t) + Rows(|t.entries|) && (k - DataPos(pos, t)) % 16 >= 8)
  }

  lemma StatFrame(a: Bytes, b: Bytes, pos: nat, st: Stat)
    requires StatAt(a, pos, st) && pos + LENGTH <= |b|
    requires forall k :: pos <= k < pos + XATTRS_COUNT ==> a[k] == b[k]
    ensures StatAt(b, pos, st)
  {
    AtFrame(a, b, pos, ToLE(st.mode, 4));
    AtFrame(a, b, pos + UID, ToLE(st.uid, 4));
    AtFrame(a, b, pos + GID, ToLE(st.gid, 4));
    AtFrame(a, b, pos + SIZE, ToLE(st.size, 8));
    AtFrame(a, b, pos + BLOCKS, ToLE(st.blocks, 8));
    AtFrame(a, b, pos + MTIME, ToLE(NanoSeconds(st.mtime), 8));
    AtFrame(a, b, pos + CTIME, ToLE(NanoSeconds(st.ctime), 8));
  }

  lemma NodeFrame(a: Bytes, b: Bytes, pos: nat, t: Tree)
    requires NodeAt(a, pos, t) && pos + NODE <= |a| && pos + NODE <= |b|
    requires forall k :: pos <= k < pos + LENGTH ==> a[k] == b[k]
    requires t.Dir? ==> forall k :: pos + LENGTH <= k < pos + DATA_OFFSET ==> a[k] == b[k]
    ensures NodeAt(b, pos, t)
  {
    StatFrame(a, b, pos, t.st);
    AtFrame(a, b, pos + XATTRS_COUNT, ToLE(|t.xattrs|, 4));
    if t.Dir? {
      AtFrame(a, b, pos + LENGTH, ToLE(|t.entries|, 8));
    }
  }

  lemma NameKept(a: Bytes, b: Bytes, pos: nat, t: Tree, i: nat)
    requires t.Dir? && i < |t.entries| && NameAt(a, pos, t, i)
    requires pos + HeadSize(t) <= |a| && pos + HeadSize(t) <= |b|
    requires forall k :: pos <= k < pos + HeadSize(t) && !Loose(pos, t, k) ==> a[k] == b[k]
    ensures NameAt(b, pos, t, i)
  {
    NamePosMonotone(pos, t, 0, i);
    NamePosMonotone(pos, t, i, |t.entries|);
    var row := DataPos(pos, t) + Rows(i);
    forall k | row <= k < row + WORD ensures a[k] == b[k] {
      assert k - DataPos(pos, t) == 16 * i + (k - row);
      assert (k - DataPos(pos, t)) % 16 == k - row;
      assert !Loose(pos, t, k);
    }
    NameFrame(a, b, pos, t, i);
  }

  lemma BodyFrame(a: Bytes, b: Bytes, pos: nat, t: Tree)
    requires BodyAt(a, pos, t)
    requires pos + HeadSize(t) <= |a| && pos + HeadSize(t) <= |b|
    requires forall k :: pos <= k < pos + HeadSize(t) && !Loose(pos, t, k) ==> a[k] == b[k]
    ensures BodyAt(b, pos, t)
  {
    match t
    case File(_, _, _) =>
    case Link(_, _, target) =>
      AtFrame(a, b, pos + DATA_OFFSET, ToLE(DataPos(pos, t), 8));
      AtFrame(a, b, DataPos(pos, t), CString(target));
    case Dir(_, _, es) =>
      AtFrame(a, b, pos + DATA_OFFSET, ToLE(DataPos(pos, t), 8));
      forall i | 0 <= i < |es| ensures NameAt(b, pos, t, i) {
        NameKept(a, b, pos, t, i);
      }
  }

  /** A head is kept by any change that touches only its loose bytes. */
  lemma HeadFrame(a: Bytes, b: Bytes, pos: nat, t: Tree)
    requires HeadAt(a, pos, t)
    requires pos + HeadSize(t) <= |b|
    requires forall k :: pos <= k < pos + HeadSize(t) && !Loose(pos, t, k) ==> a[k] == b[k]
    ensures HeadAt(b, pos, t)
  {
    NodeFrame(a, b, pos, t);
    XattrsFrame(a, b, pos + NODE, t.xattrs);
    BodyFrame(a, b, pos, t);
  }

  lemma XattrsFrame(a: Bytes, b: Bytes, base: nat, xs: seq<Xattr>)
    requires XattrsAt(a, base, xs, |xs|) && base + XattrsSize(xs) <= |a| && base + XattrsSize(xs) <= |b|
    requires forall k :: base <= k < base + XattrsSize(xs) ==> a[k] == b[k]
    ensures XattrsAt(b, base, xs, |xs|)
  {
    forall i | 0 <= i < |xs| ensures XattrAt(b, base, xs, i) {
      XattrPosMonotone(base, xs, 0, i);
      XattrPosMonotone(base, xs, i, |xs|);
      XattrFrame(a, b, base, xs, i);
    }
  }

  /** The bytes where the placements of the files of a tree are recorded. */
  ghost predicate Placement(pos: nat, t: Tree, k: nat)
    decreases t
  {
    match t
    case File(_, _, _) => pos + LENGTH <= k < pos + NODE
    case Link(_, _, _) => false
    case Dir(_, _, es) => exists i :: 0 <= i < |es| && Placement(KidPos(pos, t, i), es[i].tree, k)
  }

  lemma {:induction false} PlacementRange(pos: nat, t: Tree, k: nat)
    requires Placement(pos, t, k)
    ensures pos <= k < pos + Size(t)
    ensures t.Dir? ==> pos + HeadSize(t) <= k
    decreases t
  {
    if t.Dir? {
      var i :| 0 <= i < |t.entries| && Placement(KidPos(pos, t, i), t.entries[i].tree, k);
      PlacementRange(KidPos(pos, t, i), t.entries[i].tree, k);
      KidPosMonotone(pos, t, 0, i);
      KidPosMonotone(pos, t, i, |t.entries|);
    }
  }

  lemma KidsDisjoint(pos: nat, t: Tree, i: nat, j: nat, k: nat)
    requires t.Dir? && i < |t.entries| && j < |t.entries|
    requires KidPos(pos, t, i) <= k < KidPos(pos, t, i) + Size(t.entries[i].tree)
    requires KidPos(pos, t, j) <= k < KidPos(pos, t, j) + Size(t.entries[j].tree)
    ensures i == j
  {
    if j < i {
      KidPosMonotone(pos, t, j, i);
    } else if i < j {
      KidPosMonotone(pos, t, i, j);
    }
  }

  /** A byte inside child `i` that records a placement of the directory records one of that child. */
  lemma PlacementOfKid(pos: nat, t: Tree, i: nat, k: nat)
    requires t.Dir? && i < |t.entries|
    requires KidPos(pos, t, i) <= k < KidPos(pos, t, i) + Size(t.entries[i].tree)
    requires Placement(pos, t, k)
    ensures Placement(KidPos(pos, t, i), t.entries[i].tree, k)
  {
    var j :| 0 <= j < |t.entries| && Placement(KidPos(pos, t, j), t.entries[j].tree, k);
    PlacementRange(KidPos(pos, t, j), t.entries[j].tree, k);
    KidsDisjoint(pos, t, i, j, k);
  }

  /** A change that touches only placements. */
  ghost predicate OnlyPlacements(a: Bytes, b: Bytes, pos: nat, t: Tree) {
    && pos + Size(t) <= |a| && pos + Size(t) <= |b|
    && forall k :: pos <= k < pos + Size(t) && !Placement(pos, t, k) ==> a[k] == b[k]
  }

  lemma OnlyPlacementsHead(a: Bytes, b: Bytes, pos: nat, t: Tree)
    requires OnlyPlacements(a, b, pos, t)
    ensures forall k :: pos <= k < pos + HeadSize(t) && !Loose(pos, t, k) ==> a[k] == b[k]
    ensures t.Dir? ==> forall k :: pos <= k < pos + HeadSize(t) ==> a[k] == b[k]
  {
    forall k | pos <= k < pos + HeadSize(t) && (t.Dir? || !Loose(pos, t, k)) ensures a[k] == b[k] {
      if Placement(pos, t, k) {
        PlacementRange(pos, t, k);
      }
    }
  }

  lemma OnlyPlacementsKid(a: Bytes, b: Bytes, pos: nat, t: Tree, i: nat)
    requires OnlyPlacements(a, b, pos, t) && t.Dir? && i < |t.entries|
    ensures OnlyPlacements(a, b, KidPos(pos, t, i), t.entries[i].tree)
  {
    var q, c := KidPos(pos, t, i), t.entries[i].tree;
    KidPosMonotone(pos, t, 0, i);
    KidPosMonotone(pos, t, i, |t.entries|);
    forall k | q <= k < q + Size(c) && !Placement(q, c, k) ensures a[k] == b[k] {
      if Placement(pos, t, k) {
        PlacementOfKid(pos, t, i, k);
      }
    }
  }

  /** An image is kept by any change that touches only placements. */
  lemma {:induction false} EncodesFrame(a: Bytes, b: Bytes, pos: nat, t: Tree)
    requires Encodes(a, pos, t) && OnlyPlacements(a, b, pos, t)
    ensures Encodes(b, pos, t)
    decreases t, 1
  {
    OnlyPlacementsHead(a, b, pos, t);
    HeadFrame(a, b, pos, t);
    if t.Dir? {
      forall i | 0 <= i < |t.entries| ensures KidAt(b, pos, t, i) {
        EncodesFrameKid(a, b, pos, t, i);
      }
      DirEncoded(b, pos, t);
    }
  }

  lemma {:induction false} EncodesFrameKid(a: Bytes, b: Bytes, pos: nat, t: Tree, i: nat)
    requires t.Dir? && i < |t.entries|
    requires KidAt(a, pos, t, i) && OnlyPlacements(a, b, pos, t)
    ensures KidAt(b, pos, t, i)
    decreases t, 0
  {
    OnlyPlacementsKid(a, b, pos, t, i);
    EncodesFrame(a, b, KidPos(pos, t, i), t.entries[i].tree);
    OnlyPlacementsHead(a, b, pos, t);
    RowsInHead(pos, t, i);
    KidPosMonotone(pos, t, i, |t.entries|);
    AtFrame(a, b, LinkPos(pos, t, i), ToLE(KidPos(pos, t, i), 8));
  }

  // ---------------------------------------------------------------- nodes inside a tree

  /** Where the node at the end of a chain of indices lies. */
  ghost function PosOf(pos: nat, t: Tree, path: seq<nat>): nat
    requires ValidPath(t, path)
    decreases |path|
  {
    if |path| == 0 then pos
    else PosOf(KidPos(pos, t, path[0]), t.entries[path[0]].tree, path[1..])
  }

  /** Every node of an encoded tree is itself encoded, inside the image of the tree. */
  lemma {:induction false} EncodesSub(img: Bytes, pos: nat, t: Tree, path: seq<nat>)
    requires Encodes(img, pos, t) && ValidPath(t, path)
    ensures Encodes(img, PosOf(pos, t, path), Sub(t, path))
    ensures pos <= PosOf(pos, t, path)
    ensures PosOf(pos, t, path) + Size(Sub(t, path)) <= pos + Size(t)
    decreases |path|
  {
    if |path| > 0 {
      var i := path[0];
      EncodesSub(img, KidPos(pos, t, i), t.entries[i].tree, path[1..]);
      KidPosMonotone(pos, t, 0, i);
      KidPosMonotone(pos, t, i, |t.entries|);
    }
  }

  lemma {:induction false} ExtendPos(pos: nat, t: Tree, path: seq<nat>, i: nat)
    requires ValidPath(t, path) && Sub(t, path).Dir? && i < |Sub(t, path).entries|
    requires ValidPath(t, path + [i])
    ensures PosOf(pos, t, path + [i]) == KidPos(PosOf(pos, t, path), Sub(t, path), i)
    decreases |path|
  {
    if |path| == 0 {
      assert (path + [i])[1..] == [];
    } else {
      assert (path + [i])[1..] == path[1..] + [i];
      ExtendPos(KidPos(pos, t, path[0]), t.entries[path[0]].tree, path[1..], i);
    }
  }

  /** The placement fields of a file of the tree are placements of the tree. */
  lemma {:induction false} PlacementAt(pos: nat, t: Tree, path: seq<nat>, k: nat)
    requires ValidPath(t, path) && Sub(t, path).File?
    requires PosOf(pos, t, path) + LENGTH <= k < PosOf(pos, t, path) + NODE
    ensures Placement(pos, t, k)
    decreases |path|
  {
    if |path| > 0 {
      PlacementAt(KidPos(pos, t, path[0]), t.entries[path[0]].tree, path[1..], k);
    }
  }

  // ---------------------------------------------------------------- the heads of all nodes tile the image

  lemma {:induction false} PosWithin(pos: nat, t: Tree, path: seq<nat>)
    requires ValidPath(t, path)
    ensures pos <= PosOf(pos, t, path)
    ensures PosOf(pos, t, path) + Size(Sub(t, path)) <= pos + Size(t)
    ensures |path| > 0 ==> pos + HeadSize(t) <= PosOf(pos, t, path)
    decreases |path|
  {
    if |path| > 0 {
      var i := path[0];
      PosWithin(KidPos(pos, t, i), t.entries[i].tree, path[1..]);
      KidPosMonotone(pos, t, 0, i);
      KidPosMonotone(pos, t, i, |t.entries|);
    }
  }

  /** A byte of the head of a node: its fields, tables and strings, without its children. */
  ghost predicate InHead(pos: nat, t: Tree, path: seq<nat>, k: nat)
    requires ValidPath(t, path)
  {
    PosOf(pos, t, path) <= k < PosOf(pos, t, path) + HeadSize(Sub(t, path))
  }

  /** The heads of different nodes do not overlap. */
  lemma {:induction false} HeadsApart(pos: nat, t: Tree, p: seq<nat>, q: seq<nat>)
    requires ValidPath(t, p) && ValidPath(t, q) && p != q
    ensures PosOf(pos, t, p) + HeadSize(Sub(t, p)) <= PosOf(pos, t, q) ||
            PosOf(pos, t, q) + HeadSize(Sub(t, q)) <= PosOf(pos, t, p)
    decreases |p|
  {
    PosWithin(pos, t, p);
    PosWithin(pos, t, q);
    if |p| > 0 && |q| > 0 {
      var i, j := p[0], q[0];
      if i == j {
        assert p == [i] + p[1..] && q == [i] + q[1..];
        HeadsApart(KidPos(pos, t, i), t.entries[i].tree, p[1..], q[1..]);
      } else {
        SubtreesApart(pos, t, p, q);
      }
    }
  }

  lemma SubtreesApart(pos: nat, t: Tree, p: seq<nat>, q: seq<nat>)
    requires ValidPath(t, p) && ValidPath(t, q) && |p| > 0 && |q| > 0 && p[0] != q[0]
    ensures PosOf(pos, t, p) + Size(Sub(t, p)) <= PosOf(pos, t, q) ||
            PosOf(pos, t, q) + Size(Sub(t, q)) <= PosOf(pos, t, p)
  {
    var i, j := p[0], q[0];
    PosWithin(KidPos(pos, t, i), t.entries[i].tree, p[1..]);
    PosWithin(KidPos(pos, t, j), t.entries[j].tree, q[1..]);
    if i < j {
      KidPosMonotone(pos, t, i, j);
    } else {
      KidPosMonotone(pos, t, j, i);
    }
  }

  /** The child whose image holds a byte behind the head. */
  lemma {:induction false} KidAround(pos: nat, t: Tree, n: nat, k: nat) returns (i: nat)
    requires t.Dir? && n <= |t.entries| && pos + HeadSize(t) <= k < KidPos(pos, t, n)
    ensures i < n && KidPos(pos, t, i) <= k < KidPos(pos, t, i) + Size(t.entries[i].tree)
  {
    if k >= KidPos(pos, t, n - 1) {
      i := n - 1;
    } else {
      i := KidAround(pos, t, n - 1, k);
    }
  }

  /** Every byte of the image of a tree belongs to the head of exactly one node. */
  lemma {:induction false} ByteOwner(pos: nat, t: Tree, k: nat) returns (path: seq<nat>)
    requires pos <= k < pos + Size(t)
    ensures ValidPath(t, path) && InHead(pos, t, path, k)
    ensures forall q :: ValidPath(t, q) && InHead(pos, t, q, k) ==> q == path
    decreases t
  {
    if k < pos + HeadSize(t) {
      path := [];
    } else {
      var i := KidAround(pos, t, |t.entries|, k);
      var rest := ByteOwner(KidPos(pos, t, i), t.entries[i].tree, k);
      path := [i] + rest;
      assert path[1..] == rest;
    }
    forall q | ValidPath(t, q) && InHead(pos, t, q, k) ensures q == path {
      if q != path {
        HeadsApart(pos, t, path, q);
      }
    }
  }
}
