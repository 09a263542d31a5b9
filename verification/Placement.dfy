/**
 Where file contents go: the state of the breadth-first placement of files behind the
 image, and what one step of it changes.
 */
module Placement {
  import opened Prelude
  import opened ByteImage
  import opened SourceTree
  import opened Image
  import opened PathResolution
  import opened WorkQueue
  import opened FlatDisk

  /** Opens `Walked`. */
  ghost predicate OpenWalk(k: int) {
    true
  }

  /** Opens `FilledWith`. */
  ghost predicate OpenFilled(k: int) {
    true
  }

  /** Opens `Laid`. */
  ghost predicate OpenLaid(k: int) {
    true
  }

  /** Opens `WrittenAll`. */
  ghost predicate OpenWritten(k: int) {
    true
  }

  // ---------------------------------------------------------------- places

  // What a file that could not be read gets: -1 as an unsigned word, and no bytes.
  const NOWHERE := Place(0xFFFF_FFFF_FFFF_FFFF, 0)

  ghost predicate Files(root: Tree, visited: seq<seq<nat>>) {
    forall k :: 0 <= k < |visited| ==> FilePath(root, visited[k])
  }

  /** The contents of visited files, one behind the other. */
  ghost function Contents(root: Tree, visited: seq<seq<nat>>): Bytes
    requires Files(root, visited)
  {
    if |visited| == 0 then []
    else Contents(root, visited[..|visited| - 1]) + BytesOf(Sub(root, visited[|visited| - 1]).content)
  }

  /** The place of a file that is visited after the files `before`. */
  ghost function NextPlace(root: Tree, before: seq<seq<nat>>, q: seq<nat>): Place
    requires Files(root, before) && FilePath(root, q)
  {
    PlaceFor(Sub(root, q).content, WORD + Size(root) + |Contents(root, before)|)
  }

  function PlaceFor(content: Content, off: nat): Place {
    match content
    case Readable(bytes) => Place(off, |bytes|)
    case _ => NOWHERE
  }

  /** The visited files have their places in the image. */
  ghost predicate Placed(img: Bytes, root: Tree, visited: seq<seq<nat>>) {
    && Files(root, visited)
    && forall k :: 0 <= k < |visited| ==>
         PlacedAt(img, PosOf(WORD, root, visited[k]), NextPlace(root, visited[..k], visited[k]))
  }

  /** The image after a place is stored in the node at `pos`. */
  ghost predicate PlaceStep(a: Bytes, c: Bytes, pos: nat, p: Place) {
    && |a| == |c| && PlacedAt(c, pos, p)
    && forall k :: 0 <= k < |a| && !(pos + LENGTH <= k < pos + NODE) ==> a[k] == c[k]
  }

  /** An image that starts with its own length and holds the tree. */
  ghost predicate Imaged(img: Bytes, root: Tree) {
    Holds(img, WORD, root) && WordAt(img, 0, |img|) && |img| == WORD + Size(root)
  }

  /** A place is stored where the tree keeps placements. */
  lemma StepInPlace(a: Bytes, c: Bytes, root: Tree, q: seq<nat>, p: Place)
    requires WORD + Size(root) <= |a| && FilePath(root, q) && PlaceStep(a, c, PosOf(WORD, root, q), p)
    ensures OnlyPlacements(a, c, WORD, root)
    ensures forall k :: 0 <= k < WORD ==> a[k] == c[k]
  {
    PosWithin(WORD, root, q);
    forall k | WORD <= k < WORD + Size(root) && !Placement(WORD, root, k) ensures a[k] == c[k] {
      if PosOf(WORD, root, q) + LENGTH <= k < PosOf(WORD, root, q) + NODE {
        PlacementAt(WORD, root, q, k);
      }
    }
  }

  /** A place of one file leaves the image and the places of other files as they are. */
  lemma StepKeepsImage(a: Bytes, c: Bytes, root: Tree, q: seq<nat>, p: Place)
    requires Imaged(a, root) && FilePath(root, q) && PlaceStep(a, c, PosOf(WORD, root, q), p)
    ensures Imaged(c, root)
  {
    StepInPlace(a, c, root, q, p);
    HoldsKept(a, c, WORD, root);
    AtFrame(a, c, 0, ToLE(|a|, 8));
  }

  lemma HoldsKept(a: Bytes, c: Bytes, pos: nat, t: Tree)
    requires Holds(a, pos, t) && OnlyPlacements(a, c, pos, t) && |c| <= |a|
    ensures Holds(c, pos, t)
  {
    assert OpenTree(0);
    EncodesFrame(a, c, pos, t);
  }

  lemma PlaceKept(a: Bytes, c: Bytes, pos: nat, p: Place, other: nat, prev: Place)
    requires PlaceStep(a, c, pos, p) && PlacedAt(a, other, prev)
    requires other + NODE <= pos || pos + NODE <= other
    ensures PlacedAt(c, other, prev)
  {
    AtFrame(a, c, other + LENGTH, ToLE(prev.len, 8));
    AtFrame(a, c, other + DATA_OFFSET, ToLE(prev.off, 8));
  }

  lemma StepKeepsPlace(a: Bytes, c: Bytes, root: Tree, q: seq<nat>, p: Place, r: seq<nat>, prev: Place)
    requires FilePath(root, q) && PlaceStep(a, c, PosOf(WORD, root, q), p)
    requires FilePath(root, r) && r != q && PlacedAt(a, PosOf(WORD, root, r), prev)
    ensures PlacedAt(c, PosOf(WORD, root, r), prev)
  {
    HeadsApart(WORD, root, r, q);
    PlaceKept(a, c, PosOf(WORD, root, q), p, PosOf(WORD, root, r), prev);
  }

  lemma PlacedMore(a: Bytes, c: Bytes, root: Tree, visited: seq<seq<nat>>, q: seq<nat>)
    requires Placed(a, root, visited) && FilePath(root, q) && q !in visited
    requires PlaceStep(a, c, PosOf(WORD, root, q), NextPlace(root, visited, q))
    ensures Placed(c, root, visited + [q])
  {
    var vs := visited + [q];
    forall k | 0 <= k < |vs|
      ensures FilePath(root, vs[k])
    {
      if k < |visited| {
        assert vs[k] == visited[k];
      }
    }
    forall k | 0 <= k < |vs|
      ensures Files(root, vs[..k]) && PlacedAt(c, PosOf(WORD, root, vs[k]), NextPlace(root, vs[..k], vs[k]))
    {
      if k < |visited| {
        assert vs[k] == visited[k] && vs[..k] == visited[..k];
        StepKeepsPlace(a, c, root, q, NextPlace(root, visited, q), vs[k], NextPlace(root, vs[..k], vs[k]));
      } else {
        assert vs[..k] == visited;
      }
    }
  }

  lemma ContentsMore(root: Tree, visited: seq<seq<nat>>, q: seq<nat>)
    requires Files(root, visited) && FilePath(root, q)
    ensures Files(root, visited + [q])
    ensures Contents(root, visited + [q]) == Contents(root, visited) + BytesOf(Sub(root, q).content)
  {
    assert (visited + [q])[..|visited|] == visited;
  }

  /** The contents of all files, in the order in which they are placed. */
  ghost function AllContents(root: Tree): Bytes {
    Contents(root, BfsOrder(root))
  }

  /** Opens `IsAll`. */
  ghost predicate OpenAll(k: int) {
    true
  }

  /** The contents of all files of a tree; a closed definition. */
  ghost predicate IsAll(root: Tree, data: Bytes) {
    forall k: int {:trigger OpenAll(k)} :: OpenAll(k) ==> data == AllContents(root)
  }

  lemma AllUnique(root: Tree, data: Bytes, other: Bytes)
    requires IsAll(root, data) && IsAll(root, other)
    ensures data == other
  {
    assert OpenAll(0);
  }

  lemma TheContents(root: Tree) returns (data: Bytes)
    ensures IsAll(root, data)
  {
    data := AllContents(root);
  }

  lemma {:induction false} ContentsPrefix(root: Tree, a: seq<seq<nat>>, b: seq<seq<nat>>)
    requires Files(root, a) && Files(root, b) && a <= b
    ensures Contents(root, a) <= Contents(root, b)
    decreases |b|
  {
    if |a| < |b| {
      ContentsPrefix(root, a, b[..|b| - 1]);
    } else {
      assert a == b;
    }
  }

  /** The next file's content comes next in all contents. */
  lemma FileTurn(root: Tree, data: Bytes, waiting: seq<seq<nat>>, visited: seq<seq<nat>>)
    requires |waiting| > 0 && OnOrder(root, waiting, visited) && Files(root, visited) && FilePath(root, waiting[0])
    requires IsAll(root, data)
    ensures var bs := BytesOf(Sub(root, waiting[0]).content);
      && Files(root, visited + [waiting[0]])
      && Contents(root, visited + [waiting[0]]) == Contents(root, visited) + bs <= data
  {
    assert OpenAll(0);
    OrderStep(root, waiting, visited);
    OrderPrefix(root, Rest(root, waiting), visited + [waiting[0]]);
    ContentsMore(root, visited, waiting[0]);
    ContentsPrefix(root, visited + [waiting[0]], BfsOrder(root));
  }

  /** When nothing waits any more, all contents were visited. */
  lemma LastTurn(root: Tree, data: Bytes, waiting: seq<seq<nat>>, order: seq<seq<nat>>)
    requires |waiting| == 0 && OnOrder(root, waiting, order) && Files(root, order) && IsAll(root, data)
    ensures order == BfsOrder(root) && Contents(root, order) == data
  {
    assert OpenAll(0);
    OrderEnd(root, waiting, order);
  }

  // ---------------------------------------------------------------- the queue

  /** An element of the work queue: the offset of a node and the path of its source. */
  datatype Pending = Pending(pos: nat, path: Bytes)

  ghost function Item(root: Tree, rootPath: Bytes, q: seq<nat>): Pending
    requires ValidPath(root, q)
  {
    Pending(PosOf(WORD, root, q), rootPath + PathName(root, q))
  }

  /** The queue lists the waiting nodes. */
  ghost predicate Queued(root: Tree, rootPath: Bytes, queue: seq<Pending>, waiting: seq<seq<nat>>) {
    && |queue| == |waiting|
    && forall i :: 0 <= i < |waiting| ==>
         ValidPath(root, waiting[i]) && queue[i] == Item(root, rootPath, waiting[i])
  }

  /** What opening a path of the source gives. */
  function OpenFile(fs: Tree, rootPath: Bytes, path: Bytes): Content {
    if rootPath <= path then
      match Lookup(fs, path[|rootPath|..])
      case None => Missing
      case Some(p) => (match Sub(fs, p) case File(_, _, content) => content case _ => Missing)
    else Missing
  }

  lemma OpensItem(fs: Tree, rootPath: Bytes, q: seq<nat>)
    requires WellFormed(fs) && FilePath(fs, q)
    ensures OpenFile(fs, rootPath, Item(fs, rootPath, q).path) == Sub(fs, q).content
  {
    PathNameFound(fs, q);
    assert (rootPath + PathName(fs, q))[|rootPath|..] == PathName(fs, q);
  }

  lemma HoldsSub(img: Bytes, pos: nat, root: Tree, q: seq<nat>)
    requires Holds(img, pos, root) && ValidPath(root, q)
    ensures Holds(img, PosOf(pos, root, q), Sub(root, q))
  {
    HoldsContent(img, pos, root);
    HoldsContent(img, PosOf(pos, root, q), Sub(root, q));
    EncodesSub(img, pos, root, q);
    SubWellFormed(root, q);
  }

  /** The element of the queue for a directory row. */
  function PendingOf(img: Bytes, path: Bytes, row: nat): Pending
    requires row + ENTRY <= |img|
  {
    Pending(Word(img, row + WORD), path + [SLASH] + StringAt(img, Word(img, row)))
  }

  /** Row `i` of a directory node leads to child `i`, under its name. */
  lemma KidItem(img: Bytes, root: Tree, rootPath: Bytes, q: seq<nat>, i: nat, row: nat)
    requires Holds(img, WORD, root) && ValidPath(root, q) && Sub(root, q).Dir? && i < |Sub(root, q).entries|
    requires row == DataPos(PosOf(WORD, root, q), Sub(root, q)) + Rows(i)
    ensures row + ENTRY <= |img|
    ensures ValidPath(root, q + [i])
    ensures PendingOf(img, Item(root, rootPath, q).path, row) == Item(root, rootPath, q + [i])
  {
    HoldsSub(img, WORD, root, q);
    KidRow(img, PosOf(WORD, root, q), Sub(root, q), i);
    ItemOfKid(root, rootPath, q, i);
  }

  lemma ItemOfKid(root: Tree, rootPath: Bytes, q: seq<nat>, i: nat)
    requires ValidPath(root, q) && Sub(root, q).Dir? && i < |Sub(root, q).entries|
    ensures ValidPath(root, q + [i])
    ensures Item(root, rootPath, q + [i]) ==
      Pending(KidPos(PosOf(WORD, root, q), Sub(root, q), i),
              Item(root, rootPath, q).path + [SLASH] + Sub(root, q).entries[i].name)
  {
    ExtendPath(root, q, i);
    ExtendPos(WORD, root, q, i);
    var name := Sub(root, q).entries[i].name;
    assert rootPath + PathName(root, q) + [SLASH] + name == rootPath + (PathName(root, q) + [SLASH] + name);
  }

  /** A directory row: the position of the child, and the name it refers to. */
  ghost predicate RowOf(img: Bytes, row: nat, kid: nat, name: Bytes) {
    && row + ENTRY <= |img|
    && Word(img, row + WORD) == kid
    && StringAt(img, Word(img, row)) == name
  }

  lemma KidRow(img: Bytes, pos: nat, t: Tree, i: nat)
    requires Holds(img, pos, t) && t.Dir? && i < |t.entries|
    ensures RowOf(img, DataPos(pos, t) + Rows(i), KidPos(pos, t, i), t.entries[i].name)
  {
    DirRowHeld(img, pos, t, i);
    StringRead(img, Word(img, DataPos(pos, t) + Rows(i)), t.entries[i].name);
  }

  // ---------------------------------------------------------------- the state of the walk

  /** The bytes placed and the bytes that wait are all bytes of the tree. */
  ghost predicate Conserved(root: Tree, waiting: seq<seq<nat>>, visited: seq<seq<nat>>) {
    && (forall i :: 0 <= i < |waiting| ==> ValidPath(root, waiting[i]))
    && Files(root, visited)
    && |Contents(root, visited)| + Waiting(FileBytes, root, waiting) == FileBytes(root)
  }

  /** The state of the placement; a closed definition. */
  ghost predicate Walked(
      img: Bytes, root: Tree, rootPath: Bytes, queue: seq<Pending>, waiting: seq<seq<nat>>, visited: seq<seq<nat>>) {
    forall k: int {:trigger OpenWalk(k)} :: OpenWalk(k) ==>
      && Imaged(img, root)
      && Walk(root, waiting, visited)
      && Queued(root, rootPath, queue, waiting)
      && Placed(img, root, visited)
      && Conserved(root, waiting, visited)
  }

  lemma WalkedStart(img: Bytes, root: Tree, rootPath: Bytes)
    requires Imaged(img, root)
    ensures Walked(img, root, rootPath, [Pending(WORD, rootPath)], [[]], [])
  {
    WalkStart(root);
    assert rootPath + PathName(root, []) == rootPath;
    var first: seq<seq<nat>> := [[]];
    assert first[..0] == [];
    assert Waiting(FileBytes, root, first) == FileBytes(root);
  }

  /** What the first element of the queue is. */
  lemma WalkedFirst(
      img: Bytes, root: Tree, rootPath: Bytes, queue: seq<Pending>, waiting: seq<seq<nat>>, visited: seq<seq<nat>>)
    requires Walked(img, root, rootPath, queue, waiting, visited) && |queue| > 0
    ensures |waiting| == |queue| && ValidPath(root, waiting[0]) && queue[0] == Item(root, rootPath, waiting[0])
    ensures Holds(img, WORD, root) && WellFormed(root) && Holds(img, queue[0].pos, Sub(root, waiting[0]))
    ensures queue[0].pos + NODE <= |img|
  {
    assert OpenWalk(0);
    HoldsContent(img, WORD, root);
    HoldsSub(img, WORD, root, waiting[0]);
    PosWithin(WORD, root, waiting[0]);
  }

  lemma WalkedRoom(
      img: Bytes, root: Tree, rootPath: Bytes, queue: seq<Pending>, waiting: seq<seq<nat>>, visited: seq<seq<nat>>)
    requires Walked(img, root, rootPath, queue, waiting, visited) && |waiting| > 0
    ensures ValidPath(root, waiting[0]) && Files(root, visited)
    ensures |Contents(root, visited)| + FileBytes(Sub(root, waiting[0])) <= FileBytes(root)
  {
    assert OpenWalk(0);
    WaitingPop(FileBytes, root, waiting);
  }

  lemma QueuedRest(root: Tree, rootPath: Bytes, queue: seq<Pending>, waiting: seq<seq<nat>>)
    requires Queued(root, rootPath, queue, waiting) && |queue| > 0
    ensures Queued(root, rootPath, queue[1..], waiting[1..])
  {
  }

  lemma ConservedFile(root: Tree, waiting: seq<seq<nat>>, visited: seq<seq<nat>>)
    requires Conserved(root, waiting, visited) && |waiting| > 0 && FilePath(root, waiting[0])
    ensures Conserved(root, waiting[1..], visited + [waiting[0]])
  {
    WaitingPop(FileBytes, root, waiting);
    ContentsMore(root, visited, waiting[0]);
  }

  lemma WalkedFile(
      a: Bytes, c: Bytes, root: Tree, rootPath: Bytes, queue: seq<Pending>, waiting: seq<seq<nat>>,
      visited: seq<seq<nat>>)
    requires Walked(a, root, rootPath, queue, waiting, visited) && |queue| == |waiting| > 0
    requires Files(root, visited) && FilePath(root, waiting[0])
    requires PlaceStep(a, c, PosOf(WORD, root, waiting[0]), NextPlace(root, visited, waiting[0]))
    ensures Walked(c, root, rootPath, queue[1..], waiting[1..], visited + [waiting[0]])
  {
    assert OpenWalk(0);
    var q := waiting[0];
    QueuedRest(root, rootPath, queue, waiting);
    VisitFile(root, waiting, visited);
    PlacedMore(a, c, root, visited, q);
    StepKeepsImage(a, c, root, q, NextPlace(root, visited, q));
    ConservedFile(root, waiting, visited);
  }

  lemma ConservedLink(root: Tree, waiting: seq<seq<nat>>, visited: seq<seq<nat>>)
    requires Conserved(root, waiting, visited) && |waiting| > 0 && Sub(root, waiting[0]).Link?
    ensures Conserved(root, waiting[1..], visited)
  {
    WaitingPop(FileBytes, root, waiting);
  }

  lemma WalkedLink(
      a: Bytes, root: Tree, rootPath: Bytes, queue: seq<Pending>, waiting: seq<seq<nat>>, visited: seq<seq<nat>>)
    requires Walked(a, root, rootPath, queue, waiting, visited) && |queue| == |waiting| > 0
    requires ValidPath(root, waiting[0]) && Sub(root, waiting[0]).Link?
    ensures Walked(a, root, rootPath, queue[1..], waiting[1..], visited)
  {
    assert OpenWalk(0);
    QueuedRest(root, rootPath, queue, waiting);
    SkipLink(root, waiting, visited);
    ConservedLink(root, waiting, visited);
  }

  /** The kind of the node at the head of the queue, as the image shows it. */
  lemma HeadKind(
      img: Bytes, root: Tree, rootPath: Bytes, queue: seq<Pending>, waiting: seq<seq<nat>>, visited: seq<seq<nat>>)
    requires Walked(img, root, rootPath, queue, waiting, visited) && |queue| > 0
    ensures |waiting| == |queue| && ValidPath(root, waiting[0]) && queue[0].pos + NODE <= |img|
    ensures IsReg(Half(img, queue[0].pos)) <==> Sub(root, waiting[0]).File?
    ensures IsDir(Half(img, queue[0].pos)) <==> Sub(root, waiting[0]).Dir?
  {
    WalkedFirst(img, root, rootPath, queue, waiting, visited);
    NodeFields(img, queue[0].pos, Sub(root, waiting[0]));
  }

  ghost predicate KidItems(root: Tree, rootPath: Bytes, q: seq<nat>, n: nat, kids: seq<Pending>) {
    |kids| == n && forall k: nat :: k < n ==> ValidPath(root, q + [k]) && kids[k] == Item(root, rootPath, q + [k])
  }

  lemma KidItemNext(img: Bytes, root: Tree, rootPath: Bytes, q: seq<nat>, i: nat, row: nat, kids: seq<Pending>)
    requires Holds(img, WORD, root) && ValidPath(root, q) && Sub(root, q).Dir? && i < |Sub(root, q).entries|
    requires row == DataPos(PosOf(WORD, root, q), Sub(root, q)) + Rows(i) && KidItems(root, rootPath, q, i, kids)
    ensures row + ENTRY <= |img|
    ensures KidItems(root, rootPath, q, i + 1, kids + [PendingOf(img, Item(root, rootPath, q).path, row)])
  {
    KidItem(img, root, rootPath, q, i, row);
    KidItemsMore(root, rootPath, q, i, kids, PendingOf(img, Item(root, rootPath, q).path, row));
  }

  lemma KidItemsMore(root: Tree, rootPath: Bytes, q: seq<nat>, i: nat, kids: seq<Pending>, x: Pending)
    requires KidItems(root, rootPath, q, i, kids)
    requires ValidPath(root, q + [i]) && x == Item(root, rootPath, q + [i])
    ensures KidItems(root, rootPath, q, i + 1, kids + [x])
  {
  }

  lemma QueuedKids(root: Tree, rootPath: Bytes, queue: seq<Pending>, rest: seq<seq<nat>>, q: seq<nat>, n: nat,
                   kids: seq<Pending>)
    requires Queued(root, rootPath, queue, rest) && KidItems(root, rootPath, q, n, kids)
    ensures Queued(root, rootPath, queue + kids, rest + Kids(q, n))
  {
    var all := rest + Kids(q, n);
    forall i | 0 <= i < |all|
      ensures ValidPath(root, all[i]) && (queue + kids)[i] == Item(root, rootPath, all[i])
    {
      if i >= |rest| {
        assert all[i] == q + [i - |rest|];
      }
    }
  }

  lemma ConservedKids(root: Tree, waiting: seq<seq<nat>>, visited: seq<seq<nat>>)
    requires Conserved(root, waiting, visited) && |waiting| > 0 && Sub(root, waiting[0]).Dir?
    ensures Conserved(root, waiting[1..] + Kids(waiting[0], |Sub(root, waiting[0]).entries|), visited)
  {
    var q := waiting[0];
    var es := Sub(root, q).entries;
    WaitingPop(FileBytes, root, waiting);
    WaitingKids(FileBytes, root, waiting[1..], q, |es|);
    BytesOfKids(es, |es|);
  }

  lemma WalkedDir(
      a: Bytes, root: Tree, rootPath: Bytes, queue: seq<Pending>, waiting: seq<seq<nat>>, visited: seq<seq<nat>>,
      kids: seq<Pending>)
    requires Walked(a, root, rootPath, queue, waiting, visited) && |queue| == |waiting| > 0
    requires ValidPath(root, waiting[0]) && Sub(root, waiting[0]).Dir?
    requires KidItems(root, rootPath, waiting[0], |Sub(root, waiting[0]).entries|, kids)
    ensures Walked(a, root, rootPath, queue[1..] + kids,
                   waiting[1..] + Kids(waiting[0], |Sub(root, waiting[0]).entries|), visited)
  {
    assert OpenWalk(0);
    var q := waiting[0];
    var n := |Sub(root, q).entries|;
    QueuedRest(root, rootPath, queue, waiting);
    ExpandDir(root, waiting, visited);
    QueuedKids(root, rootPath, queue[1..], waiting[1..], q, n, kids);
    ConservedKids(root, waiting, visited);
  }

  /** A second write of the same words replaces the first. */
  lemma StepAgain(a: Bytes, b: Bytes, c: Bytes, pos: nat, p: Place, q: Place)
    requires PlaceStep(a, b, pos, p) && PlaceStep(b, c, pos, q)
    ensures PlaceStep(a, c, pos, q)
  {
  }

  lemma TwoPatches(a: Bytes, b: Bytes, c: Bytes, n: nat, pos: nat, p: Place)
    requires pos + NODE <= n <= |a|
    requires Patched(a, b, pos + DATA_OFFSET, ToLE(p.off, 8)) && Patched(b, c, pos + LENGTH, ToLE(p.len, 8))
    ensures PlaceStep(a[..n], c[..n], pos, p)
  {
    AtPatched(b, c, pos + LENGTH, ToLE(p.len, 8), pos + DATA_OFFSET, ToLE(p.off, 8));
    AtFrame(c, c[..n], pos + LENGTH, ToLE(p.len, 8));
    AtFrame(c, c[..n], pos + DATA_OFFSET, ToLE(p.off, 8));
  }

  /** The state of the flat disk while files are placed: contents, and stored chunks; a closed definition. */
  ghost predicate FilledWith(
      root: Tree, visited: seq<seq<nat>>, pos: nat, fits: bool, written: map<nat, byte>, ids: set<nat>) {
    forall k: int {:trigger OpenFilled(k)} :: OpenFilled(k) ==>
      && Files(root, visited)
      && pos == WORD + Size(root) + |Contents(root, visited)|
      && (fits ==>
           && written == PutRun(map[], WORD + Size(root), Contents(root, visited))
           && ids == Passed(Skipped(WORD + Size(root)), WORD + Size(root), pos))
  }

  /** At first there are no contents. */
  lemma FilledStart(root: Tree, pos: nat, fits: bool, written: map<nat, byte>, ids: set<nat>)
    requires pos == WORD + Size(root) && (fits ==> written == map[] && ids == Skipped(pos))
    ensures FilledWith(root, [], pos, fits, written, ids)
  {
    assert Passed(Skipped(pos), pos, pos) == Skipped(pos);
  }

  lemma FilledPos(root: Tree, visited: seq<seq<nat>>, pos: nat, fits: bool, written: map<nat, byte>, ids: set<nat>)
    requires FilledWith(root, visited, pos, fits, written, ids)
    ensures Files(root, visited) && pos == WORD + Size(root) + |Contents(root, visited)|
  {
    assert OpenFilled(0);
  }

  lemma FilledMore(root: Tree, visited: seq<seq<nat>>, q: seq<nat>, from: nat, to: nat, fits: bool,
                   w: map<nat, byte>, written: map<nat, byte>, before: set<nat>, ids: set<nat>)
    requires FilePath(root, q) && FilledWith(root, visited, from, fits, w, before)
    requires to == from + |BytesOf(Sub(root, q).content)|
    requires fits ==> written == PutRun(w, from, BytesOf(Sub(root, q).content)) && ids == Passed(before, from, to)
    ensures FilledWith(root, visited + [q], to, fits, written, ids)
  {
    assert OpenFilled(0);
    var base: nat := WORD + Size(root);
    ContentsMore(root, visited, q);
    PutRunConcat(map[], base, Contents(root, visited), BytesOf(Sub(root, q).content));
    PassedMore(Skipped(base), base, from, to);
  }

  /** The state after the file at the head of the queue was placed and appended. */
  lemma FileDone(
      a: Bytes, c: Bytes, root: Tree, rootPath: Bytes, queue: seq<Pending>, waiting: seq<seq<nat>>,
      visited: seq<seq<nat>>,
      from: nat, to: nat, fits: bool, w: map<nat, byte>, written: map<nat, byte>, before: set<nat>, ids: set<nat>)
    requires Walked(a, root, rootPath, queue, waiting, visited)
    requires |queue| == |waiting| > 0 && FilePath(root, waiting[0])
    requires FilledWith(root, visited, from, fits, w, before)
    requires PlaceStep(a, c, PosOf(WORD, root, waiting[0]), PlaceFor(Sub(root, waiting[0]).content, from))
    requires to == from + |BytesOf(Sub(root, waiting[0]).content)|
    requires fits ==>
      && written == PutRun(w, from, BytesOf(Sub(root, waiting[0]).content))
      && ids == Passed(before, from, to)
    ensures Walked(c, root, rootPath, queue[1..], waiting[1..], visited + [waiting[0]])
    ensures FilledWith(root, visited + [waiting[0]], to, fits, written, ids)
  {
    FilledPos(root, visited, from, fits, w, before);
    WalkedFile(a, c, root, rootPath, queue, waiting, visited);
    FilledMore(root, visited, waiting[0], from, to, fits, w, written, before, ids);
  }

  /** What is known when a file is at the head of the queue: its node, its content, and the room for it. */
  lemma FileReady(
      img: Bytes, root: Tree, rootPath: Bytes, queue: seq<Pending>, waiting: seq<seq<nat>>, visited: seq<seq<nat>>,
      pos: nat, fits: bool, written: map<nat, byte>, ids: set<nat>)
    requires Walked(img, root, rootPath, queue, waiting, visited)
    requires |queue| == |waiting| > 0 && FilePath(root, waiting[0])
    requires FilledWith(root, visited, pos, fits, written, ids)
    ensures Files(root, visited) && queue[0].pos == PosOf(WORD, root, waiting[0]) && queue[0].pos + NODE <= |img|
    ensures OpenFile(root, rootPath, queue[0].path) == Sub(root, waiting[0]).content
    ensures pos == WORD + Size(root) + |Contents(root, visited)|
    ensures pos + |BytesOf(Sub(root, waiting[0]).content)| <= WORD + Size(root) + FileBytes(root)
  {
    WalkedFirst(img, root, rootPath, queue, waiting, visited);
    WalkedRoom(img, root, rootPath, queue, waiting, visited);
    FilledPos(root, visited, pos, fits, written, ids);
    OpensItem(root, rootPath, waiting[0]);
  }

  // ---------------------------------------------------------------- the packed disk

  /**
   The disk that a build leaves. Its chunks are whole and numbered without a gap. It starts
   with the image of the tree, in which each file has its place; the contents of the files
   follow in the order of the places. The order has every file of the tree exactly once.
   */
  ghost predicate Packed(chunks: map<nat, Bytes>, img: Bytes, root: Tree, order: seq<seq<nat>>) {
    && Laid(img, root, order)
    && OnDisk(chunks, 0, img)
    && Files(root, order) && OnDisk(chunks, |img|, Contents(root, order))
    && Numbered(chunks, ChunkOf(|img| + FileBytes(root)))
  }

  /** The image with the places of all files; a closed definition. */
  ghost predicate Laid(img: Bytes, root: Tree, order: seq<seq<nat>>) {
    forall k: int {:trigger OpenLaid(k)} :: OpenLaid(k) ==>
      && Imaged(img, root) && Walk(root, [], order) && Placed(img, root, order)
      && |Contents(root, order)| == FileBytes(root)
  }

  lemma LaidSizes(img: Bytes, root: Tree, order: seq<seq<nat>>)
    requires Laid(img, root, order)
    ensures |img| == WORD + Size(root)
    ensures Files(root, order) && |Contents(root, order)| == FileBytes(root)
  {
    assert OpenLaid(0);
  }

  /** The ids are all from 0 to `last`. */
  ghost predicate UpTo(ids: set<nat>, last: nat) {
    forall id: nat :: id in ids <==> id <= last
  }

  /** Whole chunks from 0 to `last`. */
  ghost predicate Numbered(chunks: map<nat, Bytes>, last: nat) {
    (forall id :: id in chunks ==> |chunks[id]| == CHUNK_SIZE) && UpTo(chunks.Keys, last)
  }

  /** What the walk has done when its queue is empty. */
  lemma WalkedEnd(img: Bytes, root: Tree, rootPath: Bytes, waiting: seq<seq<nat>>, visited: seq<seq<nat>>)
    requires Walked(img, root, rootPath, [], waiting, visited)
    ensures Laid(img, root, visited)
  {
    assert OpenWalk(0);
    assert waiting == [];
  }

  /** The image is stored last and overwrites no byte of a file. */
  lemma RunsOnDisk(chunks: map<nat, Bytes>, img: Bytes, data: Bytes, written: map<nat, byte>)
    requires Stored(chunks, written) && WrittenAll(img, data, written)
    ensures OnDisk(chunks, 0, img) && OnDisk(chunks, |img|, data)
  {
    assert OpenWritten(0);
    var none: map<nat, byte> := map[];
    var first := PutRun(none, |img|, data);
    forall i: nat | i < |data| ensures ByteOn(chunks, |img| + i, data[i]) {
      PutRunAt(none, |img|, data, i);
      PutRunBytes(first, 0, img);
      assert |img| + i in PutRun(first, 0, img);
    }
    forall i: nat | i < |img| ensures ByteOn(chunks, 0 + i, img[i]) {
      PutRunAt(first, 0, img, i);
    }
  }

  lemma PutRunAt(disk: map<nat, byte>, off: nat, bs: Bytes, i: nat)
    requires i < |bs|
    ensures off + i in PutRun(disk, off, bs) && PutRun(disk, off, bs)[off + i] == bs[i]
  {
    PutRunBytes(disk, off, bs);
    var o := off + i;
    assert o in PutRun(disk, off, bs);
  }

  /** The chunks stored when room for an image of `n` bytes is left at the start of an empty disk. */
  ghost function Skipped(n: nat): set<nat> {
    if ChunkOf(n) != 0 then {0} else {}
  }

  /**
   Room for an image of `n` bytes is left, the position reaches `end`, the image is written
   and the last chunk is flushed: then all chunks from the first to the last are stored,
   although the start was skipped at first.
   */
  lemma NoGap(n: nat, end: nat, ids: set<nat>, after: set<nat>)
    requires n <= end && ids == Passed(Skipped(n), n, end)
    requires after == Passed(ids + (if 0 != ChunkOf(end) then {ChunkOf(end)} else {}), 0, n)
    ensures UpTo(after + {ChunkOf(n)}, ChunkOf(end))
  {
    ChunkMonotone(n, end);
    AddRangeMembers(Skipped(n), ChunkOf(n), ChunkOf(end));
    AddRangeMembers(ids + (if 0 != ChunkOf(end) then {ChunkOf(end)} else {}), ChunkOf(0), ChunkOf(n));
    assert ChunkOf(0) == 0;
  }

  lemma PrefixHolds(a: Bytes, n: nat, root: Tree)
    requires Encodes(a, WORD, root) && n == WORD + Size(root) <= |a| && n < U64 && WellFormed(root)
    ensures Holds(a[..n], WORD, root)
  {
    HoldsContent(a[..n], WORD, root);
    EncodesFrame(a, a[..n], WORD, root);
  }

  lemma PrefixPatched(a: Bytes, b: Bytes, bs: Bytes, n: nat)
    requires Patched(a, b, 0, bs) && |bs| <= n <= |a|
    ensures At(b[..n], 0, bs)
    ensures forall k :: |bs| <= k < n ==> a[..n][k] == b[..n][k]
  {
    AtFrame(b, b[..n], 0, bs);
  }

  /** The length word in front of the tree makes the image complete. */
  lemma ImageReady(a: Bytes, b: Bytes, n: nat, root: Tree)
    requires Encodes(a, WORD, root) && Patched(a, b, 0, ToLE(n, 8))
    requires n == WORD + Size(root) <= |a| && n < U64 && WellFormed(root)
    ensures Imaged(b[..n], root)
  {
    PrefixHolds(a, n, root);
    PrefixPatched(a, b, ToLE(n, 8), n);
    HoldsKept(a[..n], b[..n], WORD, root);
  }

  /** The disk after the contents were written behind the image and then the image; a closed definition. */
  ghost predicate WrittenAll(img: Bytes, data: Bytes, written: map<nat, byte>) {
    forall k: int {:trigger OpenWritten(k)} :: OpenWritten(k) ==> written == PutRun(PutRun(map[], |img|, data), 0, img)
  }

  /** What was written when the image is stored, and the ids of the chunks once the last one is flushed. */
  ghost predicate Complete(img: Bytes, root: Tree, order: seq<seq<nat>>, written: map<nat, byte>, ids: set<nat>) {
    && Laid(img, root, order) && Files(root, order)
    && WrittenAll(img, Contents(root, order), written)
    && UpTo(ids, ChunkOf(|img| + FileBytes(root)))
  }

  lemma ImageLast(img: Bytes, root: Tree, order: seq<seq<nat>>, pos: nat, w: map<nat, byte>, ids: set<nat>,
                  written: map<nat, byte>)
    requires FilledWith(root, order, pos, true, w, ids) && Files(root, order) && |img| == WORD + Size(root)
    requires written == PutRun(w, 0, img)
    ensures WrittenAll(img, Contents(root, order), written)
  {
    assert OpenFilled(0);
  }

  lemma IdsLast(root: Tree, order: seq<seq<nat>>, pos: nat, w: map<nat, byte>, ids: set<nat>,
                n: nat, end: nat, after: set<nat>)
    requires FilledWith(root, order, pos, true, w, ids) && n == WORD + Size(root) <= end == pos
    requires after == Passed(ids + (if 0 != ChunkOf(pos) then {ChunkOf(pos)} else {}), 0, n)
    ensures UpTo(after + {ChunkOf(n)}, ChunkOf(end))
  {
    assert OpenFilled(0);
    NoGap(n, end, ids, after);
  }

  /** From the state after the files to the state after the image: `w`, `ids` and `pos` are before, the rest after. */
  lemma CompleteAfterImage(img: Bytes, root: Tree, order: seq<seq<nat>>, pos: nat, w: map<nat, byte>, ids: set<nat>,
                       written: map<nat, byte>, after: set<nat>)
    requires Laid(img, root, order) && FilledWith(root, order, pos, true, w, ids)
    requires written == PutRun(w, 0, img)
    requires after == Passed(ids + (if 0 != ChunkOf(pos) then {ChunkOf(pos)} else {}), 0, |img|)
    ensures Complete(img, root, order, written, after + {ChunkOf(|img|)})
  {
    LaidSizes(img, root, order);
    FilledPos(root, order, pos, true, w, ids);
    ImageLast(img, root, order, pos, w, ids, written);
    IdsLast(root, order, pos, w, ids, |img|, |img| + FileBytes(root), after);
  }

  lemma PackedDisk(chunks: map<nat, Bytes>, img: Bytes, root: Tree, order: seq<seq<nat>>, written: map<nat, byte>)
    requires Complete(img, root, order, written, chunks.Keys) && Stored(chunks, written)
    ensures Packed(chunks, img, root, order)
  {
    RunsOnDisk(chunks, img, Contents(root, order), written);
  }

  // ---------------------------------------------------------------- what the places mean

  /** The content of visited file `k` lies behind the contents of the files before it. */
  lemma {:induction false} ContentsPart(root: Tree, order: seq<seq<nat>>, k: nat)
    requires Files(root, order) && k < |order|
    ensures Contents(root, order[..k]) + BytesOf(Sub(root, order[k]).content) <= Contents(root, order)
    decreases |order|
  {
    var rest := order[..|order| - 1];
    if k < |order| - 1 {
      ContentsPart(root, rest, k);
      assert rest[..k] == order[..k];
    } else {
      assert order[..k] == rest;
    }
  }

  /** Each file of the tree has its turn in the order, and the place that belongs to this turn. */
  lemma PlaceInOrder(img: Bytes, root: Tree, order: seq<seq<nat>>, p: seq<nat>) returns (k: nat)
    requires Laid(img, root, order) && FilePath(root, p)
    ensures k < |order| && order[k] == p && Files(root, order[..k])
    ensures PlacedAt(img, PosOf(WORD, root, p), NextPlace(root, order[..k], p))
  {
    assert OpenLaid(0);
    WalkEnd(root, order);
    k :| 0 <= k < |order| && order[k] == p;
  }

  /** A place that contents have behind an image. */
  ghost predicate HasContent(chunks: map<nat, Bytes>, base: nat, total: nat, at: Place, content: Content) {
    && at.len == |BytesOf(content)|
    && match content {
         case Readable(bytes) => base <= at.off && at.off + at.len <= base + total && OnDisk(chunks, at.off, bytes)
         case _ => at == NOWHERE
       }
  }

  lemma ContentIsThere(chunks: map<nat, Bytes>, base: nat, all: Bytes, before: Bytes, content: Content)
    requires OnDisk(chunks, base, all) && before + BytesOf(content) <= all
    ensures HasContent(chunks, base, |all|, PlaceFor(content, base + |before|), content)
  {
    if content.Readable? {
      PlaceOnDisk(chunks, base, all, before, content.bytes);
    }
  }

  /** A file of a packed tree: its node says where its content lies, and there it is. */
  lemma FileIsPlaced(chunks: map<nat, Bytes>, img: Bytes, root: Tree, order: seq<seq<nat>>, p: seq<nat>)
    returns (at: Place)
    requires Packed(chunks, img, root, order) && FilePath(root, p)
    ensures PlacedAt(img, PosOf(WORD, root, p), at)
    ensures HasContent(chunks, |img|, FileBytes(root), at, Sub(root, p).content)
  {
    LaidSizes(img, root, order);
    var k := PlaceInOrder(img, root, order, p);
    at := NextPlace(root, order[..k], p);
    ContentOfVisit(chunks, |img|, root, order, k);
  }

  lemma ContentOfVisit(chunks: map<nat, Bytes>, base: nat, root: Tree, order: seq<seq<nat>>, k: nat)
    requires Files(root, order) && k < |order| && base == WORD + Size(root)
    requires OnDisk(chunks, base, Contents(root, order))
    ensures HasContent(chunks, base, |Contents(root, order)|, NextPlace(root, order[..k], order[k]),
                       Sub(root, order[k]).content)
  {
    ContentsPart(root, order, k);
    ContentOfTurn(chunks, base, root, order[..k], order[k], Contents(root, order));
  }

  lemma ContentOfTurn(
      chunks: map<nat, Bytes>, base: nat, root: Tree, before: seq<seq<nat>>, q: seq<nat>, all: Bytes)
    requires Files(root, before) && FilePath(root, q) && base == WORD + Size(root)
    requires OnDisk(chunks, base, all) && Contents(root, before) + BytesOf(Sub(root, q).content) <= all
    ensures HasContent(chunks, base, |all|, NextPlace(root, before, q), Sub(root, q).content)
  {
    ContentIsThere(chunks, base, all, Contents(root, before), Sub(root, q).content);
  }

  lemma PlaceOnDisk(chunks: map<nat, Bytes>, base: nat, all: Bytes, before: Bytes, bs: Bytes)
    requires OnDisk(chunks, base, all) && before + bs <= all
    ensures |before| + |bs| <= |all|
    ensures OnDisk(chunks, base + |before|, bs)
  {
    OnDiskPart(chunks, base, all, |before|, |bs|);
    assert bs == (before + bs)[|before|..] == all[|before|..|before| + |bs|];
  }

  /** Different files lie in different places. */
  lemma PlacesApart(img: Bytes, root: Tree, order: seq<seq<nat>>, k: nat, l: nat)
    requires Laid(img, root, order) && Files(root, order) && k < l < |order|
    requires Sub(root, order[k]).content.Readable? && Sub(root, order[l]).content.Readable?
    ensures var a, b := NextPlace(root, order[..k], order[k]), NextPlace(root, order[..l], order[l]);
      |img| <= a.off && a.off + a.len <= b.off
  {
    LaidSizes(img, root, order);
    ContentsPart(root, order[..l], k);
    assert order[..l][..k] == order[..k];
  }
}
