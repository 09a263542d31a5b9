/** Path lookup on an encoded tree: when it agrees with the tree, and exactly when it does not. */
module PathResolution {
  import opened Prelude
  import opened ByteImage
  import opened SourceTree
  import opened Image
  import opened ImageLookup

  function EntryNames(es: seq<DirEntry>): (names: seq<Bytes>)
    ensures |names| == |es|
    ensures forall i :: 0 <= i < |es| ==> names[i] == es[i].name
  {
    Mapped(es, (e: DirEntry) => e.name)
  }

  function KidPositions(pos: nat, t: Tree): (ps: seq<nat>)
    requires t.Dir?
    ensures |ps| == |t.entries|
    ensures forall i :: 0 <= i < |ps| ==> ps[i] == KidPos(pos, t, i)
  {
    seq(|t.entries|, i requires 0 <= i < |t.entries| => KidPos(pos, t, i))
  }

  /** Opens `Holds`. */
  ghost predicate OpenTree(k: int) {
    true
  }

  /** An image holds a well-formed tree at a position; a closed definition. */
  ghost predicate Holds(img: Bytes, pos: nat, t: Tree) {
    forall k: int {:trigger OpenTree(k)} :: OpenTree(k) ==> WellFormed(t) && Encodes(img, pos, t) && |img| < U64
  }

  lemma HoldsContent(img: Bytes, pos: nat, t: Tree)
    ensures Holds(img, pos, t) <==> WellFormed(t) && Encodes(img, pos, t) && |img| < U64
  {
    assert OpenTree(0);
  }

  lemma HoldsKid(img: Bytes, pos: nat, t: Tree, i: nat)
    requires Holds(img, pos, t) && t.Dir? && i < |t.entries|
    ensures Holds(img, KidPos(pos, t, i), t.entries[i].tree)
    ensures pos < KidPos(pos, t, i)
  {
    assert OpenTree(0);
    KidPosMonotone(pos, t, 0, i);
  }

  lemma KindOfMode(t: Tree)
    requires WellFormedNode(t)
    ensures IsDir(t.st.mode) <==> t.Dir?
    ensures IsReg(t.st.mode) <==> t.File?
    ensures IsLnk(t.st.mode) <==> t.Link?
    ensures |t.xattrs| <= MAX_ROWS && (t.Dir? ==> |t.entries| <= MAX_ROWS)
  {
  }

  /** Reading the fields of a node. */
  lemma NodeFields(img: Bytes, pos: nat, t: Tree)
    requires Holds(img, pos, t)
    ensures pos + NODE <= |img|
    ensures IsDir(Half(img, pos)) <==> t.Dir?
    ensures IsReg(Half(img, pos)) <==> t.File?
    ensures IsLnk(Half(img, pos)) <==> t.Link?
    ensures Half(img, pos + XATTRS_COUNT) == |t.xattrs| <= MAX_ROWS
    ensures t.Dir? ==> Word(img, pos + LENGTH) == |t.entries| <= MAX_ROWS
    ensures !t.File? ==> Word(img, pos + DATA_OFFSET) == DataPos(pos, t) <= |img|
  {
    assert OpenTree(0);
    KindOfMode(t);
    assert NodeAt(img, pos, t);
    ReadHalf(img, pos, t.st.mode);
    ReadHalf(img, pos + XATTRS_COUNT, |t.xattrs|);
    if t.Dir? {
      ReadWord(img, pos + LENGTH, |t.entries|);
    }
    if !t.File? {
      ReadWord(img, pos + DATA_OFFSET, DataPos(pos, t));
    }
  }

  lemma DirRowName(img: Bytes, pos: nat, t: Tree, i: nat)
    requires t.Dir? && i < |t.entries| && NulFree(t.entries[i].name)
    requires NameAt(img, pos, t, i) && |img| < U64
    ensures At(img, Word(img, DataPos(pos, t) + Rows(i)), t.entries[i].name + [0])
  {
    ReadWord(img, DataPos(pos, t) + Rows(i), NamePos(pos, t, i));
    CStringOfNulFree(t.entries[i].name);
  }

  lemma DirRowLink(img: Bytes, pos: nat, t: Tree, i: nat)
    requires t.Dir? && i < |t.entries| && KidAt(img, pos, t, i) && |img| < U64
    ensures DataPos(pos, t) + Rows(i) + WORD + WORD <= |img|
    ensures Word(img, DataPos(pos, t) + Rows(i) + WORD) == KidPos(pos, t, i)
  {
    ReadWord(img, LinkPos(pos, t, i), KidPos(pos, t, i));
  }

  lemma DirRow(img: Bytes, pos: nat, t: Tree, i: nat)
    requires t.Dir? && i < |t.entries| && NulFree(t.entries[i].name)
    requires HeadAt(img, pos, t) && KidAt(img, pos, t, i) && |img| < U64
    ensures Row(img, DataPos(pos, t), i, t.entries[i].name, KidPos(pos, t, i))
  {
    assert NameAt(img, pos, t, i);
    DirRowName(img, pos, t, i);
    DirRowLink(img, pos, t, i);
  }

  lemma HoldsRow(img: Bytes, pos: nat, t: Tree, i: nat)
    requires Holds(img, pos, t) && t.Dir? && i < |t.entries|
    ensures HeadAt(img, pos, t) && KidAt(img, pos, t, i) && NulFree(t.entries[i].name) && |img| < U64
  {
    assert OpenTree(0);
    assert ValidName(t.entries[i].name);
  }

  /** Row `i` of a directory: name and position of a child. */
  lemma DirRowHeld(img: Bytes, pos: nat, t: Tree, i: nat)
    requires Holds(img, pos, t) && t.Dir? && i < |t.entries|
    ensures Row(img, DataPos(pos, t), i, t.entries[i].name, KidPos(pos, t, i)) && NulFree(t.entries[i].name)
  {
    HoldsRow(img, pos, t, i);
    DirRow(img, pos, t, i);
  }

  /** The rows of a directory, where `data_offset` says they are. */
  lemma DirTable(img: Bytes, pos: nat, t: Tree)
    requires Holds(img, pos, t) && t.Dir?
    ensures Table(img, DataPos(pos, t), EntryNames(t.entries), KidPositions(pos, t))
  {
    assert OpenTree(0);
    forall i | 0 <= i < |t.entries| ensures Row(img, DataPos(pos, t), i, t.entries[i].name, KidPos(pos, t, i)) {
      DirRowHeld(img, pos, t, i);
    }
    var names := EntryNames(t.entries);
    forall i, j | 0 <= i < j < |names| ensures Compare(names[i], names[j]) == Less {
      assert names[i] == t.entries[i].name && names[j] == t.entries[j].name;
    }
  }

  /**
   The program looks for the rows of a directory right behind the node: there are none, or no
   attributes precede them.
   */
  ghost predicate Plain(t: Tree) {
    t.Dir? ==> |t.xattrs| == 0 || |t.entries| == 0
  }

  /** What a lookup of one component must return. */
  function ChildOffset(pos: nat, t: Tree, name: Bytes): Search {
    if !t.Dir? then Offset(0)
    else
      match IndexOf(t.entries, name)
      case None => Offset(0)
      case Some(i) => Offset(KidPos(pos, t, i))
  }

  lemma ChildOfFields(img: Bytes, pos: nat, isDir: bool, size: nat, name: Bytes)
    requires pos + NODE <= |img| && IsDir(Half(img, pos)) == isDir
    requires isDir ==> Word(img, pos + LENGTH) == size < 0x1_0000_0000
    ensures isDir ==> GetChild(img, pos, name) == FindRow(img, pos + NODE, size, name)
    ensures !isDir ==> GetChild(img, pos, name) == Offset(0)
  {
    assert isDir ==> Word(img, pos + LENGTH) % 0x1_0000_0000 == size;
  }

  lemma ChildSearch(img: Bytes, pos: nat, t: Tree, name: Bytes)
    requires Holds(img, pos, t)
    ensures t.Dir? ==> GetChild(img, pos, name) == FindRow(img, pos + NODE, |t.entries|, name)
    ensures !t.Dir? ==> GetChild(img, pos, name) == Offset(0)
  {
    NodeFields(img, pos, t);
    ChildOfFields(img, pos, t.Dir?, if t.Dir? then |t.entries| else 0, name);
  }

  lemma ChildInTable(img: Bytes, pos: nat, t: Tree, name: Bytes)
    requires Holds(img, pos, t) && t.Dir? && NulFree(name)
    ensures FindRow(img, DataPos(pos, t), |t.entries|, name) == ChildOffset(pos, t, name)
  {
    DirTable(img, pos, t);
    RowOfName(img, DataPos(pos, t), t.entries, KidPositions(pos, t), name);
  }

  /** In a plain directory, and in anything but a directory, the child is found. */
  lemma ChildFound(img: Bytes, pos: nat, t: Tree, name: Bytes)
    requires Holds(img, pos, t) && Plain(t) && NulFree(name)
    ensures GetChild(img, pos, name) == ChildOffset(pos, t, name)
  {
    ChildSearch(img, pos, t, name);
    if t.Dir? && |t.entries| > 0 {
      assert DataPos(pos, t) == pos + NODE;
      ChildInTable(img, pos, t, name);
    }
  }

  lemma RowOfName(img: Bytes, table: nat, es: seq<DirEntry>, values: seq<nat>, name: Bytes)
    requires Table(img, table, EntryNames(es), values) && NulFree(name)
    ensures FindRow(img, table, |es|, name) ==
      match IndexOf(es, name) { case None => Offset(0) case Some(i) => Offset(values[i]) }
  {
    var names := EntryNames(es);
    FindRowCorrect(img, table, names, values, name);
    match IndexOf(es, name)
    case None =>
      assert forall i :: 0 <= i < |names| ==> names[i] != name;
    case Some(i) =>
      assert names[i] == name;
  }

  /** Row 0 behind the node of a directory with attributes is the row of its first attribute. */
  lemma FirstRowIsXattr(img: Bytes, pos: nat, t: Tree)
    requires Holds(img, pos, t) && t.Dir? && |t.xattrs| > 0
    ensures RowInImage(img, pos + NODE, 0)
    ensures RowValue(img, pos + NODE, 0) == ValuePos(pos + NODE, t.xattrs, 0) < pos + HeadSize(t)
  {
    assert OpenTree(0);
    var base := pos + NODE;
    assert XattrAt(img, base, t.xattrs, 0);
    XattrPosMonotone(base, t.xattrs, 0, 1);
    XattrPosMonotone(base, t.xattrs, 1, |t.xattrs|);
    ReadWord(img, base + WORD, ValuePos(base, t.xattrs, 0));
  }

  /** A value that is found belongs to some row. */
  lemma FoundRow(img: Bytes, table: nat, n: nat, name: Bytes, value: nat) returns (m: nat)
    requires 0 < n && 0 < value && FindRow(img, table, n, name) == Offset(value)
    ensures m < n && RowInImage(img, table, m) && RowValue(img, table, m) == value
  {
    m := SearchHitsRow(img, table, 0, ToSigned(n - 1), n, name, Offset(value));
  }

  /** If every name were found in a table, each would need a row of its own; a row with another value leaves too few. */
  lemma SomeMiss(img: Bytes, table: nat, names: seq<Bytes>, values: seq<nat>) returns (i: nat)
    requires |names| == |values| > 0
    requires forall k :: 0 <= k < |values| ==> values[k] > 0
    requires forall k, l :: 0 <= k < l < |values| ==> values[k] != values[l]
    requires RowInImage(img, table, 0) && RowValue(img, table, 0) !in values
    ensures i < |names| && FindRow(img, table, |names|, names[i]) != Offset(values[i])
  {
    var n := |names|;
    var rows: seq<int> := [];
    i := 0;
    while i < n
      invariant i <= n && |rows| == i
      invariant forall k :: 0 <= k < i ==> 1 <= rows[k] < n && RowInImage(img, table, rows[k])
      invariant forall k :: 0 <= k < i ==> RowValue(img, table, rows[k]) == values[k]
    {
      if FindRow(img, table, n, names[i]) != Offset(values[i]) {
        return;
      }
      var m := FoundRow(img, table, n, names[i], values[i]);
      rows := rows + [m];
      i := i + 1;
    }
    assert Distinct(rows);
    DistinctBounded(rows, 1, n);
    assert false;
  }

  /** The positions of children are different and lie behind the head. */
  lemma KidPositionsApart(pos: nat, t: Tree)
    requires t.Dir?
    ensures var values := KidPositions(pos, t);
      && (forall k, l :: 0 <= k < l < |values| ==> values[k] != values[l])
      && (forall k :: 0 <= k < |values| ==> values[k] >= pos + HeadSize(t) > 0)
  {
    var values := KidPositions(pos, t);
    forall k, l | 0 <= k < l < |values| ensures values[k] != values[l] {
      KidPosMonotone(pos, t, k, l);
    }
    forall k | 0 <= k < |values| ensures values[k] >= pos + HeadSize(t) {
      KidPosMonotone(pos, t, 0, k);
    }
  }

  /** A directory with both attributes and entries is searched in the wrong place: some entry is not found. */
  lemma ChildMissed(img: Bytes, pos: nat, t: Tree) returns (i: nat)
    requires Holds(img, pos, t) && !Plain(t)
    ensures i < |t.entries| && NulFree(t.entries[i].name)
    ensures GetChild(img, pos, t.entries[i].name) != ChildOffset(pos, t, t.entries[i].name)
  {
    FirstRowIsXattr(img, pos, t);
    KidPositionsApart(pos, t);
    i := SomeMiss(img, pos + NODE, EntryNames(t.entries), KidPositions(pos, t));
    ChildSearch(img, pos, t, t.entries[i].name);
    HoldsRow(img, pos, t, i);
    HoldsUnique(img, pos, t, i);
  }

  lemma HoldsUnique(img: Bytes, pos: nat, t: Tree, i: nat)
    requires Holds(img, pos, t) && t.Dir? && i < |t.entries|
    ensures IndexOf(t.entries, t.entries[i].name) == Some(i)
  {
    assert OpenTree(0);
    UniqueName(t.entries, i);
  }

  // ---------------------------------------------------------------- whole paths

  /** Where a list of components must lead: the position of the node, or 0. */
  function Expected(pos: nat, t: Tree, comps: seq<Bytes>): Search
    decreases |comps|
  {
    if |comps| == 0 then Offset(pos)
    else if !t.Dir? then Offset(0)
    else
      match IndexOf(t.entries, comps[0])
      case None => Offset(0)
      case Some(i) => Expected(KidPos(pos, t, i), t.entries[i].tree, comps[1..])
  }

  ghost predicate NulFreeAll(comps: seq<Bytes>) {
    forall i :: 0 <= i < |comps| ==> NulFree(comps[i])
  }

  /** Every directory that is asked for a component is plain. */
  ghost predicate PlainAlong(t: Tree, comps: seq<Bytes>)
    decreases |comps|
  {
    |comps| > 0 && t.Dir? ==>
      && Plain(t)
      && match IndexOf(t.entries, comps[0]) {
           case None => true
           case Some(i) => PlainAlong(t.entries[i].tree, comps[1..])
         }
  }

  /** On a path through plain directories the program finds what the tree has, and nothing else. */
  lemma {:induction false} LocateCorrect(img: Bytes, pos: nat, t: Tree, comps: seq<Bytes>)
    requires Holds(img, pos, t) && NulFreeAll(comps) && PlainAlong(t, comps)
    ensures Locate(img, pos, comps) == Expected(pos, t, comps)
    decreases |comps|
  {
    if |comps| > 0 {
      ChildFound(img, pos, t, comps[0]);
      if t.Dir? && IndexOf(t.entries, comps[0]).Some? {
        var i := IndexOf(t.entries, comps[0]).value;
        HoldsKid(img, pos, t, i);
        LocateCorrect(img, KidPos(pos, t, i), t.entries[i].tree, comps[1..]);
      }
    }
  }

  /** The expected result is the position of the node that the tree has under that name. */
  lemma {:induction false} ExpectedIsFind(pos: nat, t: Tree, comps: seq<Bytes>)
    requires pos > 0
    ensures Expected(pos, t, comps) ==
      match Find(t, comps) { case None => Offset(0) case Some(path) => Offset(PosOf(pos, t, path)) }
    ensures Find(t, comps).Some? ==> PosOf(pos, t, Find(t, comps).value) > 0
    decreases |comps|
  {
    if |comps| > 0 && t.Dir? && IndexOf(t.entries, comps[0]).Some? {
      var i := IndexOf(t.entries, comps[0]).value;
      KidPosMonotone(pos, t, 0, i);
      ExpectedIsFind(KidPos(pos, t, i), t.entries[i].tree, comps[1..]);
      match Find(t.entries[i].tree, comps[1..])
      case None =>
      case Some(path) => assert ([i] + path)[1..] == path;
    }
  }

  /** Every directory of the tree is plain. */
  ghost predicate PlainTree(t: Tree)
    decreases t
  {
    Plain(t) && (t.Dir? ==> forall i :: 0 <= i < |t.entries| ==> PlainTree(t.entries[i].tree))
  }

  lemma {:induction false} PlainTreeAlong(t: Tree, comps: seq<Bytes>)
    requires PlainTree(t)
    ensures PlainAlong(t, comps)
    decreases |comps|
  {
    if |comps| > 0 && t.Dir? && IndexOf(t.entries, comps[0]).Some? {
      PlainTreeAlong(t.entries[IndexOf(t.entries, comps[0]).value].tree, comps[1..]);
    }
  }

  /** A path on which the program does not return what it must. */
  ghost predicate Wrong(img: Bytes, pos: nat, t: Tree, comps: seq<Bytes>) {
    NulFreeAll(comps) && Locate(img, pos, comps) != Expected(pos, t, comps)
  }

  lemma WrongHere(img: Bytes, pos: nat, t: Tree) returns (comps: seq<Bytes>)
    requires Holds(img, pos, t) && !Plain(t)
    ensures Wrong(img, pos, t, comps)
  {
    assert OpenTree(0);
    var i := ChildMissed(img, pos, t);
    comps := [t.entries[i].name];
    UniqueName(t.entries, i);
    KidPosMonotone(pos, t, 0, i);
    assert comps[1..] == [];
  }

  lemma WrongBelow(img: Bytes, pos: nat, t: Tree, i: nat, rest: seq<Bytes>) returns (comps: seq<Bytes>)
    requires Holds(img, pos, t) && Plain(t) && t.Dir? && i < |t.entries|
    requires Wrong(img, KidPos(pos, t, i), t.entries[i].tree, rest)
    ensures Wrong(img, pos, t, comps)
  {
    comps := [t.entries[i].name] + rest;
    assert comps[1..] == rest && comps[0] == t.entries[i].name;
    HoldsRow(img, pos, t, i);
    HoldsUnique(img, pos, t, i);
    ChildFound(img, pos, t, t.entries[i].name);
    KidPosMonotone(pos, t, 0, i);
  }

  /** A tree that is not plain has a path on which the program goes wrong. */
  lemma {:induction false} WrongPath(img: Bytes, pos: nat, t: Tree) returns (comps: seq<Bytes>)
    requires Holds(img, pos, t) && !PlainTree(t)
    ensures Wrong(img, pos, t, comps)
    decreases t
  {
    if !Plain(t) {
      comps := WrongHere(img, pos, t);
    } else {
      var i :| 0 <= i < |t.entries| && !PlainTree(t.entries[i].tree);
      HoldsKid(img, pos, t, i);
      var rest := WrongPath(img, KidPos(pos, t, i), t.entries[i].tree);
      comps := WrongBelow(img, pos, t, i, rest);
    }
  }

  /** Lookup is right on every path exactly when no directory has both attributes and entries. */
  lemma LookupExact(img: Bytes, pos: nat, t: Tree)
    requires Holds(img, pos, t)
    ensures PlainTree(t) <==>
      forall comps :: NulFreeAll(comps) ==> Locate(img, pos, comps) == Expected(pos, t, comps)
  {
    if PlainTree(t) {
      forall comps | NulFreeAll(comps) ensures Locate(img, pos, comps) == Expected(pos, t, comps) {
        PlainTreeAlong(t, comps);
        LocateCorrect(img, pos, t, comps);
      }
    } else {
      var comps := WrongPath(img, pos, t);
    }
  }
}
