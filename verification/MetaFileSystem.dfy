/** The reader of the metadata image (meta/meta_file_system.cc). */
module MetaFSReader {
  import opened Prelude
  import opened ByteImage
  import opened SourceTree
  import opened Image
  import opened ImageLookup
  import opened PathResolution

  newtype int32 = x: int | -0x8000_0000 <= x < 0x8000_0000

  /** What a call yields: an exception, no defined result, an error code, or a value. */
  datatype Outcome<+T> = Threw | Lost | Failed(code: ErrorCode) | Got(value: T)

  /** The attributes of a node, as `struct stat`. */
  datatype Attr = Attr(
    mode: nat, nlink: nat, uid: nat, gid: nat, size: nat, blocks: nat, atime: Time, mtime: Time, ctime: Time)

  function TimeOf(ns: nat): Time {
    Time(ns / 1_000_000_000, ns % 1_000_000_000)
  }

  /** The attributes that a node written from `st` must show; the access time is the modification time. */
  function AttrOf(st: Stat): Attr {
    Attr(st.mode, if IsDir(st.mode) then 2 else 1, st.uid, st.gid, st.size, st.blocks,
         TimeOf(NanoSeconds(st.mtime)), TimeOf(NanoSeconds(st.mtime)), TimeOf(NanoSeconds(st.ctime)))
  }

  /** A time stamp survives the image exactly when it is not before 1970. */
  lemma TimeRoundTrip(t: Time)
    requires ValidTime(t)
    ensures TimeOf(NanoSeconds(t)) == t <==> t.sec >= 0
  {
    var ns := t.nsec + t.sec * 1_000_000_000;
    if t.sec >= 0 {
      assert NanoSeconds(t) == ns;
      assert ns / 1_000_000_000 == t.sec && ns % 1_000_000_000 == t.nsec;
    }
  }

  /** The attributes that a reader must see of a node: those of the source, with times from 1970 on. */
  ghost predicate Shows(a: Attr, t: Tree) {
    && a.mode == t.st.mode && a.uid == t.st.uid && a.gid == t.st.gid
    && a.size == t.st.size && a.blocks == t.st.blocks
    && a.nlink == (if t.Dir? then 2 else 1)
    && a.atime == a.mtime
    && (t.st.mtime.sec >= 0 ==> a.mtime == t.st.mtime)
    && (t.st.ctime.sec >= 0 ==> a.ctime == t.st.ctime)
  }

  lemma AttrShows(t: Tree)
    requires WellFormedNode(t)
    ensures Shows(AttrOf(t.st), t)
  {
    KindOfMode(t);
    TimeRoundTrip(t.st.mtime);
    TimeRoundTrip(t.st.ctime);
  }

  lemma HeldShows(img: Bytes, pos: nat, t: Tree)
    requires Holds(img, pos, t)
    ensures Shows(AttrOf(t.st), t)
  {
    assert OpenTree(0);
    AttrShows(t);
  }

  // ---------------------------------------------------------------- listing attributes

  function NamesTotal(xs: seq<Xattr>, n: nat): nat
    requires n <= |xs|
  {
    if n == 0 then 0 else NamesTotal(xs, n - 1) + |xs[n - 1].name| + 1
  }

  /** The first `n` attribute names, each with its terminator. */
  function NameList(xs: seq<Xattr>, n: nat): (list: Bytes)
    requires n <= |xs|
    ensures |list| == NamesTotal(xs, n)
  {
    if n == 0 then [] else NameList(xs, n - 1) + xs[n - 1].name + [0]
  }

  /** The names are read back from the list one behind the other, each up to its terminator. */
  lemma {:induction false} NamesInList(xs: seq<Xattr>, n: nat, i: nat)
    requires i < n <= |xs| && NulFree(xs[i].name)
    ensures NamesTotal(xs, i) + |xs[i].name| + 1 == NamesTotal(xs, i + 1) <= NamesTotal(xs, n)
    ensures At(NameList(xs, n), NamesTotal(xs, i), xs[i].name + [0])
    ensures StringAt(NameList(xs, n), NamesTotal(xs, i)) == xs[i].name
    decreases n
  {
    NamesTotalMonotone(xs, i + 1, n);
    NameListLast(xs, n);
    if i < n - 1 {
      NamesInList(xs, n - 1, i);
      AtFrame(NameList(xs, n - 1), NameList(xs, n), NamesTotal(xs, i), xs[i].name + [0]);
    }
    StringRead(NameList(xs, n), NamesTotal(xs, i), xs[i].name);
  }

  lemma NameListLast(xs: seq<Xattr>, n: nat)
    requires 0 < n <= |xs|
    ensures NameList(xs, n - 1) <= NameList(xs, n)
    ensures At(NameList(xs, n), NamesTotal(xs, n - 1), xs[n - 1].name + [0])
  {
    var before, last := NameList(xs, n - 1), xs[n - 1].name + [0];
    assert NameList(xs, n) == before + last;
    assert (before + last)[|before|..] == last;
  }

  lemma {:induction false} NamesTotalMonotone(xs: seq<Xattr>, i: nat, j: nat)
    requires i <= j <= |xs|
    ensures NamesTotal(xs, i) <= NamesTotal(xs, j)
    ensures i < j ==> NamesTotal(xs, i) < NamesTotal(xs, j)
    decreases j
  {
    if i < j {
      NamesTotalMonotone(xs, i, j - 1);
    }
  }

  // ---------------------------------------------------------------- the reader

  /** Reading the rest of a path one character at a time, with the component read so far. */
  ghost function Scan(img: Bytes, off: nat, name: Bytes, rest: Bytes): Search
    decreases |rest|
  {
    if |rest| == 0 then (if |name| == 0 then Offset(off) else GetChild(img, off, name))
    else if rest[0] == SLASH then
      match GetChild(img, off, name)
      case Undefined => Undefined
      case Offset(n) => if n == 0 then Offset(0) else Scan(img, n, [], rest[1..])
    else Scan(img, off, name + [rest[0]], rest[1..])
  }

  /** One character. */
  lemma ScanOne(img: Bytes, off: nat, name: Bytes, path: Bytes, k: nat)
    requires k < |path|
    ensures Scan(img, off, name, path[k..]) ==
      if path[k] == SLASH then
        match GetChild(img, off, name)
        case Undefined => Undefined
        case Offset(n) => if n == 0 then Offset(0) else Scan(img, n, [], path[k + 1..])
      else Scan(img, off, name + [path[k]], path[k + 1..])
  {
    assert path[k..][1..] == path[k + 1..];
  }

  /** Reading character by character follows the components of the path. */
  lemma {:induction false} ScanIsLocate(img: Bytes, off: nat, name: Bytes, rest: Bytes)
    requires SLASH !in name
    ensures Scan(img, off, name, rest) == Locate(img, off, Components(name + rest))
    decreases |rest|
  {
    if |rest| == 0 {
      LastComponent(img, off, name);
      assert name + rest == name;
    } else if rest[0] == SLASH {
      SlashComponent(img, off, name, rest);
      match GetChild(img, off, name)
      case Undefined =>
      case Offset(n) =>
        ScanIsLocate(img, n, [], rest[1..]);
        assert [] + rest[1..] == rest[1..];
    } else {
      var more := name + [rest[0]];
      assert name + rest == more + rest[1..];
      ScanIsLocate(img, off, more, rest[1..]);
      assert Scan(img, off, name, rest) == Scan(img, off, more, rest[1..]);
    }
  }

  lemma SlashComponent(img: Bytes, off: nat, name: Bytes, rest: Bytes)
    requires SLASH !in name && |rest| > 0 && rest[0] == SLASH
    ensures Locate(img, off, Components(name + rest)) ==
      match GetChild(img, off, name)
      case Undefined => Undefined
      case Offset(n) => if n == 0 then Offset(0) else Locate(img, n, Components(rest[1..]))
  {
    ComponentsOf(name, rest);
    var comps := Components(name + rest);
    assert comps[0] == name && comps[1..] == Components(rest[1..]);
  }

  lemma LastComponent(img: Bytes, off: nat, name: Bytes)
    requires SLASH !in name
    ensures Locate(img, off, Components(name)) == if |name| == 0 then Offset(off) else GetChild(img, off, name)
  {
    if |name| > 0 {
      ComponentsOf(name, []);
      assert name + [] == name;
      assert Components(name) == [name] && [name][1..] == [];
    }
  }

  class MetaFileSystem {
    const data: Bytes

    // The tree that the image encodes, behind the leading length word.
    ghost const root: Tree

    ghost predicate Valid() {
      Holds(data, WORD, root)
    }

    constructor (data: Bytes, ghost root: Tree)
      requires Holds(data, WORD, root)
      ensures Valid() && this.data == data && this.root == root
    {
      this.data := data;
      this.root := root;
    }

    /** Binary search with 32-bit indices. */
    method FindEntity(name: Bytes, table: nat, size: nat) returns (r: Search)
      requires size < U32
      ensures r == FindRow(data, table, size, name)
    {
      if size == 0 {
        return Offset(0);
      }
      var a: int32 := 0;
      var b: int32 := ToSigned(size - 1) as int32;
      while a < b
        invariant 0 <= a
        invariant BinSearch(data, table, a as nat, b as int, name) == FindRow(data, table, size, name)
        decreases b as int - a as int
      {
        if a as int + b as int >= 0x8000_0000 {
          return Undefined;
        }
        var m := (a + b) / 2;
        match RowOrder(data, table, m as nat, name) {
          case Fault => return Undefined;
          case Equal => return Offset(RowValue(data, table, m as nat));
          case Less => a := m + 1;
          case Greater => b := m - 1;
        }
      }
      match RowOrder(data, table, a as nat, name) {
        case Fault => return Undefined;
        case Equal => return Offset(RowValue(data, table, a as nat));
        case _ => return Offset(0);
      }
    }

    method Child(offset: nat, name: Bytes) returns (r: Search)
      ensures r == GetChild(data, offset, name)
    {
      if offset + NODE > |data| {
        return Undefined;
      }
      if !IsDir(Half(data, offset)) {
        return Offset(0);
      }
      r := FindEntity(name, offset + NODE, Word(data, offset + LENGTH) % 0x1_0000_0000);
    }

    /** Read the text behind the leading slash character by character, following a component at each slash. */
    method ScanPath(path: Bytes) returns (r: Search)
      requires |path| > 0
      ensures r == Scan(data, WORD, [], path[1..])
    {
      var offset: nat := WORD;
      var name: Bytes := [];
      var k := 1;
      while k < |path|
        invariant 1 <= k <= |path|
        invariant Scan(data, offset, name, path[k..]) == Scan(data, WORD, [], path[1..])
      {
        ScanOne(data, offset, name, path, k);
        if path[k] == SLASH {
          var n := Child(offset, name);
          if n.Undefined? || n.n == 0 {
            return n;
          }
          name := [];
          offset := n.n;
        } else {
          name := name + [path[k]];
        }
        k := k + 1;
      }
      if |name| > 0 {
        r := Child(offset, name);
      } else {
        r := Offset(offset);
      }
    }

    /** What resolving a path yields on the bytes of the image: the path must start with a slash. */
    function Resolved(path: Bytes): Outcome<nat> {
      if |path| == 0 || path[0] != SLASH then Threw
      else
        match Locate(data, WORD, Components(path[1..]))
        case Undefined => Lost
        case Offset(n) => if n == 0 then Failed(NOT_FOUND) else Got(n)
    }

    method GetNodeOffset(path: Bytes) returns (r: Outcome<nat>)
      ensures r == Resolved(path)
    {
      if |path| == 0 || path[0] != SLASH {
        return Threw;
      }
      var s := ScanPath(path);
      ScanIsLocate(data, WORD, [], path[1..]);
      assert [] + path[1..] == path[1..];
      match s {
        case Undefined => r := Lost;
        case Offset(n) => r := if n == 0 then Failed(NOT_FOUND) else Got(n);
      }
    }

    ghost predicate Absolute(path: Bytes) {
      |path| > 0 && path[0] == SLASH
    }

    /** An absolute path on which every directory that is searched is plain. */
    ghost predicate Resolvable(path: Bytes) {
      Absolute(path) && NulFree(path) && PlainAlong(root, Components(path[1..]))
    }

    /** The node that a path must lead to. */
    ghost function Target(path: Bytes): Option<Tree> {
      match Lookup(root, path)
      case None => None
      case Some(p) => Some(Sub(root, p))
    }

    /** A node that lies where a path leads. */
    ghost predicate Lies(path: Bytes, t: Tree) {
      Resolved(path).Got? && Holds(data, Resolved(path).value, t)
    }

    /** Some node lies where a path leads. */
    ghost predicate Lands(path: Bytes) {
      exists t :: Lies(path, t)
    }

    /** The outcome of a call on a path that leads nowhere. */
    ghost predicate Fails<T>(path: Bytes, r: Outcome<T>) {
      match Resolved(path)
      case Threw => r == Threw
      case Lost => r == Lost
      case Failed(code) => r == Failed(code)
      case Got(_) => true
    }

    /** A resolvable path leads to its node, if there is one. */
    lemma TargetLies(path: Bytes)
      requires Valid() && Resolvable(path)
      ensures match Target(path)
        case None => Resolved(path) == Failed(NOT_FOUND)
        case Some(t) => Lies(path, t)
    {
      PathResolves(data, root, path);
    }

    /** Resolve a path; the second result is a node at the offset, the one of the tree if the path is resolvable. */
    method Resolve(path: Bytes) returns (r: Outcome<nat>, ghost t: Option<Tree>)
      requires Valid()
      ensures r == Resolved(path)
      ensures if t.Some? then Lies(path, t.value) else !Lands(path)
      ensures Resolvable(path) ==>
        t == Target(path) && match Lookup(root, path) {
          case None => r == Failed(NOT_FOUND)
          case Some(p) => r == Got(PosOf(WORD, root, p))
        }
    {
      r := GetNodeOffset(path);
      t := None;
      if Resolvable(path) {
        PathResolves(data, root, path);
        t := Target(path);
      } else if Lands(path) {
        var u :| Lies(path, u);
        t := Some(u);
      }
    }

    method GetOffset(path: Bytes) returns (r: Outcome<nat>)
      requires Valid()
      ensures r == Resolved(path) && (!Absolute(path) ==> r == Threw)
      ensures Resolvable(path) ==>
        match Lookup(root, path)
        case None => r == Failed(NOT_FOUND)
        case Some(p) => r == Got(PosOf(WORD, root, p)) && Holds(data, r.value, Sub(root, p))
    {
      ghost var t;
      r, t := Resolve(path);
    }

    /** The attributes of the node at an offset: those of the tree that it encodes. */
    method StatOf(offset: nat, ghost t: Option<Tree>) returns (r: Outcome<Attr>)
      requires t.Some? ==> Holds(data, offset, t.value)
      ensures r == if offset + NODE > |data| then Lost else Got(StatIn(data, offset))
      ensures t.Some? ==> r == Got(AttrOf(t.value.st)) && Shows(r.value, t.value)
    {
      if t.Some? {
        StatRead(data, offset, t.value);
        HeldShows(data, offset, t.value);
      }
      if offset + NODE > |data| {
        return Lost;
      }
      return Got(StatIn(data, offset));
    }

    method GetStat(path: Bytes) returns (r: Outcome<Attr>)
      requires Valid()
      ensures Fails(path, r) && (!Absolute(path) ==> r == Threw)
      ensures Resolved(path).Got? ==>
        var offset := Resolved(path).value; r == if offset + NODE > |data| then Lost else Got(StatIn(data, offset))
      ensures forall t :: Lies(path, t) ==> r == Got(AttrOf(t.st)) && Shows(r.value, t)
      ensures Resolvable(path) ==>
        r == match Target(path) { case None => Failed(NOT_FOUND) case Some(t) => Got(AttrOf(t.st)) }
    {
      var o, t := Resolve(path);
      match o {
        case Threw => r := Threw;
        case Lost => r := Lost;
        case Failed(code) => r := Failed(code);
        case Got(offset) => r := StatOf(offset, t);
      }
      forall u | Lies(path, u) ensures r == Got(AttrOf(u.st)) && Shows(r.value, u) {
        StatRead(data, Resolved(path).value, u);
        HeldShows(data, Resolved(path).value, u);
      }
    }

    /** The place of the content of a regular file: the one that was stored in its node. */
    method GetFilePosition(offset: nat, ghost t: Option<Tree>) returns (r: Outcome<Place>)
      requires t.Some? ==> Holds(data, offset, t.value)
      ensures t.Some? && !t.value.File? ==> r == Failed(BAD_TYPE)
      ensures t.Some? && t.value.File? ==> r.Got?
      ensures r.Got? ==>
        forall at: Place :: PlacedAt(data, offset, at) && at.off < U64 && at.len < U64 ==> r.value == at
    {
      if t.Some? {
        NodeFields(data, offset, t.value);
      }
      if offset + NODE > |data| {
        return Lost;
      }
      if !IsReg(Half(data, offset)) {
        return Failed(BAD_TYPE);
      }
      r := Got(Place(Word(data, offset + DATA_OFFSET), Word(data, offset + LENGTH)));
      forall at: Place | PlacedAt(data, offset, at) && at.off < U64 && at.len < U64 ensures r.value == at {
        PlaceWords(data, offset, at);
      }
    }

    /**
     The link target is copied without its last byte counted in, and a NUL is stored one past
     the given size, which is behind the buffer when the buffer has exactly that size.
     */
    method GetSymlink(path: Bytes, buff: array<byte>, buffSize: nat) returns (r: Outcome<()>)
      requires Valid() && buffSize <= buff.Length
      modifies buff
      ensures Fails(path, r) && (!Absolute(path) ==> r == Threw)
      ensures forall t :: Lies(path, t) ==> LinkCopied(t, old(buff[..]), buff[..], buffSize, r)
      ensures Resolvable(path) ==>
        match Target(path)
        case None => r == Failed(NOT_FOUND) && buff[..] == old(buff[..])
        case Some(t) => LinkCopied(t, old(buff[..]), buff[..], buffSize, r)
    {
      var o, t := Resolve(path);
      match o {
        case Threw => r := Threw;
        case Lost => r := Lost;
        case Failed(code) => r := Failed(code);
        case Got(offset) => r := CopyTarget(offset, t, buff, buffSize);
      }
      forall u | Lies(path, u) ensures LinkCopied(u, old(buff[..]), buff[..], buffSize, r) {
        LinkRead(data, Resolved(path).value, u);
        LinkRead(data, Resolved(path).value, t.value);
      }
    }

    method CopyTarget(offset: nat, ghost t: Option<Tree>, buff: array<byte>, buffSize: nat) returns (r: Outcome<()>)
      requires (t.Some? ==> Holds(data, offset, t.value)) && buffSize <= buff.Length
      modifies buff
      ensures t.Some? ==> LinkCopied(t.value, old(buff[..]), buff[..], buffSize, r)
    {
      if t.Some? {
        LinkRead(data, offset, t.value);
      }
      if offset + NODE > |data| {
        return Lost;
      }
      if !IsLnk(Half(data, offset)) {
        return Failed(BAD_TYPE);
      }
      var at := Word(data, offset + DATA_OFFSET);
      if buffSize == 0 || !Ends(data, at) {
        return Lost;
      }
      r := CopyString(StringAt(data, at), buff, buffSize);
    }

    method CopyString(target: Bytes, buff: array<byte>, buffSize: nat) returns (r: Outcome<()>)
      requires 0 < buffSize <= buff.Length
      modifies buff
      ensures StringCopied(target, old(buff[..]), buff[..], buffSize, r)
    {
      var copy := Strncpy(target, buffSize - 1);
      forall i | 0 <= i < buffSize - 1 {
        buff[i] := copy[i];
      }
      if buffSize == buff.Length {
        return Lost;
      }
      buff[buffSize] := 0;
      r := if |target| > buffSize then Failed(TOO_LONG) else Got(());
    }

    /**
     The value of an attribute. Nothing is copied when the buffer size is 0, and the
     bytes copied are those `strncpy` left in the image.
     */
    method GetXattr(path: Bytes, name: Bytes, buffSize: nat) returns (r: Outcome<Option<Bytes>>, length: nat)
      requires Valid() && NulFree(name)
      ensures Fails(path, r) && (!Absolute(path) ==> r == Threw)
      ensures Lands(path) ==> exists t :: Lies(path, t) && ValueFetched(t.xattrs, name, buffSize, r, length)
      ensures Resolvable(path) ==>
        match Target(path)
        case None => r == Failed(NOT_FOUND)
        case Some(t) => ValueFetched(t.xattrs, name, buffSize, r, length)
    {
      length := 0;
      var o, t := Resolve(path);
      match o {
        case Threw => r := Threw;
        case Lost => r := Lost;
        case Failed(code) => r := Failed(code);
        case Got(offset) => r, length := FetchValue(offset, t, name, buffSize);
      }
    }

    method FetchValue(offset: nat, ghost t: Option<Tree>, name: Bytes, buffSize: nat)
      returns (r: Outcome<Option<Bytes>>, length: nat)
      requires (t.Some? ==> Holds(data, offset, t.value)) && NulFree(name)
      ensures t.Some? ==> ValueFetched(t.value.xattrs, name, buffSize, r, length)
    {
      if t.Some? {
        NodeFields(data, offset, t.value);
        XattrSearch(data, offset, t.value, name);
      }
      if offset + NODE > |data| {
        return Lost, 0;
      }
      HalfBound(data, offset + XATTRS_COUNT);
      var s := FindEntity(name, offset + NODE, Half(data, offset + XATTRS_COUNT));
      if s.Undefined? {
        return Lost, 0;
      }
      if s.n == 0 {
        return Failed(NO_DATA), 0;
      }
      r, length := CopyValue(s.n, offset, t, name, buffSize);
    }

    method CopyValue(at: nat, ghost offset: nat, ghost t: Option<Tree>, ghost name: Bytes, buffSize: nat)
      returns (r: Outcome<Option<Bytes>>, length: nat)
      requires t.Some? ==> Holds(data, offset, t.value)
      requires t.Some? ==> Offset(at) == XattrFound(offset + NODE, t.value.xattrs, name) && at != 0
      ensures t.Some? ==> ValueFetched(t.value.xattrs, name, buffSize, r, length)
    {
      if t.Some? {
        ValueAt(data, offset, t.value, name);
      }
      if at + WORD > |data| {
        return Lost, 0;
      }
      length := Word(data, at);
      if buffSize == 0 {
        return Got(None), length;
      }
      if length > buffSize {
        return Failed(TOO_LONG), length;
      }
      if at + WORD + length > |data| {
        return Lost, length;
      }
      return Got(Some(data[at + WORD..at + WORD + length])), length;
    }

    /**
     The attribute names, each with its terminator, copied while they fit. A buffer that
     is full exactly at the end of a name counts as "size only" for the names that follow.
     */
    method ListXattr(path: Bytes, buffSize: nat) returns (r: Outcome<()>, length: nat, list: Bytes)
      requires Valid()
      ensures Fails(path, r) && (!Absolute(path) ==> r == Threw)
      ensures Lands(path) ==> exists t :: Lies(path, t) && NamesListed(t.xattrs, buffSize, r, length, list)
      ensures Resolvable(path) ==>
        match Target(path)
        case None => r == Failed(NOT_FOUND)
        case Some(t) => NamesListed(t.xattrs, buffSize, r, length, list)
    {
      length, list := 0, [];
      var o, t := Resolve(path);
      match o {
        case Threw => r := Threw;
        case Lost => r := Lost;
        case Failed(code) => r := Failed(code);
        case Got(offset) => r, length, list := ListNames(offset, t, buffSize);
      }
    }

    method ListNames(offset: nat, ghost t: Option<Tree>, buffSize: nat)
      returns (r: Outcome<()>, length: nat, list: Bytes)
      requires t.Some? ==> Holds(data, offset, t.value)
      ensures t.Some? ==> NamesListed(t.value.xattrs, buffSize, r, length, list)
    {
      length, list := 0, [];
      if t.Some? {
        NodeFields(data, offset, t.value);
        ListingStart(t.value.xattrs, buffSize);
      }
      if offset + NODE > |data| {
        return Lost, length, list;
      }
      var n := Half(data, offset + XATTRS_COUNT);
      var room: nat := buffSize;
      ghost var copied: nat := 0;
      var i := 0;
      while i < n
        invariant t.Some? ==> n == |t.value.xattrs|
        invariant t.Some? ==> Listing(t.value.xattrs, buffSize, i, copied, length, room, list)
      {
        var name := ReadName(offset, t, i);
        if name.None? {
          return Lost, length, list;
        }
        if t.Some? {
          ListingNext(t.value.xattrs, buffSize, i, copied, length, room, list);
        }
        var res := |name.value| + 1;
        length := length + res;
        if room == 0 {
        } else if res > room {
          return Failed(TOO_LONG), length, list;
        } else {
          list := list + name.value + [0];
          room := room - res;
          copied := copied + 1;
        }
        i := i + 1;
      }
      if t.Some? {
        ListingEnd(t.value.xattrs, buffSize, copied, length, room, list);
      }
      r := Got(());
    }

    /** The name in row `i` of the attribute table behind a node, if it lies in the image. */
    method ReadName(offset: nat, ghost t: Option<Tree>, i: nat) returns (name: Option<Bytes>)
      requires t.Some? ==> Holds(data, offset, t.value) && i < |t.value.xattrs|
      ensures t.Some? ==> name == Some(t.value.xattrs[i].name)
    {
      if t.Some? {
        XattrNameRead(data, offset, t.value, i);
      }
      var row := offset + NODE + Rows(i);
      if row + ENTRY > |data| || !Ends(data, Word(data, row)) {
        return None;
      }
      return Some(StringAt(data, Word(data, row)));
    }

    /** The entries of a directory from row `startAt` on, until the receiver takes no more. */
    method GetDir(path: Bytes, startAt: nat, room: nat) returns (r: Outcome<seq<(Bytes, Attr)>>)
      requires Valid()
      ensures Fails(path, r) && (!Absolute(path) ==> r == Threw)
      ensures forall t :: Lies(path, t) ==> r == RowsOf(t, startAt, room) && RowsShown(t, startAt, room, r)
      ensures Resolvable(path) ==>
        r == match Target(path) { case None => Failed(NOT_FOUND) case Some(t) => RowsOf(t, startAt, room) }
    {
      var o, t := Resolve(path);
      match o {
        case Threw => r := Threw;
        case Lost => r := Lost;
        case Failed(code) => r := Failed(code);
        case Got(offset) => r := ListRows(offset, t, startAt, room);
      }
      forall u | Lies(path, u) ensures r == RowsOf(u, startAt, room) && RowsShown(u, startAt, room, r) {
        RowsAgree(data, Resolved(path).value, t.value, u, startAt, room);
        RowsOfShown(data, Resolved(path).value, u, startAt, room);
      }
    }

    method ListRows(offset: nat, ghost t: Option<Tree>, startAt: nat, room: nat)
      returns (r: Outcome<seq<(Bytes, Attr)>>)
      requires t.Some? ==> Holds(data, offset, t.value)
      ensures t.Some? ==> r == RowsOf(t.value, startAt, room)
    {
      if t.Some? {
        NodeFields(data, offset, t.value);
      }
      if offset + NODE > |data| {
        return Lost;
      }
      if !IsDir(Half(data, offset)) {
        return Failed(BAD_TYPE);
      }
      var dirents := Word(data, offset + DATA_OFFSET);
      r := ListFrom(offset, t, dirents, Word(data, offset + LENGTH), startAt, room);
    }

    method ListFrom(ghost offset: nat, ghost t: Option<Tree>, dirents: nat, n: nat, startAt: nat, room: nat)
      returns (r: Outcome<seq<(Bytes, Attr)>>)
      requires t.Some? ==>
        Holds(data, offset, t.value) && t.value.Dir? && n == |t.value.entries| && dirents == DataPos(offset, t.value)
      ensures t.Some? ==> r == Got(Page(t.value.entries, startAt, room))
    {
      var listed: seq<(Bytes, Attr)> := [];
      var i := startAt;
      while i < n
        invariant startAt <= i && (i <= n || i == startAt)
        invariant |listed| == i - startAt <= room
        invariant t.Some? ==> listed == Page(t.value.entries, startAt, i - startAt)
      {
        var row := ReadRow(offset, t, dirents, i);
        if row.None? {
          return Lost;
        }
        if |listed| == room {
          return Got(listed);
        }
        listed := listed + [row.value];
        i := i + 1;
      }
      r := Got(listed);
    }

    /** Row `i` of a directory: name and attributes of the child, if they lie in the image. */
    method ReadRow(ghost offset: nat, ghost t: Option<Tree>, dirents: nat, i: nat) returns (row: Option<(Bytes, Attr)>)
      requires t.Some? ==>
        Holds(data, offset, t.value) && t.value.Dir? && i < |t.value.entries| && dirents == DataPos(offset, t.value)
      ensures t.Some? ==> row == Some((t.value.entries[i].name, AttrOf(t.value.entries[i].tree.st)))
    {
      if t.Some? {
        DirRowRead(data, offset, t.value, i);
      }
      var at := dirents + Rows(i);
      if at + ENTRY > |data| || Word(data, at + WORD) + NODE > |data| || !Ends(data, Word(data, at)) {
        return None;
      }
      return Some((StringAt(data, Word(data, at)), StatIn(data, Word(data, at + WORD))));
    }
  }

  /** A stored string that ends inside the image. */
  predicate Ends(img: Bytes, off: nat) {
    off + |StringAt(img, off)| < |img|
  }

  // ---------------------------------------------------------------- reading encoded nodes

  /** The attributes that the bytes of a node show. */
  function StatIn(img: Bytes, pos: nat): Attr
    requires pos + NODE <= |img|
  {
    var mode := Half(img, pos);
    var mtime := TimeOf(Word(img, pos + MTIME));
    Attr(mode, if IsDir(mode) then 2 else 1, Half(img, pos + UID), Half(img, pos + GID),
         Word(img, pos + SIZE), Word(img, pos + BLOCKS), mtime, mtime, TimeOf(Word(img, pos + CTIME)))
  }

  lemma StatRead(img: Bytes, pos: nat, t: Tree)
    requires Holds(img, pos, t)
    ensures pos + NODE <= |img| && StatIn(img, pos) == AttrOf(t.st)
  {
    assert OpenTree(0);
    var st := t.st;
    assert StatAt(img, pos, st) && ValidStat(st);
    ReadHalf(img, pos, st.mode);
    ReadHalf(img, pos + UID, st.uid);
    ReadHalf(img, pos + GID, st.gid);
    ReadWord(img, pos + SIZE, st.size);
    ReadWord(img, pos + BLOCKS, st.blocks);
    ReadWord(img, pos + MTIME, NanoSeconds(st.mtime));
    ReadWord(img, pos + CTIME, NanoSeconds(st.ctime));
  }

  lemma {:induction false} ComponentsNulFree(s: Bytes)
    requires NulFree(s)
    ensures NulFreeAll(Components(s))
    decreases |s|
  {
    var k := FirstSlash(s);
    if k < |s| {
      ComponentsNulFree(s[k + 1..]);
    }
  }

  /** Resolving a path through plain directories gives the node that the tree has under that path. */
  lemma PathResolves(img: Bytes, root: Tree, path: Bytes)
    requires Holds(img, WORD, root)
    requires |path| > 0 && path[0] == SLASH && NulFree(path) && PlainAlong(root, Components(path[1..]))
    ensures Locate(img, WORD, Components(path[1..])) ==
      match Lookup(root, path) { case None => Offset(0) case Some(p) => Offset(PosOf(WORD, root, p)) }
    ensures Lookup(root, path).Some? ==>
      var p := Lookup(root, path).value; PosOf(WORD, root, p) > 0 && Holds(img, PosOf(WORD, root, p), Sub(root, p))
  {
    assert OpenTree(0);
    var comps := Components(path[1..]);
    ComponentsNulFree(path[1..]);
    LocateCorrect(img, WORD, root, comps);
    ExpectedIsFind(WORD, root, comps);
    if Lookup(root, path).Some? {
      var p := Lookup(root, path).value;
      EncodesSub(img, WORD, root, p);
      SubWellFormed(root, p);
    }
  }

  lemma LinkRead(img: Bytes, pos: nat, t: Tree)
    requires Holds(img, pos, t)
    ensures pos + NODE <= |img| && (IsLnk(Half(img, pos)) <==> t.Link?)
    ensures t.Link? ==>
      StringAt(img, Word(img, pos + DATA_OFFSET)) == t.target && Ends(img, Word(img, pos + DATA_OFFSET))
  {
    NodeFields(img, pos, t);
    if t.Link? {
      TargetRead(img, pos, t);
    }
  }

  lemma TargetRead(img: Bytes, pos: nat, t: Tree)
    requires Holds(img, pos, t) && t.Link?
    ensures StringAt(img, DataPos(pos, t)) == t.target && Ends(img, DataPos(pos, t))
  {
    assert OpenTree(0);
    assert BodyAt(img, pos, t) && WellFormedNode(t);
    CStringOfNulFree(t.target);
    StringRead(img, DataPos(pos, t), t.target);
  }

  /** A directory row shows the name of an entry and the attributes of its node. */
  ghost predicate RowShows(img: Bytes, row: nat, name: Bytes, attr: Attr) {
    && row + ENTRY <= |img|
    && StringAt(img, Word(img, row)) == name && Ends(img, Word(img, row))
    && Word(img, row + WORD) + NODE <= |img|
    && StatIn(img, Word(img, row + WORD)) == attr
  }

  lemma DirRowRead(img: Bytes, pos: nat, t: Tree, i: nat)
    requires Holds(img, pos, t) && t.Dir? && i < |t.entries|
    ensures RowShows(img, DataPos(pos, t) + Rows(i), t.entries[i].name, AttrOf(t.entries[i].tree.st))
  {
    DirRowHeld(img, pos, t, i);
    HoldsKid(img, pos, t, i);
    RowReads(img, DataPos(pos, t), i, KidPos(pos, t, i), t.entries[i]);
  }

  /** Entries that show the same names and attributes. */
  ghost predicate SameRows(es: seq<DirEntry>, fs: seq<DirEntry>) {
    && |es| == |fs|
    && forall i :: 0 <= i < |es| ==> es[i].name == fs[i].name && AttrOf(es[i].tree.st) == AttrOf(fs[i].tree.st)
  }

  lemma SamePages(es: seq<DirEntry>, fs: seq<DirEntry>, start: nat, room: nat)
    requires SameRows(es, fs)
    ensures Page(es, start, room) == Page(fs, start, room)
  {
    var p, q := Page(es, start, room), Page(fs, start, room);
    forall i | 0 <= i < |p| ensures p[i] == q[i] {
      assert es[start + i].name == fs[start + i].name;
    }
  }

  lemma SameRow(img: Bytes, pos: nat, t: Tree, u: Tree, i: nat)
    requires Holds(img, pos, t) && Holds(img, pos, u) && t.Dir? && u.Dir? && i < |t.entries| && i < |u.entries|
    requires DataPos(pos, t) == DataPos(pos, u)
    ensures t.entries[i].name == u.entries[i].name
    ensures AttrOf(t.entries[i].tree.st) == AttrOf(u.entries[i].tree.st)
  {
    DirRowRead(img, pos, t, i);
    DirRowRead(img, pos, u, i);
  }

  /** Two trees that the same bytes encode list the same. */
  lemma RowsAgree(img: Bytes, pos: nat, t: Tree, u: Tree, startAt: nat, room: nat)
    requires Holds(img, pos, t) && Holds(img, pos, u)
    ensures RowsOf(t, startAt, room) == RowsOf(u, startAt, room)
  {
    NodeFields(img, pos, t);
    NodeFields(img, pos, u);
    if t.Dir? {
      forall i: nat | i < |t.entries|
        ensures t.entries[i].name == u.entries[i].name
        ensures AttrOf(t.entries[i].tree.st) == AttrOf(u.entries[i].tree.st)
      {
        SameRow(img, pos, t, u, i);
      }
      SamePages(t.entries, u.entries, startAt, room);
    }
  }

  lemma RowReads(img: Bytes, table: nat, i: nat, kid: nat, e: DirEntry)
    requires Row(img, table, i, e.name, kid) && NulFree(e.name) && Holds(img, kid, e.tree)
    ensures RowShows(img, table + Rows(i), e.name, AttrOf(e.tree.st))
  {
    StringRead(img, Word(img, table + Rows(i)), e.name);
    StatRead(img, kid, e.tree);
  }

  /** The first `room` entries of a directory from row `start` on, with their attributes. */
  function Page(es: seq<DirEntry>, start: nat, room: nat): (page: seq<(Bytes, Attr)>)
    ensures |page| == if start >= |es| then 0 else Min(room, |es| - start)
    ensures forall i :: 0 <= i < |page| ==> page[i] == (es[start + i].name, AttrOf(es[start + i].tree.st))
  {
    var n := if start >= |es| then 0 else Min(room, |es| - start);
    seq(n, i requires 0 <= i < n => (es[start + i].name, AttrOf(es[start + i].tree.st)))
  }

  /** What listing the rows of a directory must return. */
  function RowsOf(t: Tree, startAt: nat, room: nat): Outcome<seq<(Bytes, Attr)>> {
    if t.Dir? then Got(Page(t.entries, startAt, room)) else Failed(BAD_TYPE)
  }

  /** Rows show names and attributes of the entries from one on, in order: as many as there are and are taken. */
  ghost predicate PageShown(es: seq<DirEntry>, start: nat, room: nat, page: seq<(Bytes, Attr)>) {
    && |page| == (if start >= |es| then 0 else Min(room, |es| - start))
    && forall i :: 0 <= i < |page| ==>
         page[i].0 == es[start + i].name && Shows(page[i].1, es[start + i].tree)
  }

  /** What listing the rows of a directory must show. */
  ghost predicate RowsShown(t: Tree, startAt: nat, room: nat, r: Outcome<seq<(Bytes, Attr)>>) {
    if t.Dir? then r.Got? && PageShown(t.entries, startAt, room, r.value) else r == Failed(BAD_TYPE)
  }

  lemma PageOfShown(img: Bytes, pos: nat, t: Tree, start: nat, room: nat)
    requires Holds(img, pos, t) && t.Dir?
    ensures PageShown(t.entries, start, room, Page(t.entries, start, room))
  {
    var page := Page(t.entries, start, room);
    forall i: nat | i < |page|
      ensures page[i].0 == t.entries[start + i].name && Shows(page[i].1, t.entries[start + i].tree)
    {
      HoldsKid(img, pos, t, start + i);
      HeldShows(img, KidPos(pos, t, start + i), t.entries[start + i].tree);
    }
  }

  lemma RowsOfShown(img: Bytes, pos: nat, t: Tree, startAt: nat, room: nat)
    requires Holds(img, pos, t)
    ensures RowsShown(t, startAt, room, RowsOf(t, startAt, room))
  {
    if t.Dir? {
      PageOfShown(img, pos, t, startAt, room);
    }
  }

  /**
   What copying a string leaves in a buffer of which `size` bytes are given: the byte behind
   them is written, which is outside when there are no more.
   */
  ghost predicate StringCopied(s: Bytes, before: Bytes, after: Bytes, size: nat, r: Outcome<()>)
    requires 0 < size <= |before|
  {
    && |after| == |before|
    && after[..size - 1] == Strncpy(s, size - 1)
    && after[size - 1] == before[size - 1]
    && if size == |before| then r == Lost
       else
         && r == (if |s| > size then Failed(TOO_LONG) else Got(()))
         && after[size] == 0 && after[size + 1..] == before[size + 1..]
  }

  /** What copying a link target does; a size of 0 wraps around. */
  ghost predicate LinkCopied(t: Tree, before: Bytes, after: Bytes, size: nat, r: Outcome<()>)
    requires size <= |before|
  {
    if !t.Link? then r == Failed(BAD_TYPE) && after == before
    else if size == 0 then r == Lost
    else StringCopied(t.target, before, after, size, r)
  }

  /** The copy of a link target stays inside the buffer exactly when the buffer is longer than the given size. */
  lemma LinkDefined(t: Tree, before: Bytes, after: Bytes, size: nat, r: Outcome<()>)
    requires t.Link? && size <= |before| && LinkCopied(t, before, after, size, r)
    ensures r != Lost <==> 0 < size < |before|
  {
  }

  /**
   Inside the `size` bytes it was given, the buffer of a link holds the terminated target
   exactly when the target is at least two bytes shorter, or when one byte shorter and the
   byte that is never written happened to be NUL.
   */
  lemma LinkTerminated(t: Tree, before: Bytes, after: Bytes, size: nat, r: Outcome<()>)
    requires 0 < size <= |before| && LinkCopied(t, before, after, size, r)
    requires t.Link? && NulFree(t.target)
    ensures At(after[..size], 0, t.target + [0]) <==>
      |t.target| + 1 < size || (|t.target| + 1 == size && before[size - 1] == 0)
  {
    var s := t.target;
    StrncpyPrefix(s, size - 1);
    if |s| + 1 < size {
      assert after[..size][..|s| + 1] == after[..size - 1][..|s| + 1] == s + [0];
    } else if |s| + 1 == size {
      assert after[..size] == s + [after[size - 1]];
      assert (s + [after[size - 1]])[|s|] == after[size - 1];
      assert (s + [0])[|s|] == 0;
    }
  }

  lemma {:induction false} StrncpyPrefix(s: Bytes, n: nat)
    requires NulFree(s)
    ensures |s| <= n ==> Strncpy(s, n)[..|s|] == s
    ensures |s| < n ==> Strncpy(s, n)[..|s| + 1] == s + [0]
  {
    if n > 0 && |s| > 0 {
      assert s[0] in s;
      StrncpyPrefix(s[1..], n - 1);
      assert s == [s[0]] + s[1..];
      if |s| <= n {
        assert Strncpy(s, n)[..|s|] == [s[0]] + Strncpy(s[1..], n - 1)[..|s| - 1];
      }
      if |s| < n {
        assert Strncpy(s, n)[..|s| + 1] == [s[0]] + Strncpy(s[1..], n - 1)[..|s|];
      }
    }
  }

  // ---------------------------------------------------------------- attributes of encoded nodes

  lemma HoldsXattr(img: Bytes, pos: nat, t: Tree, i: nat)
    requires Holds(img, pos, t) && i < |t.xattrs|
    ensures XattrAt(img, pos + NODE, t.xattrs, i) && NulFree(t.xattrs[i].name) && |img| < U64
  {
    assert OpenTree(0);
    assert SortedXattrs(t.xattrs);
    assert XattrsAt(img, pos + NODE, t.xattrs, |t.xattrs|);
  }

  lemma HoldsXattrs(img: Bytes, pos: nat, t: Tree)
    requires Holds(img, pos, t)
    ensures SortedXattrs(t.xattrs) && |t.xattrs| <= MAX_ROWS
  {
    assert OpenTree(0);
  }

  /** The attribute row `i`: name and position of the value. */
  lemma XattrRow(img: Bytes, base: nat, xs: seq<Xattr>, i: nat)
    requires i < |xs| && XattrAt(img, base, xs, i) && NulFree(xs[i].name) && |img| < U64
    ensures Row(img, base, i, xs[i].name, ValuePos(base, xs, i))
  {
    ReadWord(img, base + Rows(i), XattrPos(base, xs, i));
    ReadWord(img, base + Rows(i) + WORD, ValuePos(base, xs, i));
    CStringOfNulFree(xs[i].name);
  }

  lemma XattrNameRead(img: Bytes, pos: nat, t: Tree, i: nat)
    requires Holds(img, pos, t) && i < |t.xattrs|
    ensures RowNamed(img, pos + NODE, i, t.xattrs[i].name)
  {
    HoldsXattr(img, pos, t, i);
    RowName(img, pos + NODE, t.xattrs, i);
  }

  /** The name that row `i` of a table refers to. */
  ghost predicate RowNamed(img: Bytes, base: nat, i: nat, name: Bytes) {
    && base + Rows(i) + ENTRY <= |img|
    && StringAt(img, Word(img, base + Rows(i))) == name && Ends(img, Word(img, base + Rows(i)))
  }

  lemma RowName(img: Bytes, base: nat, xs: seq<Xattr>, i: nat)
    requires i < |xs| && XattrAt(img, base, xs, i) && NulFree(xs[i].name) && |img| < U64
    ensures RowNamed(img, base, i, xs[i].name)
  {
    XattrRow(img, base, xs, i);
    StringRead(img, Word(img, base + Rows(i)), xs[i].name);
  }

  /** The value behind a row: its length, and the bytes that `strncpy` stored. */
  lemma ValueRead(img: Bytes, base: nat, xs: seq<Xattr>, i: nat)
    requires i < |xs| && XattrAt(img, base, xs, i) && |xs[i].value| < U64
    ensures ValuePos(base, xs, i) + WORD + |xs[i].value| <= |img|
    ensures Word(img, ValuePos(base, xs, i)) == |xs[i].value|
    ensures var v := ValuePos(base, xs, i) + WORD;
      img[v..v + |xs[i].value|] == CString(xs[i].value)[..|xs[i].value|]
  {
    var p := ValuePos(base, xs, i);
    var v := p + WORD;
    ReadWord(img, p, |xs[i].value|);
    assert img[v..v + |xs[i].value|] == img[v..v + |xs[i].value| + 1][..|xs[i].value|];
  }

  function XattrNames(xs: seq<Xattr>): (names: seq<Bytes>)
    ensures |names| == |xs|
    ensures forall i :: 0 <= i < |xs| ==> names[i] == xs[i].name
  {
    Mapped(xs, (x: Xattr) => x.name)
  }

  function ValuePositions(base: nat, xs: seq<Xattr>): (ps: seq<nat>)
    ensures |ps| == |xs|
    ensures forall i :: 0 <= i < |xs| ==> ps[i] == ValuePos(base, xs, i)
  {
    seq(|xs|, i requires 0 <= i < |xs| => ValuePos(base, xs, i))
  }

  lemma XattrTable(img: Bytes, pos: nat, t: Tree)
    requires Holds(img, pos, t)
    ensures Table(img, pos + NODE, XattrNames(t.xattrs), ValuePositions(pos + NODE, t.xattrs))
  {
    var xs := t.xattrs;
    var names := XattrNames(xs);
    HoldsXattrs(img, pos, t);
    forall i | 0 <= i < |xs|
      ensures NulFree(names[i]) && Row(img, pos + NODE, i, names[i], ValuePos(pos + NODE, xs, i))
    {
      HoldsXattr(img, pos, t, i);
      XattrRow(img, pos + NODE, xs, i);
    }
    assert SortedNames(names);
  }

  /** The attribute with a given name. */
  function XattrIndex(xs: seq<Xattr>, name: Bytes): (r: Option<nat>)
    ensures r.Some? ==> r.value < |xs| && xs[r.value].name == name
    ensures r.None? ==> forall i :: 0 <= i < |xs| ==> xs[i].name != name
  {
    if |xs| == 0 then None
    else if xs[|xs| - 1].name == name then Some(|xs| - 1)
    else XattrIndex(xs[..|xs| - 1], name)
  }

  /** What searching a table of attributes must return. */
  function XattrFound(base: nat, xs: seq<Xattr>, name: Bytes): Search {
    match XattrIndex(xs, name)
    case None => Offset(0)
    case Some(i) => Offset(ValuePos(base, xs, i))
  }

  lemma XattrAbsent(img: Bytes, base: nat, xs: seq<Xattr>, name: Bytes)
    requires Table(img, base, XattrNames(xs), ValuePositions(base, xs)) && NulFree(name)
    requires forall i :: 0 <= i < |xs| ==> xs[i].name != name
    ensures FindRow(img, base, |xs|, name) == Offset(0)
  {
    FindRowCorrect(img, base, XattrNames(xs), ValuePositions(base, xs), name);
  }

  lemma XattrPresent(img: Bytes, base: nat, xs: seq<Xattr>, i: nat)
    requires Table(img, base, XattrNames(xs), ValuePositions(base, xs)) && i < |xs| && NulFree(xs[i].name)
    ensures FindRow(img, base, |xs|, xs[i].name) == Offset(ValuePos(base, xs, i))
  {
    assert XattrNames(xs)[i] == xs[i].name;
    FindRowCorrect(img, base, XattrNames(xs), ValuePositions(base, xs), xs[i].name);
  }

  lemma XattrRowOfName(img: Bytes, base: nat, xs: seq<Xattr>, name: Bytes)
    requires Table(img, base, XattrNames(xs), ValuePositions(base, xs)) && NulFree(name)
    ensures FindRow(img, base, |xs|, name) == XattrFound(base, xs, name)
  {
    match XattrIndex(xs, name)
    case None => XattrAbsent(img, base, xs, name);
    case Some(i) => XattrPresent(img, base, xs, i);
  }

  /** The search for an attribute ends at the value of the attribute with that name, if there is one. */
  lemma XattrSearch(img: Bytes, pos: nat, t: Tree, name: Bytes)
    requires Holds(img, pos, t) && NulFree(name)
    ensures FindRow(img, pos + NODE, |t.xattrs|, name) == XattrFound(pos + NODE, t.xattrs, name)
  {
    XattrTable(img, pos, t);
    XattrRowOfName(img, pos + NODE, t.xattrs, name);
  }

  /** The value behind the row of an attribute. */
  lemma ValueAt(img: Bytes, pos: nat, t: Tree, name: Bytes)
    requires Holds(img, pos, t) && XattrIndex(t.xattrs, name).Some?
    ensures var x, at := t.xattrs[XattrIndex(t.xattrs, name).value], XattrFound(pos + NODE, t.xattrs, name).n;
      && at + WORD + |x.value| <= |img|
      && Word(img, at) == |x.value|
      && img[at + WORD..at + WORD + |x.value|] == CString(x.value)[..|x.value|]
  {
    var i := XattrIndex(t.xattrs, name).value;
    HoldsXattr(img, pos, t, i);
    ValueRead(img, pos + NODE, t.xattrs, i);
  }

  /** What fetching the value of an attribute must return. */
  ghost predicate ValueFetched(xs: seq<Xattr>, name: Bytes, size: nat, r: Outcome<Option<Bytes>>, length: nat) {
    match XattrIndex(xs, name)
    case None => r == Failed(NO_DATA)
    case Some(i) => Fetched(xs[i], size, r, length)
  }

  ghost predicate Fetched(x: Xattr, size: nat, r: Outcome<Option<Bytes>>, length: nat) {
    && length == |x.value|
    && r == if size == 0 then Got(None)
            else if size < length then Failed(TOO_LONG)
            else Got(Some(CString(x.value)[..length]))
  }

  /** A value is fetched as it was written exactly when nothing but NULs follows its first NUL. */
  lemma XattrRoundTrip(x: Xattr, size: nat, r: Outcome<Option<Bytes>>, length: nat)
    requires Fetched(x, size, r, length) && 0 < size && |x.value| <= size
    ensures r == Got(Some(x.value)) <==> NulTail(x.value)
  {
    StrncpyKeeps(x.value);
  }

  /** How many of the names from `i` on fit into a buffer, all names before `i` included. */
  function FitFrom(xs: seq<Xattr>, i: nat, size: nat): (k: nat)
    requires i <= |xs|
    ensures i <= k <= |xs|
    ensures k < |xs| ==> NamesTotal(xs, k + 1) > size
    ensures i < k ==> NamesTotal(xs, k) <= size
    decreases |xs| - i
  {
    if i == |xs| || NamesTotal(xs, i + 1) > size then i else FitFrom(xs, i + 1, size)
  }

  /**
   What listing attribute names must return: the total for size 0, else the names that fit.
   If not all fit, the buffer that is exactly full still counts as success, with the total.
   */
  ghost predicate NamesListed(xs: seq<Xattr>, size: nat, r: Outcome<()>, length: nat, list: Bytes) {
    var total := NamesTotal(xs, |xs|);
    if size == 0 then r == Got(()) && length == total && list == []
    else
      var k := FitFrom(xs, 0, size);
      && list == NameList(xs, k)
      && if k == |xs| || NamesTotal(xs, k) == size then r == Got(()) && length == total
         else r == Failed(TOO_LONG) && length == NamesTotal(xs, k + 1)
  }

  /** The state of the listing after `i` names, of which the first `copied` are in the list. */
  ghost predicate Listing(xs: seq<Xattr>, size: nat, i: nat, copied: nat, length: nat, room: nat, list: Bytes) {
    && copied <= i <= |xs|
    && length == NamesTotal(xs, i) && list == NameList(xs, copied)
    && room == size - NamesTotal(xs, copied)
    && (copied < i ==> room == 0)
    && (size > 0 ==> FitFrom(xs, 0, size) == FitFrom(xs, copied, size))
  }

  lemma ListingStart(xs: seq<Xattr>, size: nat)
    ensures Listing(xs, size, 0, 0, 0, size, [])
  {
  }

  lemma ListingNext(xs: seq<Xattr>, size: nat, i: nat, copied: nat, length: nat, room: nat, list: Bytes)
    requires Listing(xs, size, i, copied, length, room, list) && i < |xs|
    ensures var res := |xs[i].name| + 1;
      if room == 0 then Listing(xs, size, i + 1, copied, length + res, 0, list)
      else if res > room then NamesListed(xs, size, Failed(TOO_LONG), length + res, list)
      else Listing(xs, size, i + 1, copied + 1, length + res, room - res, list + xs[i].name + [0])
  {
  }

  lemma ListingEnd(xs: seq<Xattr>, size: nat, copied: nat, length: nat, room: nat, list: Bytes)
    requires Listing(xs, size, |xs|, copied, length, room, list)
    ensures NamesListed(xs, size, Got(()), length, list)
  {
    if copied < |xs| && size > 0 {
      NamesTotalMonotone(xs, copied, copied + 1);
      assert FitFrom(xs, copied, size) == copied;
    } else if copied < |xs| {
      NamesTotalMonotone(xs, 0, copied);
    }
  }
}
