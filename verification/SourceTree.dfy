/**
 The directory tree that is packed, and what a path means in it.

 A directory lists its supported entries in the order `std::sort` leaves them.
 */
module SourceTree {
  import opened Prelude
  import opened ByteImage

  /** A time stamp, as `struct timespec`. */
  datatype Time = Time(sec: int, nsec: nat)

  datatype Stat = Stat(mode: nat, uid: nat, gid: nat, size: nat, blocks: nat, mtime: Time, ctime: Time)

  datatype Xattr = Xattr(name: Bytes, value: Bytes)

  /** What opening a regular file gives: its bytes, or the error that `open` reports. */
  datatype Content = Readable(bytes: Bytes) | Missing | Denied

  /** What can be read of a file. */
  function BytesOf(content: Content): Bytes {
    match content
    case Readable(bytes) => bytes
    case _ => []
  }

  datatype DirEntry = DirEntry(name: Bytes, tree: Tree)

  datatype Tree =
    | File(st: Stat, xattrs: seq<Xattr>, content: Content)
    | Link(st: Stat, xattrs: seq<Xattr>, target: Bytes)
    | Dir(st: Stat, xattrs: seq<Xattr>, entries: seq<DirEntry>)

  // ---------------------------------------------------------------- file modes

  predicate IsDir(mode: nat) {
    mode / 4096 % 16 == 4
  }

  predicate IsReg(mode: nat) {
    mode / 4096 % 16 == 8
  }

  predicate IsLnk(mode: nat) {
    mode / 4096 % 16 == 10
  }

  // ---------------------------------------------------------------- well-formed trees

  const BILLION := 1_000_000_000

  // The range in which seconds times a billion stays inside a signed 64-bit integer.
  ghost predicate ValidTime(t: Time) {
    t.nsec < BILLION && -9223372036 <= t.sec <= 9223372035
  }

  ghost predicate ValidStat(st: Stat) {
    && st.mode < U32 && st.uid < U32 && st.gid < U32
    && st.size < U64 && st.blocks < U64
    && ValidTime(st.mtime) && ValidTime(st.ctime)
  }

  /** A file name: nonempty, without NUL and without a slash. */
  ghost predicate ValidName(name: Bytes) {
    |name| > 0 && NulFree(name) && SLASH !in name
  }

  ghost predicate SortedXattrs(xs: seq<Xattr>) {
    && (forall i :: 0 <= i < |xs| ==> NulFree(xs[i].name))
    && (forall i, j :: 0 <= i < j < |xs| ==> Compare(xs[i].name, xs[j].name) == Less)
  }

  ghost predicate SortedEntries(es: seq<DirEntry>) {
    && (forall i :: 0 <= i < |es| ==> ValidName(es[i].name))
    && (forall i, j :: 0 <= i < j < |es| ==> Compare(es[i].name, es[j].name) == Less)
  }

  // Tables of at most this many rows are searched without overflow of a 32-bit int.
  const MAX_ROWS := 0x4000_0000

  ghost predicate WellFormedNode(t: Tree) {
    && ValidStat(t.st)
    && |t.xattrs| <= MAX_ROWS && SortedXattrs(t.xattrs)
    && match t {
      case File(_, _, _) => IsReg(t.st.mode)
      case Link(_, _, target) => IsLnk(t.st.mode) && NulFree(target)
      case Dir(_, _, es) => IsDir(t.st.mode) && |es| <= MAX_ROWS && SortedEntries(es)
    }
  }

  ghost predicate WellFormed(t: Tree) {
    && WellFormedNode(t)
    && (t.Dir? ==> forall i :: 0 <= i < |t.entries| ==> WellFormed(t.entries[i].tree))
  }

  // ---------------------------------------------------------------- index paths

  /** A chain of child indices that starts at `t`. */
  ghost predicate ValidPath(t: Tree, path: seq<nat>)
    decreases |path|
  {
    |path| > 0 ==>
      t.Dir? && path[0] < |t.entries| && ValidPath(t.entries[path[0]].tree, path[1..])
  }

  function Sub(t: Tree, path: seq<nat>): Tree
    requires ValidPath(t, path)
    decreases |path|
  {
    if |path| == 0 then t else Sub(t.entries[path[0]].tree, path[1..])
  }

  /** The name under which a chain of indices is known: empty for the root, else "/a/b". */
  ghost function PathName(t: Tree, path: seq<nat>): Bytes
    requires ValidPath(t, path)
    decreases |path|
  {
    if |path| == 0 then []
    else [SLASH] + t.entries[path[0]].name + PathName(t.entries[path[0]].tree, path[1..])
  }

  lemma {:induction false} SubWellFormed(t: Tree, path: seq<nat>)
    requires WellFormed(t) && ValidPath(t, path)
    ensures WellFormed(Sub(t, path))
    decreases |path|
  {
    if |path| > 0 {
      SubWellFormed(t.entries[path[0]].tree, path[1..]);
    }
  }

  /** Extending a chain by one child. */
  lemma {:induction false} ExtendPath(t: Tree, path: seq<nat>, i: nat)
    requires ValidPath(t, path) && Sub(t, path).Dir? && i < |Sub(t, path).entries|
    ensures ValidPath(t, path + [i])
    ensures Sub(t, path + [i]) == Sub(t, path).entries[i].tree
    ensures PathName(t, path + [i]) == PathName(t, path) + [SLASH] + Sub(t, path).entries[i].name
    decreases |path|
  {
    if |path| == 0 {
      assert (path + [i])[1..] == [];
    } else {
      assert (path + [i])[1..] == path[1..] + [i];
      ExtendPath(t.entries[path[0]].tree, path[1..], i);
      assert path + [i] == [path[0]] + (path[1..] + [i]);
    }
  }

  /** Every chain is a chain of its prefixes. */
  lemma {:induction false} PrefixPath(t: Tree, path: seq<nat>, k: nat)
    requires ValidPath(t, path) && k < |path|
    ensures ValidPath(t, path[..k])
    ensures Sub(t, path[..k]).Dir? && path[k] < |Sub(t, path[..k]).entries|
    decreases |path|
  {
    if k > 0 {
      PrefixPath(t.entries[path[0]].tree, path[1..], k - 1);
      assert path[..k][1..] == path[1..][..k - 1];
    }
  }

  // ---------------------------------------------------------------- path names

  /** The position of the first slash, or the length when there is none. */
  function FirstSlash(s: Bytes): (k: nat)
    ensures k <= |s|
    ensures SLASH !in s[..k]
    ensures k < |s| ==> s[k] == SLASH
  {
    if |s| == 0 || s[0] == SLASH then 0
    else
      var k := FirstSlash(s[1..]);
      assert s[..1 + k] == [s[0]] + s[1..][..k];
      1 + k
  }

  /**
   The components of the text after the leading slash of a path: the pieces between
   slashes, where a last piece that is empty does not count.
   */
  function Components(s: Bytes): seq<Bytes>
    decreases |s|
  {
    var k := FirstSlash(s);
    if k < |s| then [s[..k]] + Components(s[k + 1..])
    else if |s| == 0 then []
    else [s]
  }

  /** The row of a directory with a given name. */
  function IndexOf(es: seq<DirEntry>, name: Bytes): (r: Option<nat>)
    ensures r.Some? ==> r.value < |es| && es[r.value].name == name
    ensures r.None? ==> forall i :: 0 <= i < |es| ==> es[i].name != name
  {
    if |es| == 0 then None
    else if es[0].name == name then Some(0)
    else
      match IndexOf(es[1..], name)
      case None =>
        assert forall i :: 1 <= i < |es| ==> es[i] == es[1..][i - 1];
        None
      case Some(k) => Some(k + 1)
  }

  /** The node that a list of components names, as its chain of indices. */
  function Find(t: Tree, comps: seq<Bytes>): (r: Option<seq<nat>>)
    ensures r.Some? ==> ValidPath(t, r.value)
    decreases |comps|
  {
    if |comps| == 0 then Some([])
    else if !t.Dir? then None
    else
      match IndexOf(t.entries, comps[0])
      case None => None
      case Some(i) =>
        match Find(t.entries[i].tree, comps[1..])
        case None => None
        case Some(path) =>
          assert ([i] + path)[1..] == path;
          Some([i] + path)
  }

  /** The meaning of an absolute path. */
  function Lookup(t: Tree, path: Bytes): (r: Option<seq<nat>>)
    ensures r.Some? ==> ValidPath(t, r.value)
  {
    if |path| == 0 then Some([])
    else if path[0] != SLASH then None
    else Find(t, Components(path[1..]))
  }

  lemma {:induction false} FirstSlashOf(name: Bytes, rest: Bytes)
    requires SLASH !in name
    requires |rest| == 0 || rest[0] == SLASH
    ensures FirstSlash(name + rest) == |name|
  {
    if |name| > 0 {
      assert name[0] in name;
      FirstSlashOf(name[1..], rest);
      assert (name + rest)[1..] == name[1..] + rest;
    } else {
      assert name + rest == rest;
    }
  }

  lemma ComponentsOf(name: Bytes, rest: Bytes)
    requires SLASH !in name && |name| + |rest| > 0
    requires |rest| == 0 || rest[0] == SLASH
    ensures Components(name + rest) == [name] + (if |rest| == 0 then [] else Components(rest[1..]))
  {
    var s := name + rest;
    FirstSlashOf(name, rest);
    assert s[..|name|] == name;
    if |rest| > 0 {
      assert s[|name| + 1..] == rest[1..];
    } else {
      assert s == name;
    }
  }

  /** Names are unique in a sorted directory. */
  lemma UniqueName(es: seq<DirEntry>, i: nat)
    requires SortedEntries(es) && i < |es|
    ensures IndexOf(es, es[i].name) == Some(i)
  {
    var r := IndexOf(es, es[i].name);
    if r.value != i {
      CompareEqual(es[i].name, es[r.value].name);
    }
  }

  ghost function NamesAlong(t: Tree, path: seq<nat>): seq<Bytes>
    requires ValidPath(t, path)
    decreases |path|
  {
    if |path| == 0 then []
    else [t.entries[path[0]].name] + NamesAlong(t.entries[path[0]].tree, path[1..])
  }

  lemma {:induction false} FindNames(t: Tree, path: seq<nat>)
    requires WellFormed(t) && ValidPath(t, path)
    ensures Find(t, NamesAlong(t, path)) == Some(path)
    decreases |path|
  {
    if |path| > 0 {
      var c := t.entries[path[0]].tree;
      FindNames(c, path[1..]);
      UniqueName(t.entries, path[0]);
      var names := NamesAlong(t, path);
      assert names[1..] == NamesAlong(c, path[1..]);
      assert [path[0]] + path[1..] == path;
    }
  }

  lemma {:induction false} ComponentsAlong(t: Tree, path: seq<nat>)
    requires WellFormed(t) && ValidPath(t, path) && |path| > 0
    ensures PathName(t, path)[0] == SLASH
    ensures Components(PathName(t, path)[1..]) == NamesAlong(t, path)
    ensures NulFree(PathName(t, path))
    decreases |path|
  {
    var e := t.entries[path[0]];
    var rest := PathName(e.tree, path[1..]);
    assert ValidName(e.name);
    assert PathName(t, path)[1..] == e.name + rest;
    if |path| > 1 {
      ComponentsAlong(e.tree, path[1..]);
    }
    ComponentsOf(e.name, rest);
  }

  /** A node is found under the name of its chain. */
  lemma PathNameFound(t: Tree, path: seq<nat>)
    requires WellFormed(t) && ValidPath(t, path)
    ensures Lookup(t, PathName(t, path)) == Some(path)
    ensures NulFree(PathName(t, path))
  {
    if |path| > 0 {
      ComponentsAlong(t, path);
      FindNames(t, path);
    }
  }
}
