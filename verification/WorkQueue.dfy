/** The breadth-first walk over the nodes of a tree: what is waiting, what was visited, and that nothing is missed. */
module WorkQueue {
  import opened Prelude
  import opened SourceTree
  import opened Image

  ghost predicate FilePath(root: Tree, path: seq<nat>) {
    ValidPath(root, path) && Sub(root, path).File?
  }

  /** No waiting node lies below another one, none above a visited one, and none was visited twice. */
  ghost predicate Apart(waiting: seq<seq<nat>>, visited: seq<seq<nat>>) {
    && (forall i, j :: 0 <= i < j < |waiting| ==> !(waiting[i] <= waiting[j]) && !(waiting[j] <= waiting[i]))
    && (forall i, k :: 0 <= i < |waiting| && 0 <= k < |visited| ==> !(waiting[i] <= visited[k]))
    && Distinct(visited)
  }

  ghost predicate Above(waiting: seq<seq<nat>>, path: seq<nat>) {
    exists i :: 0 <= i < |waiting| && waiting[i] <= path
  }

  /** Every file was visited or lies below a waiting node. */
  ghost predicate Covers(root: Tree, waiting: seq<seq<nat>>, visited: seq<seq<nat>>) {
    && (forall i :: 0 <= i < |waiting| ==> ValidPath(root, waiting[i]))
    && (forall k :: 0 <= k < |visited| ==> FilePath(root, visited[k]))
    && (forall path :: FilePath(root, path) ==> path in visited || Above(waiting, path))
  }

  ghost predicate Walk(root: Tree, waiting: seq<seq<nat>>, visited: seq<seq<nat>>) {
    Apart(waiting, visited) && Covers(root, waiting, visited)
  }

  lemma WalkStart(root: Tree)
    ensures Walk(root, [[]], [])
  {
    forall path: seq<nat> ensures Above([[]], path) {
      assert [[]][0] <= path;
    }
  }

  /** When nothing waits any more, every file was visited exactly once. */
  lemma WalkEnd(root: Tree, visited: seq<seq<nat>>)
    requires Walk(root, [], visited)
    ensures Distinct(visited)
    ensures forall path :: FilePath(root, path) <==> path in visited
  {
    forall path | path in visited ensures FilePath(root, path) {
      var k :| 0 <= k < |visited| && visited[k] == path;
    }
  }

  /** Only directories have nodes below them. */
  lemma {:induction false} NothingBelow(root: Tree, q: seq<nat>, path: seq<nat>)
    requires ValidPath(root, q) && ValidPath(root, path) && q <= path && !Sub(root, q).Dir?
    ensures path == q
    decreases |q|
  {
    if |q| > 0 {
      assert path[0] == q[0] && q[1..] <= path[1..];
      NothingBelow(root.entries[q[0]].tree, q[1..], path[1..]);
      assert q == [q[0]] + q[1..] && path == [path[0]] + path[1..];
    }
  }

  lemma PopApart(waiting: seq<seq<nat>>, visited: seq<seq<nat>>)
    requires |waiting| > 0 && Apart(waiting, visited)
    ensures Apart(waiting[1..], visited)
    ensures forall i :: 1 <= i < |waiting| ==> !(waiting[i] <= waiting[0]) && !(waiting[0] <= waiting[i])
  {
  }

  lemma AboveTail(waiting: seq<seq<nat>>, path: seq<nat>)
    requires |waiting| > 0 && Above(waiting, path) && !(waiting[0] <= path)
    ensures Above(waiting[1..], path)
  {
    var i :| 0 <= i < |waiting| && waiting[i] <= path;
    assert waiting[1..][i - 1] <= path;
  }

  /** A waiting file is visited. */
  lemma VisitFile(root: Tree, waiting: seq<seq<nat>>, visited: seq<seq<nat>>)
    requires |waiting| > 0 && Walk(root, waiting, visited) && Sub(root, waiting[0]).File?
    ensures Walk(root, waiting[1..], visited + [waiting[0]])
    ensures waiting[0] !in visited
  {
    var q, rest, vs := waiting[0], waiting[1..], visited + [waiting[0]];
    PopApart(waiting, visited);
    forall k | 0 <= k < |visited| ensures visited[k] != q {
    }
    forall path | FilePath(root, path) ensures path in vs || Above(rest, path) {
      if path !in visited {
        if q <= path {
          NothingBelow(root, q, path);
        } else {
          AboveTail(waiting, path);
        }
      }
    }
  }

  /** A waiting link is dropped. */
  lemma SkipLink(root: Tree, waiting: seq<seq<nat>>, visited: seq<seq<nat>>)
    requires |waiting| > 0 && Walk(root, waiting, visited) && Sub(root, waiting[0]).Link?
    ensures Walk(root, waiting[1..], visited)
  {
    PopApart(waiting, visited);
    forall path | FilePath(root, path) ensures path in visited || Above(waiting[1..], path) {
      if path !in visited {
        if waiting[0] <= path {
          NothingBelow(root, waiting[0], path);
        } else {
          AboveTail(waiting, path);
        }
      }
    }
  }

  /** The first `n` children of a node. */
  function Kids(q: seq<nat>, n: nat): (ks: seq<seq<nat>>)
    ensures |ks| == n && forall k :: 0 <= k < n ==> ks[k] == q + [k]
  {
    seq(n, k requires 0 <= k < n => q + [k])
  }

  lemma ChildApart(q: seq<nat>, k: nat, r: seq<nat>)
    ensures q + [k] <= r ==> q <= r
    ensures r <= q + [k] ==> q <= r || r <= q
  {
    var child := q + [k];
    assert child[..|q|] == q;
    if child <= r {
      assert r[..|q|] == child[..|q|];
    }
    if r <= child {
      if |r| <= |q| {
        assert r == child[..|r|] == q[..|r|];
      } else {
        assert r == child;
      }
    }
  }

  lemma KidsApart(waiting: seq<seq<nat>>, visited: seq<seq<nat>>, n: nat)
    requires |waiting| > 0 && Apart(waiting, visited)
    ensures Apart(waiting[1..] + Kids(waiting[0], n), visited)
  {
    var q, rest, kids := waiting[0], waiting[1..], Kids(waiting[0], n);
    var all := rest + kids;
    PopApart(waiting, visited);
    forall i, j | 0 <= i < j < |all| ensures !(all[i] <= all[j]) && !(all[j] <= all[i]) {
      if |rest| <= j {
        assert all[j] == q + [j - |rest|];
        if i < |rest| {
          ChildApart(q, j - |rest|, waiting[i + 1]);
        } else {
          assert all[i] == q + [i - |rest|];
          assert (q + [i - |rest|])[|q|] != (q + [j - |rest|])[|q|];
        }
      }
    }
    forall i, k | 0 <= i < |all| && 0 <= k < |visited| ensures !(all[i] <= visited[k]) {
      if |rest| <= i {
        ChildApart(q, i - |rest|, visited[k]);
      }
    }
  }

  /** A path below a directory goes through one of its children. */
  lemma {:induction false} ThroughKid(root: Tree, q: seq<nat>, path: seq<nat>)
    requires ValidPath(root, q) && ValidPath(root, path) && q <= path && q != path
    ensures Sub(root, q).Dir? && path[|q|] < |Sub(root, q).entries|
    ensures q + [path[|q|]] <= path
  {
    PrefixPath(root, path, |q|);
    assert path[..|q|] == q;
    assert path[..|q| + 1] == q + [path[|q|]];
  }

  /** A waiting directory is replaced by its children. */
  lemma ExpandDir(root: Tree, waiting: seq<seq<nat>>, visited: seq<seq<nat>>)
    requires |waiting| > 0 && Walk(root, waiting, visited) && Sub(root, waiting[0]).Dir?
    ensures Walk(root, waiting[1..] + Kids(waiting[0], |Sub(root, waiting[0]).entries|), visited)
  {
    var q, n := waiting[0], |Sub(root, waiting[0]).entries|;
    var all := waiting[1..] + Kids(q, n);
    KidsApart(waiting, visited, n);
    forall i | 0 <= i < |all| ensures ValidPath(root, all[i]) {
      if i >= |waiting| - 1 {
        ExtendPath(root, q, i - (|waiting| - 1));
      }
    }
    forall path | FilePath(root, path) ensures path in visited || Above(all, path) {
      if path !in visited {
        if q <= path {
          ThroughKid(root, q, path);
          assert all[|waiting| - 1 + path[|q|]] <= path;
        } else {
          AboveTail(waiting, path);
          var i :| 0 <= i < |waiting| - 1 && waiting[1..][i] <= path;
          assert all[i] <= path;
        }
      }
    }
  }

  // ---------------------------------------------------------------- sums over the waiting nodes

  /** The sum of a measure of trees over the waiting nodes. */
  ghost function Waiting(f: Tree -> nat, root: Tree, waiting: seq<seq<nat>>): nat
    requires forall i :: 0 <= i < |waiting| ==> ValidPath(root, waiting[i])
  {
    if |waiting| == 0 then 0
    else f(Sub(root, waiting[|waiting| - 1])) + Waiting(f, root, waiting[..|waiting| - 1])
  }

  ghost function KidsSum(f: Tree -> nat, es: seq<DirEntry>, n: nat): nat
    requires n <= |es|
  {
    if n == 0 then 0 else KidsSum(f, es, n - 1) + f(es[n - 1].tree)
  }

  lemma {:induction false} WaitingPop(f: Tree -> nat, root: Tree, waiting: seq<seq<nat>>)
    requires |waiting| > 0 && forall i :: 0 <= i < |waiting| ==> ValidPath(root, waiting[i])
    ensures Waiting(f, root, waiting) == f(Sub(root, waiting[0])) + Waiting(f, root, waiting[1..])
  {
    var n := |waiting| - 1;
    if n > 0 {
      WaitingPop(f, root, waiting[..n]);
      assert waiting[1..][..n - 1] == waiting[..n][1..];
      assert waiting[1..][n - 1] == waiting[n];
    }
  }

  lemma {:induction false} WaitingKids(f: Tree -> nat, root: Tree, rest: seq<seq<nat>>, q: seq<nat>, n: nat)
    requires ValidPath(root, q) && Sub(root, q).Dir? && n <= |Sub(root, q).entries|
    requires forall i :: 0 <= i < |rest| ==> ValidPath(root, rest[i])
    ensures var all := rest + Kids(q, n);
      && (forall i :: 0 <= i < |all| ==> ValidPath(root, all[i]))
      && Waiting(f, root, all) == Waiting(f, root, rest) + KidsSum(f, Sub(root, q).entries, n)
  {
    var all := rest + Kids(q, n);
    if n == 0 {
      assert all == rest;
    } else {
      WaitingKids(f, root, rest, q, n - 1);
      ExtendPath(root, q, n - 1);
      KidsMore(rest, q, n);
      WaitingLast(f, root, all, rest + Kids(q, n - 1), q + [n - 1]);
    }
  }

  lemma WaitingLast(f: Tree -> nat, root: Tree, all: seq<seq<nat>>, before: seq<seq<nat>>, last: seq<nat>)
    requires |all| == |before| + 1 && all[..|before|] == before && all[|before|] == last
    requires ValidPath(root, last) && forall i :: 0 <= i < |before| ==> ValidPath(root, before[i])
    ensures forall i :: 0 <= i < |all| ==> ValidPath(root, all[i])
    ensures Waiting(f, root, all) == f(Sub(root, last)) + Waiting(f, root, before)
  {
    forall i | 0 <= i < |all| ensures ValidPath(root, all[i]) {
      if i < |before| {
        assert all[i] == before[i];
      }
    }
  }

  lemma KidsMore(rest: seq<seq<nat>>, q: seq<nat>, n: nat)
    requires n > 0
    ensures var all := rest + Kids(q, n);
      all[..|all| - 1] == rest + Kids(q, n - 1) && all[|all| - 1] == q + [n - 1]
  {
  }

  // ---------------------------------------------------------------- the two measures of a tree

  lemma {:induction false} SizeOfKids(es: seq<DirEntry>, n: nat)
    requires n <= |es|
    ensures KidsSum(Size, es, n) == KidsSize(es, n)
  {
    if n > 0 {
      SizeOfKids(es, n - 1);
    }
  }

  /** Expanding a directory leaves less image below the waiting nodes. */
  lemma WaitingShrinks(root: Tree, waiting: seq<seq<nat>>)
    requires |waiting| > 0 && forall i :: 0 <= i < |waiting| ==> ValidPath(root, waiting[i])
    ensures Waiting(Size, root, waiting[1..]) < Waiting(Size, root, waiting)
    ensures var t := Sub(root, waiting[0]); t.Dir? ==>
      var next := waiting[1..] + Kids(waiting[0], |t.entries|);
      && (forall i :: 0 <= i < |next| ==> ValidPath(root, next[i]))
      && Waiting(Size, root, next) < Waiting(Size, root, waiting)
  {
    var t := Sub(root, waiting[0]);
    WaitingPop(Size, root, waiting);
    if t.Dir? {
      WaitingKids(Size, root, waiting[1..], waiting[0], |t.entries|);
      SizeOfKids(t.entries, |t.entries|);
    }
  }

  // ---------------------------------------------------------------- the order of the walk

  /** What waits after the first waiting node was visited. */
  ghost function Rest(root: Tree, waiting: seq<seq<nat>>): (rest: seq<seq<nat>>)
    requires |waiting| > 0 && forall i :: 0 <= i < |waiting| ==> ValidPath(root, waiting[i])
    ensures forall i :: 0 <= i < |rest| ==> ValidPath(root, rest[i])
    ensures Waiting(Size, root, rest) < Waiting(Size, root, waiting)
  {
    WaitingShrinks(root, waiting);
    var t := Sub(root, waiting[0]);
    if t.Dir? then waiting[1..] + Kids(waiting[0], |t.entries|) else waiting[1..]
  }

  /** The file that is visited when the first waiting node is. */
  ghost function Seen(root: Tree, waiting: seq<seq<nat>>): (seen: seq<seq<nat>>)
    requires |waiting| > 0 && ValidPath(root, waiting[0])
    ensures forall k :: 0 <= k < |seen| ==> FilePath(root, seen[k])
  {
    if Sub(root, waiting[0]).File? then [waiting[0]] else []
  }

  /** The files below the waiting nodes, breadth first. */
  ghost function Bfs(root: Tree, waiting: seq<seq<nat>>): (order: seq<seq<nat>>)
    requires forall i :: 0 <= i < |waiting| ==> ValidPath(root, waiting[i])
    ensures forall k :: 0 <= k < |order| ==> FilePath(root, order[k])
    decreases Waiting(Size, root, waiting)
  {
    if |waiting| == 0 then [] else Seen(root, waiting) + Bfs(root, Rest(root, waiting))
  }

  /** The files of a tree in the order in which they are visited. */
  ghost function BfsOrder(root: Tree): (order: seq<seq<nat>>)
    ensures forall k :: 0 <= k < |order| ==> FilePath(root, order[k])
  {
    Bfs(root, [[]])
  }

  /** Opens `OnOrder`. */
  ghost predicate OpenOrder(k: int) {
    true
  }

  /** What was visited and what is still to come are the order of the tree; a closed definition. */
  ghost predicate OnOrder(root: Tree, waiting: seq<seq<nat>>, visited: seq<seq<nat>>) {
    && (forall i :: 0 <= i < |waiting| ==> ValidPath(root, waiting[i]))
    && forall k: int {:trigger OpenOrder(k)} :: OpenOrder(k) ==> visited + Bfs(root, waiting) == BfsOrder(root)
  }

  lemma OrderStart(root: Tree)
    ensures OnOrder(root, [[]], [])
  {
    assert [] + Bfs(root, [[]]) == BfsOrder(root);
  }

  /** When nothing waits any more, the order is complete. */
  lemma OrderEnd(root: Tree, waiting: seq<seq<nat>>, visited: seq<seq<nat>>)
    requires |waiting| == 0 && OnOrder(root, waiting, visited)
    ensures visited == BfsOrder(root)
  {
    assert OpenOrder(0);
    assert visited + Bfs(root, waiting) == visited;
  }

  /** What was visited are the first in the order. */
  lemma OrderPrefix(root: Tree, waiting: seq<seq<nat>>, visited: seq<seq<nat>>)
    requires OnOrder(root, waiting, visited)
    ensures visited <= BfsOrder(root)
  {
    assert OpenOrder(0);
  }

  lemma OrderStep(root: Tree, waiting: seq<seq<nat>>, visited: seq<seq<nat>>)
    requires |waiting| > 0 && OnOrder(root, waiting, visited)
    ensures OnOrder(root, Rest(root, waiting), visited + Seen(root, waiting))
  {
    assert OpenOrder(0);
    BfsStep(root, waiting, visited);
  }

  lemma BfsStep(root: Tree, waiting: seq<seq<nat>>, visited: seq<seq<nat>>)
    requires |waiting| > 0 && forall i :: 0 <= i < |waiting| ==> ValidPath(root, waiting[i])
    ensures visited + Seen(root, waiting) + Bfs(root, Rest(root, waiting)) == visited + Bfs(root, waiting)
  {
    BfsFirst(root, waiting);
    ConcatAssociates(visited, Seen(root, waiting), Bfs(root, Rest(root, waiting)));
  }

  lemma BfsFirst(root: Tree, waiting: seq<seq<nat>>)
    requires |waiting| > 0 && forall i :: 0 <= i < |waiting| ==> ValidPath(root, waiting[i])
    ensures Bfs(root, waiting) == Seen(root, waiting) + Bfs(root, Rest(root, waiting))
  {
  }

  /** Visiting a node keeps the walk. */
  lemma WalkStep(root: Tree, waiting: seq<seq<nat>>, visited: seq<seq<nat>>)
    requires |waiting| > 0 && Walk(root, waiting, visited)
    ensures Walk(root, Rest(root, waiting), visited + Seen(root, waiting))
  {
    assert visited + [] == visited;
    match Sub(root, waiting[0])
    case File(_, _, _) => VisitFile(root, waiting, visited);
    case Link(_, _, _) => SkipLink(root, waiting, visited);
    case Dir(_, _, _) => ExpandDir(root, waiting, visited);
  }

  /** The order has every file of the tree exactly once. */
  lemma BfsOnce(root: Tree)
    ensures Distinct(BfsOrder(root))
    ensures forall path :: FilePath(root, path) <==> path in BfsOrder(root)
  {
    WalkStart(root);
    WalkOn(root, [[]], []);
    assert [] + BfsOrder(root) == BfsOrder(root);
    WalkEnd(root, BfsOrder(root));
  }

  lemma {:induction false} WalkOn(root: Tree, waiting: seq<seq<nat>>, visited: seq<seq<nat>>)
    requires Walk(root, waiting, visited)
    ensures Walk(root, [], visited + Bfs(root, waiting))
    decreases Waiting(Size, root, waiting)
  {
    if |waiting| == 0 {
      assert waiting == [] && visited + [] == visited;
    } else {
      WalkStep(root, waiting, visited);
      WalkOn(root, Rest(root, waiting), visited + Seen(root, waiting));
      BfsStep(root, waiting, visited);
    }
  }

  // ---------------------------------------------------------------- shortest paths first

  /** The first difference of two paths is in favour of the first one. */
  ghost predicate Less(p: seq<nat>, q: seq<nat>) {
    exists k :: 0 <= k < |p| && k < |q| && p[k] < q[k] && p[..k] == q[..k]
  }

  /** Shorter paths come first, and paths of one length in the order of the directories. */
  ghost predicate Before(p: seq<nat>, q: seq<nat>) {
    |p| < |q| || (|p| == |q| && Less(p, q))
  }

  lemma BeforeTransitive(p: seq<nat>, q: seq<nat>, r: seq<nat>)
    requires Before(p, q) && Before(q, r)
    ensures Before(p, r)
  {
    if |p| == |q| == |r| {
      var k :| 0 <= k < |p| && k < |q| && p[k] < q[k] && p[..k] == q[..k];
      var l :| 0 <= l < |q| && l < |r| && q[l] < r[l] && q[..l] == r[..l];
      var m := Min(k, l);
      assert p[..m] == p[..k][..m] && q[..m] == q[..k][..m] == q[..l][..m] && r[..m] == r[..l][..m];
      assert k > m ==> p[m] == p[..k][m] == q[..k][m] == q[m];
      assert l > m ==> q[m] == q[..l][m] == r[..l][m] == r[m];
      assert p[m] < r[m];
    }
  }

  /** Children of one node are in order, and so are those of nodes that are. */
  lemma BeforeKids(p: seq<nat>, q: seq<nat>, j: nat, k: nat)
    requires (p == q && j < k) || (|p| == |q| && Before(p, q))
    ensures Before(p + [j], q + [k])
  {
    var a, b := p + [j], q + [k];
    if p == q {
      assert a[..|p|] == b[..|p|] && a[|p|] < b[|p|];
    } else {
      var l :| 0 <= l < |p| && l < |q| && p[l] < q[l] && p[..l] == q[..l];
      assert a[..l] == p[..l] && b[..l] == q[..l] && a[l] < b[l];
    }
  }

  ghost predicate PathsAscend(paths: seq<seq<nat>>) {
    forall i, j :: 0 <= i < j < |paths| ==> Before(paths[i], paths[j])
  }

  /** A waiting path is at most a level below the node, and then lies below an earlier one. */
  ghost predicate NextLevel(q: seq<nat>, path: seq<nat>) {
    |path| <= |q| + 1 && (|path| == |q| + 1 ==> Before(path[..|q|], q))
  }

  /** The waiting paths ascend, and span two levels. */
  ghost predicate Levels(waiting: seq<seq<nat>>) {
    PathsAscend(waiting) && forall i :: 0 < i < |waiting| ==> NextLevel(waiting[0], waiting[i])
  }

  lemma LevelsTail(waiting: seq<seq<nat>>)
    requires |waiting| > 0 && Levels(waiting)
    ensures Levels(waiting[1..])
  {
    var rest := waiting[1..];
    forall i | 0 < i < |rest| ensures NextLevel(rest[0], rest[i]) {
      var q, r, path := waiting[0], rest[0], rest[i];
      assert Before(q, r) && Before(r, path) && NextLevel(q, path);
      if |path| == |r| + 1 {
        BeforeTransitive(path[..|q|], q, r);
      }
    }
  }

  /** The children of the node that was visited go last. */
  lemma KidsLast(waiting: seq<seq<nat>>, n: nat)
    requires |waiting| > 0 && Levels(waiting)
    ensures PathsAscend(waiting[1..] + Kids(waiting[0], n))
    ensures forall i :: 0 <= i < |waiting[1..] + Kids(waiting[0], n)| ==>
      Before(waiting[0], (waiting[1..] + Kids(waiting[0], n))[i])
  {
    var q, rest, ks := waiting[0], waiting[1..], Kids(waiting[0], n);
    forall i, k | 0 <= i < |rest| && 0 <= k < n ensures Before(rest[i], ks[k]) {
      var path := rest[i];
      assert NextLevel(q, path);
      if |path| == |q| + 1 {
        BeforeKids(path[..|q|], q, path[|q|], k);
        assert path == path[..|q|] + [path[|q|]];
      }
    }
    forall j, k | 0 <= j < k < n ensures Before(ks[j], ks[k]) {
      BeforeKids(q, q, j, k);
    }
  }

  lemma KidsLevels(waiting: seq<seq<nat>>, n: nat)
    requires |waiting| > 0 && Levels(waiting)
    ensures Levels(waiting[1..] + Kids(waiting[0], n))
  {
    var q, rest, ks := waiting[0], waiting[1..], Kids(waiting[0], n);
    var all := rest + ks;
    KidsLast(waiting, n);
    LevelsTail(waiting);
    forall i | 0 < i < |all| ensures NextLevel(all[0], all[i]) {
      if |rest| > 0 && i >= |rest| {
        var k := i - |rest|;
        assert all[i] == ks[k] == q + [k] && all[i][..|q|] == q;
        assert Before(q, rest[0]);
      } else if |rest| > 0 {
        assert all[i] == rest[i];
      }
    }
  }

  /** What was visited ascends, and what waits comes later. */
  ghost predicate Ordered(waiting: seq<seq<nat>>, visited: seq<seq<nat>>) {
    && Levels(waiting) && PathsAscend(visited)
    && forall i, k :: 0 <= i < |visited| && 0 <= k < |waiting| ==> Before(visited[i], waiting[k])
  }

  lemma OrderedStep(root: Tree, waiting: seq<seq<nat>>, visited: seq<seq<nat>>)
    requires |waiting| > 0 && forall i :: 0 <= i < |waiting| ==> ValidPath(root, waiting[i])
    requires Ordered(waiting, visited)
    ensures Ordered(Rest(root, waiting), visited + Seen(root, waiting))
  {
    var t := Sub(root, waiting[0]);
    var n := if t.Dir? then |t.entries| else 0;
    var rest, seen := Rest(root, waiting), visited + Seen(root, waiting);
    assert waiting[1..] + Kids(waiting[0], 0) == waiting[1..];
    assert rest == waiting[1..] + Kids(waiting[0], n);
    KidsLast(waiting, n);
    KidsLevels(waiting, n);
    forall i, k | 0 <= i < |seen| && 0 <= k < |rest| ensures Before(seen[i], rest[k]) {
      if i < |visited| {
        BeforeTransitive(visited[i], waiting[0], rest[k]);
      }
    }
  }

  /** The walk visits files with shorter paths first, and those of one level in the order of the directories. */
  lemma BfsAscends(root: Tree)
    ensures PathsAscend(BfsOrder(root))
  {
    AscendOn(root, [[]], []);
    assert [] + BfsOrder(root) == BfsOrder(root);
  }

  lemma {:induction false} AscendOn(root: Tree, waiting: seq<seq<nat>>, visited: seq<seq<nat>>)
    requires forall i :: 0 <= i < |waiting| ==> ValidPath(root, waiting[i])
    requires Ordered(waiting, visited)
    ensures PathsAscend(visited + Bfs(root, waiting))
    decreases Waiting(Size, root, waiting)
  {
    if |waiting| == 0 {
      assert visited + [] == visited;
    } else {
      OrderedStep(root, waiting, visited);
      AscendOn(root, Rest(root, waiting), visited + Seen(root, waiting));
      BfsStep(root, waiting, visited);
    }
  }

  /** The bytes of the readable files of a tree. */
  function FileBytes(t: Tree): nat
    decreases t, 0
  {
    match t
    case Link(_, _, _) => 0
    case File(_, _, content) => |BytesOf(content)|
    case Dir(_, _, es) => KidsBytes(es, |es|)
  }

  function KidsBytes(es: seq<DirEntry>, n: nat): nat
    requires n <= |es|
    decreases es, n
  {
    if n == 0 then 0 else KidsBytes(es, n - 1) + FileBytes(es[n - 1].tree)
  }

  lemma {:induction false} BytesOfKids(es: seq<DirEntry>, n: nat)
    requires n <= |es|
    ensures KidsSum(FileBytes, es, n) == KidsBytes(es, n)
  {
    if n > 0 {
      BytesOfKids(es, n - 1);
    }
  }
}
