/** The least-recently-used list (common/lru_collector.cc). */
module Lru {
  import opened Prelude

  // ---------------------------------------------------------------- the list of ids, as a value

  function Without(q: seq<nat>, id: nat): (r: seq<nat>)
    ensures id !in q ==> r == q
  {
    if |q| == 0 then []
    else if q[0] == id then q[1..]
    else [q[0]] + Without(q[1..], id)
  }

  /** The queue after an update: the id moves or comes to the front, and the last one leaves a full queue. */
  function Updated(q: seq<nat>, size: nat, id: nat): seq<nat>
    requires size > 0
  {
    if id in q then [id] + Without(q, id)
    else if |q| >= size && |q| > 0 then [id] + q[..|q| - 1]
    else [id] + q
  }

  /** The id for which an update calls the remover. */
  function Victim(q: seq<nat>, size: nat, id: nat): Option<nat>
    requires size > 0
  {
    if id !in q && |q| >= size && |q| > 0 then Some(q[|q| - 1]) else None
  }

  /** The queue of a fresh collector after a history of updates. */
  function After(size: nat, history: seq<nat>): seq<nat>
    requires size > 0
  {
    if |history| == 0 then []
    else Updated(After(size, history[..|history| - 1]), size, history[|history| - 1])
  }

  /** The ids of a history, each once, the most recently used first. */
  function Recency(history: seq<nat>): seq<nat> {
    if |history| == 0 then []
    else [history[|history| - 1]] + Without(Recency(history[..|history| - 1]), history[|history| - 1])
  }

  lemma {:induction false} WithoutMembers(q: seq<nat>, id: nat)
    requires Distinct(q)
    ensures Distinct(Without(q, id))
    ensures forall x :: x in Without(q, id) <==> x in q && x != id
    ensures |Without(q, id)| == |q| - (if id in q then 1 else 0)
  {
    if |q| > 0 {
      assert q == [q[0]] + q[1..];
      DistinctCons(q[0], q[1..]);
      if q[0] != id {
        WithoutMembers(q[1..], id);
        DistinctCons(q[0], Without(q[1..], id));
      }
    }
  }

  lemma {:induction false} WithoutAt(q: seq<nat>, k: nat)
    requires Distinct(q) && k < |q|
    ensures Without(q, q[k]) == q[..k] + q[k + 1..]
  {
    if k > 0 {
      var rest := q[1..];
      assert q == [q[0]] + rest;
      DistinctCons(q[0], rest);
      WithoutAt(rest, k - 1);
      assert [q[0]] + rest[..k - 1] == q[..k] && rest[k..] == q[k + 1..];
    }
  }

  lemma {:induction false} RecencyDistinct(history: seq<nat>)
    ensures Distinct(Recency(history))
    ensures forall x :: x in Recency(history) <==> x in history
  {
    if |history| > 0 {
      var n := |history| - 1;
      var before, id := history[..n], history[n];
      RecencyDistinct(before);
      WithoutMembers(Recency(before), id);
      assert history == before + [id];
    }
  }

  function Top(q: seq<nat>, n: nat): seq<nat> {
    if |q| <= n then q else q[..n]
  }

  lemma CutParts(q: seq<nat>, n: nat, k: nat)
    requires k < n <= |q|
    ensures q[..n][..k] + q[..n][k + 1..] == q[..k] + q[k + 1..n]
    ensures (q[..k] + q[k + 1..])[..n - 1] == q[..k] + q[k + 1..n]
  {
  }

  /** Removing an id commutes with cutting the list when the id is inside the cut. */
  lemma WithoutInsideTop(q: seq<nat>, n: nat, k: nat)
    requires Distinct(q) && k < n && k < |q|
    ensures Without(Top(q, n), q[k]) == Top(Without(q, q[k]), n - 1)
  {
    WithoutAt(q, k);
    if |q| > n {
      CutParts(q, n, k);
      DistinctCut(q, n);
      WithoutAt(q[..n], k);
    }
  }

  lemma DistinctCut(q: seq<nat>, n: nat)
    requires Distinct(q) && n <= |q|
    ensures Distinct(q[..n])
  {
  }

  lemma WithoutBeyondTop(q: seq<nat>, n: nat, k: nat)
    requires Distinct(q) && 0 < n <= k < |q|
    ensures Top(Without(q, q[k]), n - 1) == Top(q, n - 1)
    ensures q[k] !in Top(q, n)
  {
    WithoutAt(q, k);
    var rest := q[..k] + q[k + 1..];
    assert rest[..n - 1] == q[..n - 1];
  }

  lemma UpdatedTop(q: seq<nat>, size: nat, id: nat)
    requires Distinct(q) && size > 0
    ensures Updated(Top(q, size), size, id) == Top([id] + Without(q, id), size)
  {
    var rest := Without(q, id);
    assert Top([id] + rest, size) == [id] + Top(rest, size - 1);
    if id in q {
      var k :| 0 <= k < |q| && q[k] == id;
      if k < size {
        assert Top(q, size)[k] == id;
        WithoutInsideTop(q, size, k);
      } else {
        WithoutBeyondTop(q, size, k);
        assert Top(q, size)[..size - 1] == Top(q, size - 1);
      }
    } else if |q| < size {
      assert Top(q, size - 1) == q;
    } else {
      assert Top(q, size)[..size - 1] == Top(q, size - 1);
    }
  }

  /** After any history the queue is the `size` most recently used ids, most recent first. */
  lemma {:induction false} QueueIsRecency(size: nat, history: seq<nat>)
    requires size > 0
    ensures After(size, history) == Top(Recency(history), size)
  {
    if |history| > 0 {
      var n := |history| - 1;
      QueueIsRecency(size, history[..n]);
      RecencyDistinct(history[..n]);
      UpdatedTop(Recency(history[..n]), size, history[n]);
    }
  }

  /** A larger collector always holds what a smaller one holds, in the same order. */
  lemma Inclusion(size: nat, larger: nat, history: seq<nat>)
    requires 0 < size <= larger
    ensures After(size, history) <= After(larger, history)
  {
    QueueIsRecency(size, history);
    QueueIsRecency(larger, history);
  }

  /** An update keeps ids distinct and the queue within its size, and the victim is exactly what left. */
  lemma UpdateKeeps(q: seq<nat>, size: nat, id: nat)
    requires Distinct(q) && |q| <= size && size > 0
    ensures var r := Updated(q, size, id);
      && Distinct(r) && |r| <= size && r[0] == id
      && (forall x :: x in r <==> x == id || (x in q && Victim(q, size, id) != Some(x)))
      && (Victim(q, size, id).Some? ==> Victim(q, size, id).value in q && Victim(q, size, id).value != id)
  {
    WithoutMembers(q, id);
    if id !in q && |q| == size {
      var last := q[|q| - 1];
      assert q == q[..|q| - 1] + [last];
    }
  }

  // ---------------------------------------------------------------- the collector

  /** A cell of the list; the handle is its identity, which an iterator keeps while other cells come and go. */
  datatype Cell = Cell(handle: nat, id: nat)

  function Ids(queue: seq<Cell>): (ids: seq<nat>)
    ensures |ids| == |queue|
    ensures forall i :: 0 <= i < |queue| ==> ids[i] == queue[i].id
  {
    seq(|queue|, i requires 0 <= i < |queue| => queue[i].id)
  }

  /** The list without the cell that an iterator points to. */
  function Erase(queue: seq<Cell>, handle: nat): seq<Cell> {
    if |queue| == 0 then []
    else if queue[0].handle == handle then queue[1..]
    else [queue[0]] + Erase(queue[1..], handle)
  }

  /** Every queued id has one cell, and the index points to it. */
  ghost predicate Indexed(queue: seq<Cell>, iterators: map<nat, nat>, next: nat) {
    && Distinct(Ids(queue))
    && (forall i :: 0 <= i < |queue| ==>
          queue[i].handle < next && queue[i].id in iterators && iterators[queue[i].id] == queue[i].handle)
    && (forall i, j :: 0 <= i < j < |queue| ==> queue[i].handle != queue[j].handle)
    && (forall id :: id in iterators ==> id in Ids(queue))
  }

  lemma {:induction false} EraseAt(queue: seq<Cell>, k: nat)
    requires k < |queue| && forall i :: 0 <= i < k ==> queue[i].handle != queue[k].handle
    ensures Erase(queue, queue[k].handle) == queue[..k] + queue[k + 1..]
  {
    if k > 0 {
      var rest := queue[1..];
      EraseAt(rest, k - 1);
      assert rest[..k - 1] == queue[1..k] && rest[k..] == queue[k + 1..];
    }
  }

  /** Opens `LruCollector.Valid`. */
  ghost predicate OpenIndex(k: int) {
    true
  }

  class LruCollector {
    const size: nat
    var queue: seq<Cell>
    var iterators: map<nat, nat>
    var next: nat

    ghost predicate Valid()
      reads this
    {
      && 0 < size && |queue| <= size && Distinct(Ids(queue))
      && forall k: int {:trigger OpenIndex(k)} :: OpenIndex(k) ==> Indexed(queue, iterators, next)
    }

    constructor (size: nat)
      requires size > 0
      ensures Valid() && this.size == size && Ids(queue) == []
    {
      this.size := size;
      queue, iterators, next := [], map[], 0;
    }

    /** The last cell leaves a full queue. */
    method DropVictim() returns (evicted: Option<nat>)
      requires Valid()
      modifies this`queue, this`iterators
      ensures Valid() && |queue| < size
      ensures evicted == if old(|queue|) >= size then Some(old(Ids(queue))[old(|queue|) - 1]) else None
      ensures Ids(queue) == if evicted == None then old(Ids(queue)) else old(Ids(queue))[..old(|queue|) - 1]
      ensures forall id :: id in iterators ==> id in old(iterators)
    {
      assert OpenIndex(0);
      evicted := None;
      if |queue| >= size {
        var last := queue[|queue| - 1];
        DropLast(queue, iterators, next);
        queue := queue[..|queue| - 1];
        iterators := iterators - {last.id};
        evicted := Some(last.id);
      }
    }

    /** The cell that the index holds for an id is erased from the queue. */
    method DropOld(id: nat)
      requires Valid() && id in iterators
      modifies this`queue, this`iterators
      ensures Valid() && |queue| < size && id !in iterators
      ensures id in old(Ids(queue)) && Ids(queue) == Without(old(Ids(queue)), id)
    {
      assert OpenIndex(0);
      DropCell(queue, iterators, next, id);
      WithoutMembers(Ids(queue), id);
      queue := Erase(queue, iterators[id]);
      iterators := iterators - {id};
    }

    method PushFront(id: nat)
      requires Valid() && |queue| < size && id !in iterators
      modifies this
      ensures Valid() && Ids(queue) == [id] + old(Ids(queue))
    {
      assert OpenIndex(0);
      PushCell(queue, iterators, next, id);
      queue := [Cell(next, id)] + queue;
      iterators := iterators[id := next];
      next := next + 1;
    }

    /** The result is the id that the remover is called with, if it is called. */
    method Update(id: nat) returns (evicted: Option<nat>)
      requires Valid()
      modifies this
      ensures Valid()
      ensures Ids(queue) == Updated(old(Ids(queue)), size, id)
      ensures evicted == Victim(old(Ids(queue)), size, id)
    {
      assert OpenIndex(0);
      evicted := None;
      NotIndexed(queue, iterators, next, id);
      if id !in iterators {
        evicted := DropVictim();
      } else {
        DropOld(id);
      }
      PushFront(id);
    }

    /** Erases the index entry only; the queue keeps the id, so the index stays right only if there was none. */
    method Remove(id: nat)
      requires Valid()
      modifies this`iterators
      ensures queue == old(queue) && iterators == old(iterators) - {id}
      ensures Valid() <==> id !in old(Ids(queue))
    {
      assert OpenIndex(0);
      iterators := iterators - {id};
      if id in Ids(queue) {
        var k :| 0 <= k < |queue| && Ids(queue)[k] == id;
        assert queue[k].id !in iterators;
      } else {
        assert forall i :: 0 <= i < |queue| ==> Ids(queue)[i] == queue[i].id;
      }
    }
  }

  lemma DropIds(queue: seq<Cell>, k: nat)
    requires Distinct(Ids(queue)) && k < |queue|
    ensures var rest := Ids(queue[..k] + queue[k + 1..]);
      && rest == Ids(queue)[..k] + Ids(queue)[k + 1..]
      && rest == Without(Ids(queue), queue[k].id)
      && Distinct(rest)
      && forall x :: x in rest <==> x in Ids(queue) && x != queue[k].id
  {
    assert Ids(queue[..k] + queue[k + 1..]) == Ids(queue)[..k] + Ids(queue)[k + 1..];
    WithoutAt(Ids(queue), k);
    WithoutMembers(Ids(queue), queue[k].id);
  }

  lemma DropHandles(queue: seq<Cell>, k: nat)
    requires k < |queue| && forall i, j :: 0 <= i < j < |queue| ==> queue[i].handle != queue[j].handle
    ensures var rest := queue[..k] + queue[k + 1..];
      forall i, j :: 0 <= i < j < |rest| ==> rest[i].handle != rest[j].handle
  {
    var rest := queue[..k] + queue[k + 1..];
    forall i, j | 0 <= i < j < |rest| ensures rest[i].handle != rest[j].handle {
      assert rest[i] == queue[if i < k then i else i + 1] && rest[j] == queue[if j < k then j else j + 1];
    }
  }

  lemma DropCells(queue: seq<Cell>, iterators: map<nat, nat>, next: nat, k: nat)
    requires Indexed(queue, iterators, next) && k < |queue|
    ensures var rest := queue[..k] + queue[k + 1..];
      forall i :: 0 <= i < |rest| ==>
        && rest[i].handle < next && rest[i].id != queue[k].id
        && rest[i].id in iterators && iterators[rest[i].id] == rest[i].handle
  {
    var rest := queue[..k] + queue[k + 1..];
    DropIds(queue, k);
    forall i | 0 <= i < |rest|
      ensures rest[i].handle < next && rest[i].id != queue[k].id
      ensures rest[i].id in iterators && iterators[rest[i].id] == rest[i].handle
    {
      assert rest[i] == queue[if i < k then i else i + 1];
      assert Ids(rest)[i] in Ids(rest);
    }
  }

  lemma IndexedWithout(queue: seq<Cell>, rest: seq<Cell>, iterators: map<nat, nat>, next: nat, id: nat)
    requires Indexed(queue, iterators, next) && Distinct(Ids(rest))
    requires forall x :: x in Ids(rest) <==> x in Ids(queue) && x != id
    requires forall i :: 0 <= i < |rest| ==>
      rest[i].handle < next && rest[i].id != id && rest[i].id in iterators && iterators[rest[i].id] == rest[i].handle
    requires forall i, j :: 0 <= i < j < |rest| ==> rest[i].handle != rest[j].handle
    ensures Indexed(rest, iterators - {id}, next)
  {
  }

  /** Erasing the cell at index `k` with its index entry. */
  lemma DropAt(queue: seq<Cell>, iterators: map<nat, nat>, next: nat, k: nat)
    requires Indexed(queue, iterators, next) && k < |queue|
    ensures Indexed(queue[..k] + queue[k + 1..], iterators - {queue[k].id}, next)
    ensures Ids(queue[..k] + queue[k + 1..]) == Ids(queue)[..k] + Ids(queue)[k + 1..]
  {
    DropIds(queue, k);
    DropHandles(queue, k);
    DropCells(queue, iterators, next, k);
    IndexedWithout(queue, queue[..k] + queue[k + 1..], iterators, next, queue[k].id);
  }

  lemma DropLast(queue: seq<Cell>, iterators: map<nat, nat>, next: nat)
    requires Indexed(queue, iterators, next) && |queue| > 0
    ensures Indexed(queue[..|queue| - 1], iterators - {queue[|queue| - 1].id}, next)
    ensures Ids(queue[..|queue| - 1]) == Ids(queue)[..|queue| - 1]
  {
    var n := |queue| - 1;
    DropAt(queue, iterators, next, n);
    assert queue[..n] + queue[n + 1..] == queue[..n];
  }

  lemma DropCell(queue: seq<Cell>, iterators: map<nat, nat>, next: nat, id: nat)
    requires Indexed(queue, iterators, next) && id in iterators
    ensures Indexed(Erase(queue, iterators[id]), iterators - {id}, next)
    ensures Ids(Erase(queue, iterators[id])) == Without(Ids(queue), id)
    ensures id in Ids(queue)
  {
    var k :| 0 <= k < |queue| && Ids(queue)[k] == id;
    EraseAt(queue, k);
    DropAt(queue, iterators, next, k);
    WithoutAt(Ids(queue), k);
  }

  lemma NotIndexed(queue: seq<Cell>, iterators: map<nat, nat>, next: nat, id: nat)
    requires Indexed(queue, iterators, next)
    ensures id in iterators <==> id in Ids(queue)
  {
  }

  lemma PushCell(queue: seq<Cell>, iterators: map<nat, nat>, next: nat, id: nat)
    requires Indexed(queue, iterators, next) && id !in iterators
    ensures Indexed([Cell(next, id)] + queue, iterators[id := next], next + 1)
    ensures Ids([Cell(next, id)] + queue) == [id] + Ids(queue)
  {
    var q := [Cell(next, id)] + queue;
    assert Ids(q) == [id] + Ids(queue);
    DistinctCons(id, Ids(queue));
    NotIndexed(queue, iterators, next, id);
  }
}
