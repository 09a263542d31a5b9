/** The peers of a node (network/connection_pool.cc, network/connection_pool.h, common/ordered_set.cc). */
module PeerPool {
  import opened Prelude
  import opened Availability

  type Url = Bytes

  // ---------------------------------------------------------------- the queue of candidates

  /** A bounded queue without duplicates after a push. */
  function Pushed(q: seq<Url>, limit: nat, url: Url): (r: seq<Url>)
    ensures forall x :: x in r ==> x in q || x == url
    ensures |q| <= limit ==> |r| <= limit
    ensures Distinct(q) ==> Distinct(r)
  {
    if url in q then q else Trimmed(q + [url], limit)
  }

  /** The last elements, as many as the limit allows. */
  function Trimmed(q: seq<Url>, limit: nat): seq<Url> {
    if |q| <= limit then q else q[|q| - limit..]
  }

  class OrderedSet {
    var data: set<Url>
    var queue: seq<Url>
    const maxSize: nat

    ghost predicate Valid()
      reads this
    {
      Distinct(queue) && |queue| <= maxSize && forall x :: x in data <==> x in queue
    }

    constructor (maxSize: nat)
      ensures Valid() && queue == [] && this.maxSize == maxSize
    {
      this.maxSize := maxSize;
      data, queue := {}, [];
    }

    method Push(url: Url) returns (added: bool)
      requires Valid()
      modifies this
      ensures Valid() && queue == Pushed(old(queue), maxSize, url)
      ensures added <==> url !in old(queue)
    {
      if url in data {
        return false;
      }
      data, queue := data + {url}, queue + [url];
      Trim();
      return true;
    }

    ghost predicate Indexed()
      reads this
    {
      Distinct(queue) && forall x :: x in data <==> x in queue
    }

    method Trim()
      requires Indexed()
      modifies this
      ensures Valid() && queue == Trimmed(old(queue), maxSize)
    {
      SizeOfElements(data, queue);
      while |data| > maxSize
        invariant Indexed() && |data| == |queue| && Trimmed(queue, maxSize) == Trimmed(old(queue), maxSize)
        decreases |data|
      {
        TrimmedTail(queue, maxSize);
        var _ := Pop();
        SizeOfElements(data, queue);
      }
    }

    method Pop() returns (url: Url)
      requires |queue| > 0 && Indexed()
      modifies this
      ensures url == old(queue)[0] && queue == old(queue)[1..]
      ensures Indexed() && url !in queue
    {
      url := queue[0];
      queue := queue[1..];
      data := data - {url};
    }

    method Size() returns (n: nat)
      requires Valid()
      ensures n == |queue|
    {
      SizeOfElements(data, queue);
      n := |data|;
    }
  }

  lemma TrimmedTail(q: seq<Url>, limit: nat)
    requires |q| > limit
    ensures Trimmed(q[1..], limit) == Trimmed(q, limit)
  {
  }

  lemma {:induction false} SizeOfElements(data: set<Url>, queue: seq<Url>)
    requires Distinct(queue) && forall x :: x in data <==> x in queue
    ensures |data| == |queue|
  {
    if |queue| > 0 {
      var url, rest := queue[0], queue[1..];
      SizeOfElements(data - {url}, rest);
      assert data == (data - {url}) + {url};
    } else {
      assert data == {};
    }
  }

  // ---------------------------------------------------------------- connections

  datatype Connection = Connection(url: Url, nid: nat, available: set<nat>, lastInfo: int, lastPex: int) {
    function Count(): nat {
      |available|
    }
  }

  ghost predicate Sorted(cs: seq<Connection>) {
    forall i, j :: 0 <= i < j < |cs| ==> cs[i].Count() <= cs[j].Count()
  }

  ghost predicate UniqueUrls(cs: seq<Connection>) {
    forall i, j :: 0 <= i < j < |cs| ==> cs[i].url != cs[j].url
  }

  ghost predicate Connected(cs: seq<Connection>, url: Url) {
    exists i :: 0 <= i < |cs| && cs[i].url == url
  }

  /** A connection placed behind those with at most as many chunks. */
  function Insert(cs: seq<Connection>, c: Connection): seq<Connection> {
    if |cs| == 0 || cs[|cs| - 1].Count() <= c.Count() then cs + [c]
    else Insert(cs[..|cs| - 1], c) + [cs[|cs| - 1]]
  }

  /** The stable sort by the number of chunks. */
  function SortByCount(cs: seq<Connection>): seq<Connection> {
    if |cs| == 0 then [] else Insert(SortByCount(cs[..|cs| - 1]), cs[|cs| - 1])
  }

  lemma {:induction false} InsertPermutes(cs: seq<Connection>, c: Connection)
    ensures |Insert(cs, c)| == |cs| + 1
    ensures multiset(Insert(cs, c)) == multiset(cs) + multiset{c}
  {
    if |cs| > 0 && cs[|cs| - 1].Count() > c.Count() {
      var n := |cs| - 1;
      InsertPermutes(cs[..n], c);
      assert cs == cs[..n] + [cs[n]];
    }
  }

  lemma InsertMembers(cs: seq<Connection>, c: Connection)
    ensures forall x :: x in Insert(cs, c) <==> x in cs || x == c
  {
    InsertPermutes(cs, c);
    forall x ensures x in Insert(cs, c) <==> x in cs || x == c {
      assert x in Insert(cs, c) <==> x in multiset(Insert(cs, c));
      assert x in cs <==> x in multiset(cs);
    }
  }

  lemma {:induction false} InsertSorted(cs: seq<Connection>, c: Connection)
    requires Sorted(cs)
    ensures Sorted(Insert(cs, c))
  {
    if |cs| > 0 && cs[|cs| - 1].Count() > c.Count() {
      var n := |cs| - 1;
      var r := Insert(cs[..n], c);
      InsertSorted(cs[..n], c);
      InsertMembers(cs[..n], c);
      forall i | 0 <= i < |r| ensures r[i].Count() <= cs[n].Count() {
        assert r[i] in r;
      }
    }
  }

  lemma {:induction false} InsertUnique(cs: seq<Connection>, c: Connection)
    requires UniqueUrls(cs) && !Connected(cs, c.url)
    ensures UniqueUrls(Insert(cs, c))
    ensures forall u :: Connected(Insert(cs, c), u) <==> Connected(cs, u) || u == c.url
  {
    InsertMembers(cs, c);
    var r := Insert(cs, c);
    forall u ensures Connected(r, u) <==> Connected(cs, u) || u == c.url {
      SameMembers(r, cs + [c], u);
      ConnectedMore(cs, c, u);
    }
    if |cs| > 0 && cs[|cs| - 1].Count() > c.Count() {
      var n := |cs| - 1;
      assert forall i :: 0 <= i < n ==> cs[..n][i] == cs[i];
      InsertUnique(cs[..n], c);
      assert !Connected(cs[..n], cs[n].url) && cs[n].url != c.url;
      assert !Connected(Insert(cs[..n], c), cs[n].url);
      UniqueMore(Insert(cs[..n], c), cs[n]);
    } else {
      UniqueMore(cs, c);
    }
  }

  lemma SameMembers(a: seq<Connection>, b: seq<Connection>, u: Url)
    requires forall x :: x in a <==> x in b
    ensures Connected(a, u) <==> Connected(b, u)
  {
    if Connected(a, u) {
      var i :| 0 <= i < |a| && a[i].url == u;
      assert a[i] in b;
    }
    if Connected(b, u) {
      var i :| 0 <= i < |b| && b[i].url == u;
      assert b[i] in a;
    }
  }

  lemma ConnectedMore(cs: seq<Connection>, c: Connection, u: Url)
    ensures Connected(cs + [c], u) <==> Connected(cs, u) || u == c.url
  {
    var all := cs + [c];
    if Connected(cs, u) {
      var i :| 0 <= i < |cs| && cs[i].url == u;
      assert all[i].url == u;
    }
    assert all[|cs|].url == c.url;
  }

  lemma UniqueMore(cs: seq<Connection>, c: Connection)
    requires UniqueUrls(cs) && !Connected(cs, c.url)
    ensures UniqueUrls(cs + [c])
  {
  }

  /** Sorting keeps the connections, orders them by count, and keeps their urls unique. */
  lemma {:induction false} SortKeeps(cs: seq<Connection>)
    ensures Sorted(SortByCount(cs)) && |SortByCount(cs)| == |cs|
    ensures multiset(SortByCount(cs)) == multiset(cs)
    ensures UniqueUrls(cs) ==> UniqueUrls(SortByCount(cs))
    ensures forall u :: Connected(SortByCount(cs), u) <==> Connected(cs, u)
  {
    if |cs| > 0 {
      var n := |cs| - 1;
      var rest, c := cs[..n], cs[n];
      assert cs == rest + [c];
      SortKeeps(rest);
      InsertPermutes(SortByCount(rest), c);
      InsertSorted(SortByCount(rest), c);
      InsertMembers(SortByCount(rest), c);
      forall u ensures Connected(SortByCount(cs), u) <==> Connected(cs, u) {
        ConnectedMore(rest, c, u);
        ConnectedMore(SortByCount(rest), c, u);
        SameMembers(SortByCount(cs), SortByCount(rest) + [c], u);
      }
      if UniqueUrls(cs) {
        assert !Connected(rest, c.url);
        InsertUnique(SortByCount(rest), c);
      }
    }
  }

  /** The connections with this many chunks, in their order. */
  function Those(cs: seq<Connection>, count: nat): seq<Connection> {
    if |cs| == 0 then []
    else
      var c := cs[|cs| - 1];
      Those(cs[..|cs| - 1], count) + if c.Count() == count then [c] else []
  }

  lemma ThoseMore(cs: seq<Connection>, c: Connection, count: nat)
    ensures Those(cs + [c], count) == Those(cs, count) + if c.Count() == count then [c] else []
  {
    assert (cs + [c])[..|cs|] == cs;
  }

  lemma {:induction false} InsertStable(cs: seq<Connection>, c: Connection, count: nat)
    ensures Those(Insert(cs, c), count) == Those(cs + [c], count)
  {
    if |cs| > 0 && cs[|cs| - 1].Count() > c.Count() {
      var rest, last := cs[..|cs| - 1], cs[|cs| - 1];
      InsertStable(rest, c, count);
      ThoseMore(rest, c, count);
      ThoseMore(Insert(rest, c), last, count);
      ThoseMore(cs, c, count);
    }
  }

  /** Connections with as many chunks keep their order. */
  lemma {:induction false} SortStable(cs: seq<Connection>, count: nat)
    ensures Those(SortByCount(cs), count) == Those(cs, count)
  {
    if |cs| > 0 {
      var rest, c := cs[..|cs| - 1], cs[|cs| - 1];
      SortStable(rest, count);
      InsertStable(SortByCount(rest), c, count);
      ThoseMore(SortByCount(rest), c, count);
    }
  }

  lemma SortMembers(cs: seq<Connection>)
    ensures forall c :: c in SortByCount(cs) <==> c in cs
  {
    SortKeeps(cs);
    forall c ensures c in SortByCount(cs) <==> c in cs {
      assert c in multiset(SortByCount(cs)) <==> c in multiset(cs);
    }
  }

  // ---------------------------------------------------------------- passes over the connections

  /** The connections for which an update yields one, updated. */
  function Kept(cs: seq<Connection>, f: Connection -> Option<Connection>): seq<Connection> {
    if |cs| == 0 then []
    else
      var n := |cs| - 1;
      Kept(cs[..n], f) + (match f(cs[n]) case None => [] case Some(c) => [c])
  }

  lemma KeptMore(cs: seq<Connection>, f: Connection -> Option<Connection>, k: nat)
    requires k < |cs|
    ensures Kept(cs[..k + 1], f) == Kept(cs[..k], f) + (match f(cs[k]) case None => [] case Some(c) => [c])
  {
    assert cs[..k + 1][..k] == cs[..k];
  }

  lemma {:induction false} KeptMembers(cs: seq<Connection>, f: Connection -> Option<Connection>)
    ensures forall c :: c in Kept(cs, f) ==> exists o :: o in cs && f(o) == Some(c)
    ensures forall o :: o in cs && f(o).Some? ==> f(o).value in Kept(cs, f)
  {
    if |cs| > 0 {
      var n := |cs| - 1;
      KeptMembers(cs[..n], f);
      forall c | c in Kept(cs, f) ensures exists o :: o in cs && f(o) == Some(c) {
        if c in Kept(cs[..n], f) {
          var o :| o in cs[..n] && f(o) == Some(c);
          assert o in cs && f(o) == Some(c);
        } else {
          assert cs[n] in cs && f(cs[n]) == Some(c);
        }
      }
      assert cs == cs[..n] + [cs[n]];
    }
  }

  /** A pass at index `i` of the list, after `k` of the connections it started with. */
  ghost predicate PassAt(start: seq<Connection>, f: Connection -> Option<Connection>, k: nat, i: nat,
                         cs: seq<Connection>)
  {
    k <= |start| && i == |Kept(start[..k], f)| && cs == Kept(start[..k], f) + start[k..]
  }

  lemma PassBegin(start: seq<Connection>, f: Connection -> Option<Connection>)
    ensures PassAt(start, f, 0, 0, start)
  {
    assert start[..0] == [];
  }

  lemma PassHere(start: seq<Connection>, f: Connection -> Option<Connection>, k: nat, i: nat, cs: seq<Connection>)
    requires PassAt(start, f, k, i, cs)
    ensures i < |cs| ==> k < |start| && cs[i] == start[k]
    ensures i >= |cs| ==> cs == Kept(start, f)
  {
    if i >= |cs| {
      assert start[..k] == start;
    }
  }

  lemma PassOver(start: seq<Connection>, f: Connection -> Option<Connection>, k: nat, i: nat, cs: seq<Connection>)
    requires PassAt(start, f, k, i, cs) && i >= |cs|
    ensures start[..k] == start
  {
  }

  lemma PassNext(start: seq<Connection>, f: Connection -> Option<Connection>, k: nat, i: nat, cs: seq<Connection>)
    requires PassAt(start, f, k, i, cs) && i < |cs|
    ensures var r := f(cs[i]);
      var one := match r { case None => [] case Some(c) => [c] };
      PassAt(start, f, k + 1, i + |one|, cs[..i] + one + cs[i + 1..])
  {
    PassHere(start, f, k, i, cs);
    KeptMore(start, f, k);
    assert cs[..i] == Kept(start[..k], f) && cs[i + 1..] == start[k + 1..];
  }

  /** Opens `Linked`. */
  ghost predicate OpenLinks(k: int) {
    true
  }

  /** The active peers are the urls of the connections, each of which is there once; a closed definition. */
  ghost predicate Linked(cs: seq<Connection>, active: set<Url>) {
    forall k: int {:trigger OpenLinks(k)} :: OpenLinks(k) ==>
      UniqueUrls(cs) && forall u :: u in active <==> Connected(cs, u)
  }

  lemma LinkedUnique(cs: seq<Connection>, active: set<Url>)
    requires Linked(cs, active)
    ensures UniqueUrls(cs)
  {
    assert OpenLinks(0);
  }

  lemma DropUnique(cs: seq<Connection>, i: nat)
    requires UniqueUrls(cs) && i < |cs|
    ensures UniqueUrls(cs[..i] + cs[i + 1..])
  {
    var rest := cs[..i] + cs[i + 1..];
    forall k, l | 0 <= k < l < |rest| ensures rest[k].url != rest[l].url {
      assert rest[k] == cs[if k < i then k else k + 1] && rest[l] == cs[if l < i then l else l + 1];
    }
  }

  lemma DropConnected(cs: seq<Connection>, i: nat, u: Url)
    requires UniqueUrls(cs) && i < |cs|
    ensures Connected(cs[..i] + cs[i + 1..], u) <==> Connected(cs, u) && u != cs[i].url
  {
    var rest := cs[..i] + cs[i + 1..];
    if Connected(rest, u) {
      var k :| 0 <= k < |rest| && rest[k].url == u;
      assert rest[k] == cs[if k < i then k else k + 1];
    }
    if Connected(cs, u) && u != cs[i].url {
      var k :| 0 <= k < |cs| && cs[k].url == u;
      assert cs[k] == rest[if k < i then k else k - 1];
    }
  }

  lemma DropConnection(cs: seq<Connection>, active: set<Url>, i: nat)
    requires Linked(cs, active) && i < |cs|
    ensures Linked(cs[..i] + cs[i + 1..], active - {cs[i].url})
  {
    assert OpenLinks(0);
    DropUnique(cs, i);
    forall u ensures u in active - {cs[i].url} <==> Connected(cs[..i] + cs[i + 1..], u) {
      DropConnected(cs, i, u);
    }
  }

  lemma UpdateConnection(cs: seq<Connection>, active: set<Url>, i: nat, c: Connection)
    requires Linked(cs, active) && i < |cs| && c.url == cs[i].url
    ensures Linked(cs[i := c], active)
  {
    assert OpenLinks(0);
    forall u ensures Connected(cs[i := c], u) <==> Connected(cs, u) {
      if Connected(cs, u) {
        var k :| 0 <= k < |cs| && cs[k].url == u;
        assert cs[i := c][k].url == u;
      }
    }
  }

  lemma AddConnection(cs: seq<Connection>, active: set<Url>, c: Connection)
    requires Linked(cs, active) && c.url !in active
    ensures Linked(cs + [c], active + {c.url})
  {
    assert OpenLinks(0);
    UniqueMore(cs, c);
    forall u ensures Connected(cs + [c], u) <==> u in active + {c.url} {
      ConnectedMore(cs, c, u);
    }
  }

  lemma SortConnections(cs: seq<Connection>, active: set<Url>)
    requires Linked(cs, active)
    ensures Linked(SortByCount(cs), active) && Sorted(SortByCount(cs))
  {
    assert OpenLinks(0);
    SortKeeps(cs);
  }

  // ---------------------------------------------------------------- the pool

  /** What a peer tells about itself: its file system, its node, and its chunks as a bit string. */
  datatype Info = Info(fsId: nat, nodeId: nat, available: Bytes)

  const INFO_REFRESH := 10
  const PEX_REFRESH := 60

  /** A connection after the exchange of information, or none when the peer does not answer. */
  function Refreshed(c: Connection, now: int, later: int, answer: Option<Info>): Option<Connection> {
    if now - c.lastInfo > INFO_REFRESH then
      match answer
      case None => None
      case Some(info) => Some(c.(available := Decoded(info.available), lastInfo := later))
    else Some(c)
  }

  function Refreshing(now: int, later: int, ask: Url -> Option<Info>): Connection -> Option<Connection> {
    (c: Connection) => Refreshed(c, now, later, ask(c.url))
  }

  function Polling(now: int, later: int, ask: Url -> Option<seq<Url>>): Connection -> Option<Connection> {
    (c: Connection) => Polled(c, now, later, ask(c.url))
  }

  /** A connection after the exchange of peers, or none when the peer does not answer. */
  function Polled(c: Connection, now: int, later: int, answer: Option<seq<Url>>): Option<Connection> {
    if now - c.lastPex > PEX_REFRESH then
      match answer
      case None => None
      case Some(_) => Some(c.(lastPex := later))
    else Some(c)
  }

  /** A connection before and after the exchange of information. */
  ghost predicate Heard(o: Connection, c: Connection, now: int, later: int, answer: Option<Info>) {
    && c.url == o.url && c.nid == o.nid && c.lastPex == o.lastPex
    && if now - o.lastInfo > 10
       then answer.Some? && c.available == Decoded(answer.value.available) && c.lastInfo == later
       else c.available == o.available && c.lastInfo == o.lastInfo
  }

  /** The connections after the exchange of information: exactly those that are fresh or answer, updated. */
  ghost predicate AfterInfo(before: seq<Connection>, after: seq<Connection>, now: int, later: int,
                            ask: Url -> Option<Info>)
  {
    && (forall c :: c in after ==> exists o :: o in before && Heard(o, c, now, later, ask(o.url)))
    && forall o :: o in before ==> (Connected(after, o.url) <==> now - o.lastInfo <= 10 || ask(o.url).Some?)
  }

  /** A connection before and after the exchange of peers. */
  ghost predicate Traded(o: Connection, c: Connection, now: int, later: int, answer: Option<seq<Url>>) {
    && c.url == o.url && c.nid == o.nid && c.available == o.available && c.lastInfo == o.lastInfo
    && if now - o.lastPex > 60 then answer.Some? && c.lastPex == later else c.lastPex == o.lastPex
  }

  /** The connections after the exchange of peers: exactly those that are fresh or answer, updated. */
  ghost predicate AfterPex(before: seq<Connection>, after: seq<Connection>, now: int, later: int,
                           ask: Url -> Option<seq<Url>>)
  {
    && (forall c :: c in after ==> exists o :: o in before && Traded(o, c, now, later, ask(o.url)))
    && forall o :: o in before ==> (Connected(after, o.url) <==> now - o.lastPex <= 60 || ask(o.url).Some?)
  }

  lemma SameUrl(cs: seq<Connection>, a: Connection, b: Connection)
    requires UniqueUrls(cs) && a in cs && b in cs && a.url == b.url
    ensures a == b
  {
    var i :| 0 <= i < |cs| && cs[i] == a;
    var j :| 0 <= j < |cs| && cs[j] == b;
  }

  /** A pass keeps exactly the urls of the connections for which it yields one. */
  lemma KeptUrls(cs: seq<Connection>, f: Connection -> Option<Connection>, o: Connection)
    requires UniqueUrls(cs) && o in cs && forall x :: x in cs && f(x).Some? ==> f(x).value.url == x.url
    ensures Connected(SortByCount(Kept(cs, f)), o.url) <==> f(o).Some?
  {
    var after := SortByCount(Kept(cs, f));
    KeptMembers(cs, f);
    SortMembers(Kept(cs, f));
    if f(o).Some? {
      assert f(o).value in after;
      var i :| 0 <= i < |after| && after[i] == f(o).value;
    }
    if Connected(after, o.url) {
      var i :| 0 <= i < |after| && after[i].url == o.url;
      assert after[i] in after;
      var x :| x in cs && f(x) == Some(after[i]);
      SameUrl(cs, x, o);
    }
  }

  lemma RefreshedWho(cs: seq<Connection>, now: int, later: int, ask: Url -> Option<Info>)
    requires UniqueUrls(cs)
    ensures AfterInfo(cs, SortByCount(Kept(cs, Refreshing(now, later, ask))), now, later, ask)
  {
    var f := Refreshing(now, later, ask);
    KeptMembers(cs, f);
    SortMembers(Kept(cs, f));
    forall c | c in SortByCount(Kept(cs, f)) ensures exists o :: o in cs && Heard(o, c, now, later, ask(o.url)) {
      var o :| o in cs && f(o) == Some(c);
      assert Heard(o, c, now, later, ask(o.url));
    }
    forall o | o in cs
      ensures Connected(SortByCount(Kept(cs, f)), o.url) <==> now - o.lastInfo <= 10 || ask(o.url).Some?
    {
      KeptUrls(cs, f, o);
    }
  }

  lemma PolledWho(cs: seq<Connection>, now: int, later: int, ask: Url -> Option<seq<Url>>)
    requires UniqueUrls(cs)
    ensures AfterPex(cs, SortByCount(Kept(cs, Polling(now, later, ask))), now, later, ask)
  {
    var f := Polling(now, later, ask);
    KeptMembers(cs, f);
    SortMembers(Kept(cs, f));
    forall c | c in SortByCount(Kept(cs, f)) ensures exists o :: o in cs && Traded(o, c, now, later, ask(o.url)) {
      var o :| o in cs && f(o) == Some(c);
      assert Traded(o, c, now, later, ask(o.url));
    }
    forall o | o in cs
      ensures Connected(SortByCount(Kept(cs, f)), o.url) <==> now - o.lastPex <= 60 || ask(o.url).Some?
    {
      KeptUrls(cs, f, o);
    }
  }

  /** The connection to a candidate that answered. */
  function Joined(url: Url, info: Info, later: int): Connection {
    Connection(url, info.nodeId, Decoded(info.available), later, 0)
  }

  /** The candidates after a list of peers was named: those that are not active are pushed in order. */
  function Suggested(q: seq<Url>, limit: nat, active: set<Url>, urls: seq<Url>): seq<Url> {
    if |urls| == 0 then q
    else
      var before := Suggested(q, limit, active, urls[..|urls| - 1]);
      if urls[|urls| - 1] in active then before else Pushed(before, limit, urls[|urls| - 1])
  }

  /** With room for all of them, named peers that are not active become candidates and no candidate is lost. */
  lemma {:induction false} SuggestedMembers(q: seq<Url>, limit: nat, active: set<Url>, urls: seq<Url>)
    requires |q| + |urls| <= limit
    ensures |Suggested(q, limit, active, urls)| <= |q| + |urls|
    ensures forall u :: u in Suggested(q, limit, active, urls) <==> u in q || (u in urls && u !in active)
  {
    if |urls| > 0 {
      var n := |urls| - 1;
      SuggestedMembers(q, limit, active, urls[..n]);
      assert urls == urls[..n] + [urls[n]];
    }
  }

  lemma {:induction false} SuggestedOnly(q: seq<Url>, limit: nat, active: set<Url>, urls: seq<Url>)
    ensures forall u :: u in Suggested(q, limit, active, urls) ==> u in q || u in urls
  {
    if |urls| > 0 {
      SuggestedOnly(q, limit, active, urls[..|urls| - 1]);
    }
  }

  /** A peer that is asked for its peers names this one. */
  ghost predicate Named(cs: seq<Connection>, now: int, ask: Url -> Option<seq<Url>>, u: Url) {
    exists c :: c in cs && now - c.lastPex > 60 && ask(c.url).Some? && u in ask(c.url).value
  }

  /** How many peers are named in all. */
  function NamedCount(cs: seq<Connection>, ask: Url -> Option<seq<Url>>): nat {
    if |cs| == 0 then 0
    else
      var answer := ask(cs[|cs| - 1].url);
      NamedCount(cs[..|cs| - 1], ask) + if answer.Some? then |answer.value| else 0
  }

  /** Active peers and candidates after the exchange of peers with one connection. */
  function PexOne(active: set<Url>, q: seq<Url>, limit: nat, c: Connection, now: int, ask: Url -> Option<seq<Url>>)
    : (set<Url>, seq<Url>)
  {
    if now - c.lastPex > PEX_REFRESH then
      match ask(c.url)
      case None => (active - {c.url}, q)
      case Some(urls) => (active, Suggested(q, limit, active, urls))
    else (active, q)
  }

  /** Active peers and candidates after a pass over connections; a peer that was dropped may be named later. */
  function PexAll(active: set<Url>, q: seq<Url>, limit: nat, cs: seq<Connection>, now: int,
                  ask: Url -> Option<seq<Url>>)
    : (set<Url>, seq<Url>)
  {
    if |cs| == 0 then (active, q)
    else
      var before := PexAll(active, q, limit, cs[..|cs| - 1], now, ask);
      PexOne(before.0, before.1, limit, cs[|cs| - 1], now, ask)
  }

  lemma NamedMore(cs: seq<Connection>, now: int, ask: Url -> Option<seq<Url>>, u: Url)
    requires |cs| > 0
    ensures var c := cs[|cs| - 1];
      Named(cs, now, ask, u) <==>
        Named(cs[..|cs| - 1], now, ask, u) || (now - c.lastPex > 60 && ask(c.url).Some? && u in ask(c.url).value)
  {
    assert cs == cs[..|cs| - 1] + [cs[|cs| - 1]];
  }

  /** Candidates were there or are named; with room for all of them every named peer that was not active is one. */
  ghost predicate PexJoined(active: set<Url>, q: seq<Url>, limit: nat, cs: seq<Connection>, now: int,
                            ask: Url -> Option<seq<Url>>, queue: seq<Url>)
  {
    && (forall u :: u in queue ==> u in q || Named(cs, now, ask, u))
    && (|q| + NamedCount(cs, ask) <= limit ==>
          && |queue| <= |q| + NamedCount(cs, ask)
          && forall u :: u in q || (u !in active && Named(cs, now, ask, u)) ==> u in queue)
  }

  lemma PexJoinedMore(active: set<Url>, q: seq<Url>, limit: nat, cs: seq<Connection>, now: int,
                      ask: Url -> Option<seq<Url>>, still: set<Url>, before: seq<Url>)
    requires |cs| > 0 && still <= active
    requires PexJoined(active, q, limit, cs[..|cs| - 1], now, ask, before)
    ensures PexJoined(active, q, limit, cs, now, ask, PexOne(still, before, limit, cs[|cs| - 1], now, ask).1)
  {
    var c := cs[|cs| - 1];
    var queue := PexOne(still, before, limit, c, now, ask).1;
    var answer := ask(c.url);
    var room := |q| + NamedCount(cs, ask) <= limit;
    if now - c.lastPex > 60 && answer.Some? {
      SuggestedOnly(before, limit, still, answer.value);
      if room {
        SuggestedMembers(before, limit, still, answer.value);
      }
    }
    forall u | u in queue ensures u in q || Named(cs, now, ask, u) {
      NamedMore(cs, now, ask, u);
    }
    if room {
      forall u | u in q || (u !in active && Named(cs, now, ask, u)) ensures u in queue {
        NamedMore(cs, now, ask, u);
      }
    }
  }

  lemma {:induction false} PexMembers(active: set<Url>, q: seq<Url>, limit: nat, cs: seq<Connection>, now: int,
                                      ask: Url -> Option<seq<Url>>)
    ensures PexAll(active, q, limit, cs, now, ask).0 <= active
    ensures PexJoined(active, q, limit, cs, now, ask, PexAll(active, q, limit, cs, now, ask).1)
  {
    if |cs| > 0 {
      var n := |cs| - 1;
      PexMembers(active, q, limit, cs[..n], now, ask);
      var before := PexAll(active, q, limit, cs[..n], now, ask);
      PexJoinedMore(active, q, limit, cs, now, ask, before.0, before.1);
    }
  }

  lemma PexNone(active: set<Url>, q: seq<Url>, limit: nat, cs: seq<Connection>, now: int, ask: Url -> Option<seq<Url>>)
    ensures PexAll(active, q, limit, cs[..0], now, ask) == (active, q)
  {
  }

  lemma PexMore(active: set<Url>, q: seq<Url>, limit: nat, cs: seq<Connection>, k: nat, now: int,
                ask: Url -> Option<seq<Url>>)
    requires k < |cs|
    ensures var before := PexAll(active, q, limit, cs[..k], now, ask);
      PexAll(active, q, limit, cs[..k + 1], now, ask) == PexOne(before.0, before.1, limit, cs[k], now, ask)
  {
    assert cs[..k + 1][..k] == cs[..k];
  }

  class ConnectionPool {
    var connections: seq<Connection>
    var activePeers: set<Url>
    const candidates: OrderedSet
    const limit: nat
    const fsId: nat

    ghost predicate Consistent()
      reads this, candidates
    {
      && candidates.Valid()
      && Linked(connections, activePeers)
      && (forall u :: u in candidates.queue ==> u !in activePeers)
    }

    /** The state between updates. */
    ghost predicate Valid()
      reads this, candidates
    {
      && Consistent() && Sorted(connections)
      && (|activePeers| <= limit || |activePeers| <= 1)
    }

    /** A pool starts with the bootstrap peer, if there is one. */
    constructor (limit: nat, candidatesLimit: nat, fsId: nat, bootstrap: Option<Connection>)
      ensures Valid() && fresh(candidates) && this.limit == limit && this.fsId == fsId
      ensures connections == match bootstrap { case None => [] case Some(c) => [c] }
    {
      this.limit, this.fsId := limit, fsId;
      candidates := new OrderedSet(candidatesLimit);
      if bootstrap.Some? {
        connections, activePeers := [bootstrap.value], {bootstrap.value.url};
      } else {
        connections, activePeers := [], {};
      }
      new;
      if bootstrap.Some? {
        assert connections[0].url == bootstrap.value.url;
      }
    }

    /** Connection `i` is updated, or dropped with its url. */
    method Apply(i: nat, r: Option<Connection>) returns (next: nat)
      requires Consistent() && i < |connections| && (r.Some? ==> r.value.url == connections[i].url)
      modifies this`connections, this`activePeers
      ensures Consistent()
      ensures activePeers == if r.Some? then old(activePeers) else old(activePeers) - {old(connections)[i].url}
      ensures connections ==
        old(connections)[..i] + (match r { case None => [] case Some(c) => [c] }) + old(connections)[i + 1..]
      ensures next == if r.Some? then i + 1 else i
    {
      match r
      case None =>
        DropConnection(connections, activePeers, i);
        activePeers := activePeers - {connections[i].url};
        connections := connections[..i] + connections[i + 1..];
        next := i;
      case Some(c) =>
        UpdateConnection(connections, activePeers, i, c);
        connections := connections[i := c];
        next := i + 1;
    }

    method Sort()
      requires Consistent()
      modifies this`connections
      ensures Consistent() && connections == SortByCount(old(connections)) && Sorted(connections)
    {
      SortConnections(connections, activePeers);
      connections := SortByCount(connections);
    }

    /** One connection of a pass. */
    method PassStep(ghost start: seq<Connection>, ghost f: Connection -> Option<Connection>, ghost k: nat,
                    i: nat, r: Option<Connection>)
      returns (next: nat)
      requires Consistent() && PassAt(start, f, k, i, connections) && i < |connections| && r == f(connections[i])
      requires r.Some? ==> r.value.url == connections[i].url
      modifies this`connections, this`activePeers
      ensures Consistent()
      ensures activePeers == if r.Some? then old(activePeers) else old(activePeers) - {old(connections)[i].url}
      ensures k < |start| && PassAt(start, f, k + 1, next, connections)
    {
      PassHere(start, f, k, i, connections);
      PassNext(start, f, k, i, connections);
      next := Apply(i, r);
    }

    /** The end of a pass: nothing was added, and the list is sorted again. */
    method PassEnd(ghost start: seq<Connection>, ghost f: Connection -> Option<Connection>, ghost k: nat,
                   i: nat, ghost before: set<Url>)
      requires Consistent() && PassAt(start, f, k, i, connections) && i >= |connections|
      requires activePeers <= before && (|before| <= limit || |before| <= 1)
      modifies this`connections
      ensures Valid() && connections == SortByCount(Kept(start, f))
    {
      PassHere(start, f, k, i, connections);
      SubsetSize(activePeers, before);
      Sort();
    }

    method InfoStep(ghost start: seq<Connection>, ghost k: nat, i: nat, now: int, later: int, ask: Url -> Option<Info>)
      returns (next: nat)
      requires Consistent() && PassAt(start, Refreshing(now, later, ask), k, i, connections) && i < |connections|
      modifies this`connections, this`activePeers
      ensures Consistent() && activePeers <= old(activePeers)
      ensures k < |start| && PassAt(start, Refreshing(now, later, ask), k + 1, next, connections)
    {
      var c := connections[i];
      next := PassStep(start, Refreshing(now, later, ask), k, i, Refreshed(c, now, later, ask(c.url)));
    }

    /** Ask every peer that was not heard of lately for its chunks; those that do not answer are dropped. */
    method GetInfo(now: int, later: int, ask: Url -> Option<Info>)
      requires Valid()
      modifies this`connections, this`activePeers
      ensures Valid() && activePeers <= old(activePeers)
      ensures connections == SortByCount(Kept(old(connections), Refreshing(now, later, ask)))
      ensures AfterInfo(old(connections), connections, now, later, ask)
    {
      LinkedUnique(connections, activePeers);
      RefreshedWho(connections, now, later, ask);
      InfoLoop(now, later, ask);
    }

    method InfoLoop(now: int, later: int, ask: Url -> Option<Info>)
      requires Valid()
      modifies this`connections, this`activePeers
      ensures Valid() && activePeers <= old(activePeers)
      ensures connections == SortByCount(Kept(old(connections), Refreshing(now, later, ask)))
    {
      ghost var cs, k: nat := connections, 0;
      var i: nat := 0;
      PassBegin(cs, Refreshing(now, later, ask));
      while i < |connections|
        invariant PassAt(cs, Refreshing(now, later, ask), k, i, connections)
        invariant Consistent() && activePeers <= old(activePeers)
        decreases |cs| - k
      {
        i := InfoStep(cs, k, i, now, later, ask);
        k := k + 1;
      }
      PassEnd(cs, Refreshing(now, later, ask), k, i, old(activePeers));
    }

    /** Peers that are not active become candidates. */
    method Suggest(urls: seq<Url>)
      requires Consistent()
      modifies candidates
      ensures Consistent()
      ensures candidates.queue == Suggested(old(candidates.queue), candidates.maxSize, activePeers, urls)
    {
      for k := 0 to |urls|
        invariant Consistent()
        invariant candidates.queue == Suggested(old(candidates.queue), candidates.maxSize, activePeers, urls[..k])
      {
        assert urls[..k + 1][..k] == urls[..k];
        if urls[k] !in activePeers {
          var _ := candidates.Push(urls[k]);
        }
      }
      assert urls[..|urls|] == urls;
    }

    /** A pass of peer exchange that has dealt with the first `k` connections, and started with these peers. */
    ghost predicate PexAt(start: seq<Connection>, active: set<Url>, q: seq<Url>, k: nat, i: nat,
                          now: int, later: int, ask: Url -> Option<seq<Url>>)
      reads this, candidates
    {
      && Consistent() && activePeers <= active
      && PassAt(start, Polling(now, later, ask), k, i, connections)
      && (activePeers, candidates.queue) == PexAll(active, q, candidates.maxSize, start[..k], now, ask)
    }

    method PexStep(ghost start: seq<Connection>, ghost active: set<Url>, ghost q: seq<Url>, ghost k: nat, i: nat,
                   now: int, later: int, ask: Url -> Option<seq<Url>>)
      returns (next: nat)
      requires PexAt(start, active, q, k, i, now, later, ask) && i < |connections|
      modifies this`connections, this`activePeers, candidates
      ensures k < |start| && PexAt(start, active, q, k + 1, next, now, later, ask)
    {
      PassHere(start, Polling(now, later, ask), k, i, connections);
      PexMore(active, q, candidates.maxSize, start, k, now, ask);
      var c := connections[i];
      if now - c.lastPex > PEX_REFRESH && ask(c.url).Some? {
        Suggest(ask(c.url).value);
      }
      next := PassStep(start, Polling(now, later, ask), k, i, Polled(c, now, later, ask(c.url)));
    }

    /** A pass of peer exchange. */
    method PexLoop(ghost start: seq<Connection>, ghost active: set<Url>, ghost q: seq<Url>,
                   now: int, later: int, ask: Url -> Option<seq<Url>>)
      returns (ghost k: nat, i: nat)
      requires PexAt(start, active, q, 0, 0, now, later, ask)
      modifies this`connections, this`activePeers, candidates
      ensures PexAt(start, active, q, k, i, now, later, ask) && i >= |connections|
    {
      k, i := 0, 0;
      while i < |connections|
        invariant PexAt(start, active, q, k, i, now, later, ask)
        decreases |start| - k
      {
        i := PexStep(start, active, q, k, i, now, later, ask);
        k := k + 1;
      }
    }

    /** Exchange peers with every peer with which this was not done lately; those that do not answer are dropped. */
    method GetPex(now: int, later: int, ask: Url -> Option<seq<Url>>)
      requires Valid()
      modifies this`connections, this`activePeers, candidates
      ensures Valid() && activePeers <= old(activePeers)
      ensures connections == SortByCount(Kept(old(connections), Polling(now, later, ask)))
      ensures (activePeers, candidates.queue) ==
        PexAll(old(activePeers), old(candidates.queue), candidates.maxSize, old(connections), now, ask)
      ensures AfterPex(old(connections), connections, now, later, ask)
      ensures PexJoined(old(activePeers), old(candidates.queue), candidates.maxSize, old(connections), now, ask,
                        candidates.queue)
    {
      LinkedUnique(connections, activePeers);
      PolledWho(connections, now, later, ask);
      PexMembers(activePeers, candidates.queue, candidates.maxSize, connections, now, ask);
      PexPass(now, later, ask);
    }

    method PexPass(now: int, later: int, ask: Url -> Option<seq<Url>>)
      requires Valid()
      modifies this`connections, this`activePeers, candidates
      ensures Valid() && activePeers <= old(activePeers)
      ensures connections == SortByCount(Kept(old(connections), Polling(now, later, ask)))
      ensures (activePeers, candidates.queue) ==
        PexAll(old(activePeers), old(candidates.queue), candidates.maxSize, old(connections), now, ask)
    {
      ghost var start, active, q := connections, activePeers, candidates.queue;
      PassBegin(start, Polling(now, later, ask));
      PexNone(active, q, candidates.maxSize, start, now, ask);
      ghost var k;
      var i;
      k, i := PexLoop(start, active, q, now, later, ask);
      PassOver(start, Polling(now, later, ask), k, i, connections);
      PassEnd(start, Polling(now, later, ask), k, i, active);
    }

    /** Add the connection to a candidate that was taken from the queue. */
    method Join(c: Connection)
      requires Consistent() && c.url !in activePeers && c.url !in candidates.queue
      modifies this`connections, this`activePeers
      ensures Consistent() && Sorted(connections)
      ensures connections == SortByCount(old(connections) + [c])
      ensures activePeers == old(activePeers) + {c.url}
    {
      AddConnection(connections, activePeers, c);
      connections := connections + [c];
      activePeers := activePeers + {c.url};
      Sort();
    }

    /** Try one candidate. */
    method TryOne(later: int, ask: Url -> Option<Info>)
      requires Valid() && |connections| < limit && |candidates.queue| > 0
      modifies this`connections, this`activePeers, candidates
      ensures Valid() && old(activePeers) <= activePeers
      ensures candidates.queue == old(candidates.queue)[1..]
      ensures connections == Tried(old(connections), old(candidates.queue)[0], fsId, later, ask)
    {
      var url := candidates.Pop();
      var answer := ask(url);
      LinkedSize(connections, activePeers);
      if answer.Some? && answer.value.fsId == fsId {
        Join(Joined(url, answer.value, later));
      }
    }

    /** An expansion with some tries left, which started with these connections and candidates. */
    ghost predicate ExpandAt(cs: seq<Connection>, q: seq<Url>, active: set<Url>, tries: nat, later: int,
                             ask: Url -> Option<Info>)
      reads this, candidates
    {
      && Valid() && active <= activePeers
      && Expanded(connections, candidates.queue, limit, tries, fsId, later, ask) ==
         Expanded(cs, q, limit, 5, fsId, later, ask)
    }

    method ExpandStep(ghost cs: seq<Connection>, ghost q: seq<Url>, ghost active: set<Url>, ghost tries: nat,
                      later: int, ask: Url -> Option<Info>)
      requires ExpandAt(cs, q, active, tries + 1, later, ask) && |connections| < limit && |candidates.queue| > 0
      modifies this`connections, this`activePeers, candidates
      ensures ExpandAt(cs, q, active, tries, later, ask)
    {
      ExpandedNext(connections, candidates.queue, limit, tries + 1, fsId, later, ask);
      TryOne(later, ask);
    }

    /** Whether there are fewer active peers than the limit, which are as many as connections. */
    method HasRoom() returns (room: bool)
      requires Valid()
      ensures room <==> |connections| < limit
    {
      LinkedSize(connections, activePeers);
      room := |activePeers| < limit;
    }

    /** Up to five candidates are tried, as long as there is room for more peers. */
    method Expand(later: int, ask: Url -> Option<Info>)
      requires Valid()
      modifies this`connections, this`activePeers, candidates
      ensures Valid() && old(activePeers) <= activePeers
      ensures (connections, candidates.queue) ==
        Expanded(old(connections), old(candidates.queue), limit, 5, fsId, later, ask)
      ensures |candidates.queue| <= |old(candidates.queue)|
      ensures AfterExpand(old(connections), old(candidates.queue), limit, 5, fsId, later, ask,
                          |old(candidates.queue)| - |candidates.queue|, connections, candidates.queue)
    {
      ExpandedWho(connections, candidates.queue, limit, 5, fsId, later, ask);
      ExpandLoop(later, ask);
    }

    method ExpandLoop(later: int, ask: Url -> Option<Info>)
      requires Valid()
      modifies this`connections, this`activePeers, candidates
      ensures Valid() && old(activePeers) <= activePeers
      ensures (connections, candidates.queue) ==
        Expanded(old(connections), old(candidates.queue), limit, 5, fsId, later, ask)
    {
      ghost var cs, q, active := connections, candidates.queue, activePeers;
      var i: nat := 0;
      var size := candidates.Size();
      var room := HasRoom();
      while i < 5 && room && size > 0
        invariant i <= 5 && ExpandAt(cs, q, active, 5 - i, later, ask)
        invariant size == |candidates.queue| && (room <==> |connections| < limit)
        decreases 5 - i
      {
        ExpandStep(cs, q, active, 4 - i, later, ask);
        size := candidates.Size();
        room := HasRoom();
        i := i + 1;
      }
    }

    /** The connection with the fewest chunks makes room for a new one. */
    method ReplaceFirst(c: Connection)
      requires Valid() && |connections| > 0 && c.url !in activePeers && c.url !in candidates.queue
      modifies this`connections, this`activePeers
      ensures Valid() && connections == SortByCount(old(connections)[1..] + [c])
      ensures activePeers == old(activePeers) - {old(connections)[0].url} + {c.url}
    {
      LinkedSize(connections, activePeers);
      var _ := Apply(0, None);
      assert connections == old(connections)[1..];
      Join(c);
      SortKeeps(old(connections)[1..] + [c]);
      LinkedSize(connections, activePeers);
    }

    /**
     Try one candidate when exploring; the program's behaviour is undefined when there is no
     connection to replace.
     */
    method ExploreOne(later: int, ask: Url -> Option<Info>, least: nat) returns (defined: bool)
      requires Valid() && |candidates.queue| > 0
      modifies this`connections, this`activePeers, candidates
      ensures Valid() && candidates.queue == old(candidates.queue)[1..]
      ensures defined <==> !(old(connections) == [] && Worth(old(candidates.queue)[0], fsId, ask, least))
      ensures connections == Swapped(old(connections), old(candidates.queue)[0], fsId, later, ask, least)
    {
      var url := candidates.Pop();
      defined := true;
      if Worth(url, fsId, ask, least) {
        if |connections| == 0 {
          return false;
        }
        ReplaceFirst(Joined(url, ask(url).value, later));
      }
    }

    /** An exploration that has tried the first `i` candidates, and started with these. */
    ghost predicate ExploreAt(cs: seq<Connection>, q: seq<Url>, i: nat, least: nat, later: int,
                              ask: Url -> Option<Info>)
      reads this, candidates
    {
      && Valid() && i <= 10 && i <= |q| && candidates.queue == q[i..] && |connections| == |cs|
      && (cs != [] ==> AtLeast(connections, least))
      && (cs == [] ==> forall k :: 0 <= k < i ==> !Worth(q[k], fsId, ask, least))
      && Explored(connections, q[i..], 10 - i, fsId, later, ask, least) == Explored(cs, q, 10, fsId, later, ask, least)
    }

    method ExploreStep(ghost cs: seq<Connection>, ghost q: seq<Url>, i: nat, least: nat, later: int,
                       ask: Url -> Option<Info>)
      returns (defined: bool)
      requires ExploreAt(cs, q, i, least, later, ask) && i < 10 && |candidates.queue| > 0
      modifies this`connections, this`activePeers, candidates
      ensures Valid() && |connections| == |cs|
      ensures defined <==> !(cs == [] && Worth(q[i], fsId, ask, least))
      ensures defined ==> ExploreAt(cs, q, i + 1, least, later, ask)
    {
      SwapKeeps(connections, q[i], fsId, later, ask, least);
      ExploredNext(connections, q[i..], 10 - i, fsId, later, ask, least);
      assert q[i..][1..] == q[i + 1..];
      defined := ExploreOne(later, ask, least);
    }

    /**
     Up to ten candidates are tried, and each that has more chunks than the poorest peer had
     at first replaces the poorest one. The time of the last exploration is never recorded, so
     every call explores. Undefined exactly when there are no connections and some candidate
     that is tried is worth connecting.
     */
    method Explore(later: int, ask: Url -> Option<Info>) returns (defined: bool)
      requires Valid()
      modifies this`connections, this`activePeers, candidates
      ensures Valid() && |connections| == |old(connections)|
      ensures old(connections) != [] ==> AtLeast(connections, old(connections)[0].Count())
      ensures defined ==>
        && connections ==
             Explored(old(connections), old(candidates.queue), 10, fsId, later, ask, Least(old(connections)))
        && candidates.queue == old(candidates.queue)[Min(10, |old(candidates.queue)|)..]
      ensures defined ==>
        AfterExplore(old(connections), old(candidates.queue), 10, fsId, later, ask, Least(old(connections)),
                     connections)
      ensures !defined <==> Astray(old(connections), old(candidates.queue), fsId, ask)
    {
      ExploredWho(connections, candidates.queue, 10, fsId, later, ask, Least(connections));
      defined := ExploreLoop(later, ask);
    }

    method ExploreLoop(later: int, ask: Url -> Option<Info>) returns (defined: bool)
      requires Valid()
      modifies this`connections, this`activePeers, candidates
      ensures Valid() && |connections| == |old(connections)|
      ensures old(connections) != [] ==> AtLeast(connections, old(connections)[0].Count())
      ensures defined ==>
        && connections ==
             Explored(old(connections), old(candidates.queue), 10, fsId, later, ask, Least(old(connections)))
        && candidates.queue == old(candidates.queue)[Min(10, |old(candidates.queue)|)..]
      ensures !defined <==> Astray(old(connections), old(candidates.queue), fsId, ask)
    {
      var least := Least(connections);
      ghost var cs, q := connections, candidates.queue;
      assert q[0..] == q;
      var i: nat := 0;
      var size := candidates.Size();
      while size > 0 && i < 10
        invariant ExploreAt(cs, q, i, least, later, ask) && size == |candidates.queue|
        decreases 10 - i
      {
        defined := ExploreStep(cs, q, i, least, later, ask);
        if !defined {
          return;
        }
        size := candidates.Size();
        i := i + 1;
      }
      defined := true;
    }

    /** A peer that asked for information becomes a candidate. */
    method InfoFromPeer(url: Url)
      requires Valid()
      modifies candidates
      ensures Valid()
      ensures candidates.queue ==
        if url in activePeers then old(candidates.queue) else Pushed(old(candidates.queue), candidates.maxSize, url)
    {
      if url !in activePeers {
        var _ := candidates.Push(url);
      }
    }

    /** The chunks of a node that asked for information, if it is connected. */
    method InfoFromNode(nid: nat, available: Bytes, later: int)
      requires Valid()
      modifies this`connections
      ensures Valid()
      ensures FirstOf(old(connections), nid) == |old(connections)| ==> connections == old(connections)
      ensures FirstOf(old(connections), nid) < |old(connections)| ==>
        var k := FirstOf(old(connections), nid);
        connections == SortByCount(
          old(connections)[k := old(connections)[k].(available := Decoded(available), lastInfo := later)])
    {
      var k := FindNode(nid);
      if k < |connections| {
        var chunks := Decode(available);
        Update(k, connections[k].(available := chunks, lastInfo := later));
      }
    }

    method FindNode(nid: nat) returns (k: nat)
      ensures k == FirstOf(connections, nid)
    {
      k := 0;
      while k < |connections| && connections[k].nid != nid
        invariant k <= FirstOf(connections, nid)
      {
        k := k + 1;
      }
    }

    method Update(k: nat, c: Connection)
      requires Valid() && k < |connections| && c.url == connections[k].url
      modifies this`connections
      ensures Valid() && connections == SortByCount(old(connections)[k := c])
    {
      UpdateConnection(connections, activePeers, k, c);
      connections := connections[k := c];
      Sort();
    }

    /** The peers to tell a node about: all but itself. */
    method PexFrom(urls: seq<Url>, nid: nat, later: int) returns (outgoing: seq<Url>)
      requires Valid()
      modifies this`connections, candidates
      ensures Valid() && connections == Stamped(old(connections), |old(connections)|, nid, later)
      ensures outgoing == Others(old(connections), nid)
      ensures |connections| == |old(connections)|
      ensures forall k :: 0 <= k < |connections| ==>
        connections[k] == if old(connections)[k].nid == nid then old(connections)[k].(lastPex := later)
                          else old(connections)[k]
      ensures forall u :: u in outgoing <==> exists c :: c in old(connections) && c.nid != nid && c.url == u
      ensures candidates.queue == Suggested(old(candidates.queue), candidates.maxSize, activePeers, urls)
    {
      OthersMembers(connections, nid);
      Suggest(urls);
      outgoing := Tell(nid, later);
    }

    /** The urls of the other nodes; connections to the asking one are stamped. */
    method Tell(nid: nat, later: int) returns (outgoing: seq<Url>)
      requires Valid()
      modifies this`connections
      ensures Valid() && connections == Stamped(old(connections), |old(connections)|, nid, later)
      ensures outgoing == Others(old(connections), nid)
    {
      outgoing := [];
      ghost var cs := connections;
      for k := 0 to |connections|
        invariant Valid() && connections == Stamped(cs, k, nid, later)
        invariant outgoing == Others(cs[..k], nid)
      {
        assert cs[..k + 1][..k] == cs[..k];
        if connections[k].nid == nid {
          Stamp(k, later);
        } else {
          outgoing := outgoing + [connections[k].url];
        }
      }
      assert cs[..|cs|] == cs;
    }

    method Stamp(k: nat, later: int)
      requires Valid() && k < |connections|
      modifies this`connections
      ensures Valid() && connections == old(connections)[k := old(connections)[k].(lastPex := later)]
    {
      var c := connections[k].(lastPex := later);
      UpdateConnection(connections, activePeers, k, c);
      connections := connections[k := c];
    }

    /** A peer that has a chunk, if there is one; `pick` is the random choice. */
    method ConnectionForBlock(id: nat, pick: nat) returns (r: Option<Connection>)
      ensures r == None <==> forall c :: c in connections ==> id !in c.available
      ensures r.Some? ==> r.value in connections && id in r.value.available
    {
      var holders: seq<Connection> := [];
      for k := 0 to |connections|
        invariant forall c :: c in holders <==> c in connections[..k] && id in c.available
      {
        if id in connections[k].available {
          holders := holders + [connections[k]];
        }
      }
      if |holders| == 0 {
        assert forall c :: c in connections && id in c.available ==> c in holders;
        return None;
      }
      assert holders[pick % |holders|] in holders;
      return Some(holders[pick % |holders|]);
    }
  }

  /** The connections after one candidate was tried: it joins if it answers for the same file system. */
  function Tried(cs: seq<Connection>, url: Url, fsId: nat, later: int, ask: Url -> Option<Info>): seq<Connection> {
    if ask(url).Some? && ask(url).value.fsId == fsId
    then SortByCount(cs + [Joined(url, ask(url).value, later)])
    else cs
  }

  /** The connection to a peer that answers for this file system. */
  ghost predicate Answers(c: Connection, url: Url, fsId: nat, later: int, ask: Url -> Option<Info>) {
    && ask(url).Some? && ask(url).value.fsId == fsId
    && c.url == url && c.nid == ask(url).value.nodeId && c.available == Decoded(ask(url).value.available)
    && c.lastInfo == later && c.lastPex == 0
  }

  /** A connection to one of the first candidates. */
  ghost predicate Entrant(c: Connection, q: seq<Url>, n: nat, fsId: nat, later: int, ask: Url -> Option<Info>) {
    exists k :: 0 <= k < n && k < |q| && Answers(c, q[k], fsId, later, ask)
  }

  lemma EntrantNext(c: Connection, q: seq<Url>, n: nat, fsId: nat, later: int, ask: Url -> Option<Info>)
    requires n > 0 && |q| > 0
    ensures Entrant(c, q, n, fsId, later, ask) <==>
      Answers(c, q[0], fsId, later, ask) || Entrant(c, q[1..], n - 1, fsId, later, ask)
  {
    if Entrant(c, q, n, fsId, later, ask) && !Answers(c, q[0], fsId, later, ask) {
      var k :| 0 <= k < n && k < |q| && Answers(c, q[k], fsId, later, ask);
      assert q[1..][k - 1] == q[k];
    }
    if Entrant(c, q[1..], n - 1, fsId, later, ask) {
      var k :| 0 <= k < n - 1 && k < |q[1..]| && Answers(c, q[1..][k], fsId, later, ask);
      assert q[k + 1] == q[1..][k];
    }
  }

  lemma TriedMembers(cs: seq<Connection>, url: Url, fsId: nat, later: int, ask: Url -> Option<Info>)
    ensures var r := Tried(cs, url, fsId, later, ask);
      && (forall c :: c in r <==> c in cs || Answers(c, url, fsId, later, ask))
      && |r| == |cs| + if ask(url).Some? && ask(url).value.fsId == fsId then 1 else 0
  {
    if ask(url).Some? && ask(url).value.fsId == fsId {
      var c := Joined(url, ask(url).value, later);
      SortMembers(cs + [c]);
      SortKeeps(cs + [c]);
    }
  }

  /**
   The pool after an expansion that took the first `n` candidates: the old connections and those
   to the candidates taken that answer for the file system. It ends with five candidates taken,
   or none left, or no room; there was room for the last one.
   */
  ghost predicate AfterExpand(cs: seq<Connection>, q: seq<Url>, limit: nat, tries: nat, fsId: nat, later: int,
                              ask: Url -> Option<Info>, n: nat, after: seq<Connection>, queue: seq<Url>)
  {
    && n <= tries && n <= |q| && queue == q[n..]
    && (forall c :: c in after <==> c in cs || Entrant(c, q, n, fsId, later, ask))
    && |cs| <= |after| <= |cs| + n
    && (n == tries || n == |q| || |after| >= limit)
    && (n > 0 ==> |cs| < limit && |after| <= limit)
  }

  lemma {:induction false} ExpandedWho(cs: seq<Connection>, q: seq<Url>, limit: nat, tries: nat,
                                       fsId: nat, later: int, ask: Url -> Option<Info>)
    ensures var r := Expanded(cs, q, limit, tries, fsId, later, ask);
      |r.1| <= |q| && AfterExpand(cs, q, limit, tries, fsId, later, ask, |q| - |r.1|, r.0, r.1)
    decreases tries
  {
    if tries > 0 && |cs| < limit && |q| > 0 {
      var next := Tried(cs, q[0], fsId, later, ask);
      TriedMembers(cs, q[0], fsId, later, ask);
      ExpandedWho(next, q[1..], limit, tries - 1, fsId, later, ask);
      var r := Expanded(next, q[1..], limit, tries - 1, fsId, later, ask);
      var n := |q| - |r.1|;
      assert q[1..][n - 1..] == q[n..];
      forall c ensures c in r.0 <==> c in cs || Entrant(c, q, n, fsId, later, ask) {
        EntrantNext(c, q, n, fsId, later, ask);
      }
    } else {
      assert q[0..] == q;
    }
  }

  /** Connections and candidates after a number of tries. */
  function Expanded(cs: seq<Connection>, q: seq<Url>, limit: nat, tries: nat,
                    fsId: nat, later: int, ask: Url -> Option<Info>): (seq<Connection>, seq<Url>)
    decreases tries
  {
    if tries == 0 || |cs| >= limit || |q| == 0 then (cs, q)
    else Expanded(Tried(cs, q[0], fsId, later, ask), q[1..], limit, tries - 1, fsId, later, ask)
  }

  lemma ExpandedNext(cs: seq<Connection>, q: seq<Url>, limit: nat, tries: nat,
                     fsId: nat, later: int, ask: Url -> Option<Info>)
    requires tries > 0 && |cs| < limit && |q| > 0
    ensures Expanded(cs, q, limit, tries, fsId, later, ask) ==
            Expanded(Tried(cs, q[0], fsId, later, ask), q[1..], limit, tries - 1, fsId, later, ask)
  {
  }

  /** Whether a candidate would be connected by exploring. */
  predicate Worth(url: Url, fsId: nat, ask: Url -> Option<Info>, least: nat) {
    ask(url).Some? && ask(url).value.fsId == fsId && |Decoded(ask(url).value.available)| > least
  }

  /** The connections after one candidate was tried: one that is worth it replaces the first. */
  function Swapped(cs: seq<Connection>, url: Url, fsId: nat, later: int, ask: Url -> Option<Info>, least: nat)
    : seq<Connection>
  {
    if |cs| > 0 && Worth(url, fsId, ask, least)
    then SortByCount(cs[1..] + [Joined(url, ask(url).value, later)])
    else cs
  }

  /** The number of chunks of the poorest peer. */
  function Least(cs: seq<Connection>): nat {
    if |cs| > 0 then cs[0].Count() else 0
  }

  /** An exploration that finds a peer worth connecting and no connection to replace. */
  ghost predicate Astray(cs: seq<Connection>, q: seq<Url>, fsId: nat, ask: Url -> Option<Info>) {
    cs == [] && exists k :: 0 <= k < Min(10, |q|) && Worth(q[k], fsId, ask, 0)
  }

  function Explored(cs: seq<Connection>, q: seq<Url>, tries: nat,
                    fsId: nat, later: int, ask: Url -> Option<Info>, least: nat): seq<Connection>
    decreases tries
  {
    if tries == 0 || |q| == 0 then cs
    else Explored(Swapped(cs, q[0], fsId, later, ask, least), q[1..], tries - 1, fsId, later, ask, least)
  }

  lemma ExploredNext(cs: seq<Connection>, q: seq<Url>, tries: nat,
                     fsId: nat, later: int, ask: Url -> Option<Info>, least: nat)
    requires tries > 0 && |q| > 0
    ensures Explored(cs, q, tries, fsId, later, ask, least) ==
            Explored(Swapped(cs, q[0], fsId, later, ask, least), q[1..], tries - 1, fsId, later, ask, least)
  {
  }

  /** A candidate answers for the file system and has more than so many chunks. */
  ghost predicate Better(url: Url, fsId: nat, later: int, ask: Url -> Option<Info>, least: nat) {
    exists c :: Answers(c, url, fsId, later, ask) && c.Count() > least
  }

  lemma WorthBetter(url: Url, fsId: nat, later: int, ask: Url -> Option<Info>, least: nat)
    ensures Worth(url, fsId, ask, least) <==> Better(url, fsId, later, ask, least)
    ensures Worth(url, fsId, ask, least) ==> Answers(Joined(url, ask(url).value, later), url, fsId, later, ask)
  {
    if Worth(url, fsId, ask, least) {
      var c := Joined(url, ask(url).value, later);
      assert Answers(c, url, fsId, later, ask) && c.Count() > least;
    }
  }

  /** One candidate that is tried takes the place of the poorest peer exactly when it is better. */
  lemma SwapWho(cs: seq<Connection>, url: Url, fsId: nat, later: int, ask: Url -> Option<Info>, least: nat)
    ensures var r := Swapped(cs, url, fsId, later, ask, least);
      if |cs| > 0 && Better(url, fsId, later, ask, least)
      then |r| == |cs| && forall c :: c in r <==> c in cs[1..] || Answers(c, url, fsId, later, ask)
      else r == cs
    ensures forall c :: Answers(c, url, fsId, later, ask) && Better(url, fsId, later, ask, least) ==> c.Count() > least
  {
    WorthBetter(url, fsId, later, ask, least);
    if |cs| > 0 && Worth(url, fsId, ask, least) {
      var c := Joined(url, ask(url).value, later);
      SortMembers(cs[1..] + [c]);
      SortKeeps(cs[1..] + [c]);
    }
  }

  /** None of the first candidates is better. */
  ghost predicate NoneBetter(q: seq<Url>, from: nat, n: nat, fsId: nat, later: int, ask: Url -> Option<Info>,
                             least: nat)
  {
    forall k :: from <= k < n && k < |q| ==> !Better(q[k], fsId, later, ask, least)
  }

  /**
   The connections after an exploration of the first `n` candidates: each was there or is one
   to a candidate that is better; the last candidate that is better is connected, and without
   such a candidate nothing changes.
   */
  ghost predicate AfterExplore(cs: seq<Connection>, q: seq<Url>, n: nat, fsId: nat, later: int,
                               ask: Url -> Option<Info>, least: nat, after: seq<Connection>)
  {
    && |after| == |cs|
    && (forall c :: c in after ==> c in cs || (Entrant(c, q, n, fsId, later, ask) && c.Count() > least))
    && (NoneBetter(q, 0, n, fsId, later, ask, least) ==> after == cs)
    && (|cs| > 0 ==>
          forall k, c :: 0 <= k < n && k < |q| && Answers(c, q[k], fsId, later, ask) ==>
            c.Count() > least && NoneBetter(q, k + 1, n, fsId, later, ask, least) ==> c in after)
  }

  lemma NoneNext(q: seq<Url>, from: nat, n: nat, fsId: nat, later: int, ask: Url -> Option<Info>, least: nat)
    requires n > 0 && |q| > 0
    ensures from > 0 ==> (NoneBetter(q, from, n, fsId, later, ask, least) <==>
                          NoneBetter(q[1..], from - 1, n - 1, fsId, later, ask, least))
    ensures from == 0 ==> (NoneBetter(q, 0, n, fsId, later, ask, least) <==>
      !Better(q[0], fsId, later, ask, least) && NoneBetter(q[1..], 0, n - 1, fsId, later, ask, least))
  {
    if NoneBetter(q[1..], if from > 0 then from - 1 else 0, n - 1, fsId, later, ask, least) {
      forall k | 1 <= k < n && from <= k < |q| ensures !Better(q[k], fsId, later, ask, least) {
        assert q[1..][k - 1] == q[k];
      }
    }
  }

  lemma {:induction false} ExploredWho(cs: seq<Connection>, q: seq<Url>, tries: nat,
                                       fsId: nat, later: int, ask: Url -> Option<Info>, least: nat)
    ensures AfterExplore(cs, q, tries, fsId, later, ask, least,
                         Explored(cs, q, tries, fsId, later, ask, least))
    decreases tries
  {
    if tries > 0 && |q| > 0 {
      var next := Swapped(cs, q[0], fsId, later, ask, least);
      var after := Explored(next, q[1..], tries - 1, fsId, later, ask, least);
      SwapWho(cs, q[0], fsId, later, ask, least);
      SwapKeeps(cs, q[0], fsId, later, ask, least);
      ExploredWho(next, q[1..], tries - 1, fsId, later, ask, least);
      NoneNext(q, 0, tries, fsId, later, ask, least);
      forall c | c in after && c !in cs ensures Entrant(c, q, tries, fsId, later, ask) && c.Count() > least {
        EntrantNext(c, q, tries, fsId, later, ask);
      }
      forall k, c | && 0 <= k < tries && k < |q| && |cs| > 0 && Answers(c, q[k], fsId, later, ask)
                    && c.Count() > least && NoneBetter(q, k + 1, tries, fsId, later, ask, least)
        ensures c in after
      {
        NoneNext(q, k + 1, tries, fsId, later, ask, least);
        assert k > 0 ==> q[1..][k - 1] == q[k];
      }
    }
  }

  /** Replacing the first connection keeps the number of connections and a lower bound of their counts. */
  lemma SwapKeeps(cs: seq<Connection>, url: Url, fsId: nat, later: int, ask: Url -> Option<Info>, least: nat)
    ensures |Swapped(cs, url, fsId, later, ask, least)| == |cs|
    ensures AtLeast(cs, least) ==> AtLeast(Swapped(cs, url, fsId, later, ask, least), least)
  {
    if |cs| > 0 && Worth(url, fsId, ask, least) {
      SortKeeps(cs[1..] + [Joined(url, ask(url).value, later)]);
      SortAtLeast(cs[1..] + [Joined(url, ask(url).value, later)], least);
    }
  }

  ghost predicate AtLeast(cs: seq<Connection>, n: nat) {
    forall c :: c in cs ==> c.Count() >= n
  }

  lemma SortAtLeast(cs: seq<Connection>, n: nat)
    ensures AtLeast(cs, n) ==> AtLeast(SortByCount(cs), n)
  {
    SortKeeps(cs);
    forall c | c in SortByCount(cs) ensures c in cs {
      assert c in multiset(SortByCount(cs));
    }
  }

  /** There are as many active peers as connections. */
  lemma {:induction false} LinkedSize(cs: seq<Connection>, active: set<Url>)
    requires Linked(cs, active)
    ensures |active| == |cs|
  {
    assert OpenLinks(0);
    if |cs| > 0 {
      DropConnection(cs, active, 0);
      assert cs[..0] + cs[1..] == cs[1..];
      LinkedSize(cs[1..], active - {cs[0].url});
      assert Connected(cs, cs[0].url);
      assert active == (active - {cs[0].url}) + {cs[0].url};
    } else {
      assert forall u :: !Connected(cs, u);
      assert active == {};
    }
  }

  /** The index of the first connection to a node, or the number of connections. */
  function FirstOf(cs: seq<Connection>, nid: nat): (k: nat)
    ensures k <= |cs| && (k < |cs| ==> cs[k].nid == nid)
    ensures forall j :: 0 <= j < k ==> cs[j].nid != nid
  {
    if |cs| == 0 || cs[0].nid == nid then 0
    else
      assert forall j :: 1 <= j < 1 + FirstOf(cs[1..], nid) ==> cs[j] == cs[1..][j - 1];
      1 + FirstOf(cs[1..], nid)
  }

  /** The connections, where those to a node among the first `n` have the time of the last exchange. */
  function Stamped(cs: seq<Connection>, n: nat, nid: nat, later: int): seq<Connection> {
    seq(|cs|, i requires 0 <= i < |cs| =>
      if i < n && cs[i].nid == nid then cs[i].(lastPex := later) else cs[i])
  }

  /** The urls of the connections to other nodes. */
  function Others(cs: seq<Connection>, nid: nat): seq<Url> {
    if |cs| == 0 then []
    else
      var c := cs[|cs| - 1];
      Others(cs[..|cs| - 1], nid) + (if c.nid == nid then [] else [c.url])
  }

  lemma {:induction false} OthersMembers(cs: seq<Connection>, nid: nat)
    ensures forall u :: u in Others(cs, nid) <==> exists c :: c in cs && c.nid != nid && c.url == u
  {
    if |cs| > 0 {
      var rest, last := cs[..|cs| - 1], cs[|cs| - 1];
      OthersMembers(rest, nid);
      assert cs == rest + [last];
      forall u ensures u in Others(cs, nid) <==> exists c :: c in cs && c.nid != nid && c.url == u {
        if u in Others(rest, nid) {
          var c :| c in rest && c.nid != nid && c.url == u;
          assert c in cs;
        }
      }
    }
  }

  // ---------------------------------------------------------------- runs

  /** What happens to a pool: a step of its worker, or a request from another node. */
  datatype Action =
    | DoInfo(now: int, later: int, ask: Url -> Option<Info>)
    | DoPex(now: int, later: int, peers: Url -> Option<seq<Url>>)
    | DoExpand(later: int, ask: Url -> Option<Info>)
    | DoExplore(later: int, ask: Url -> Option<Info>)
    | OnInfoPeer(url: Url)
    | OnInfoNode(nid: nat, available: Bytes, later: int)
    | OnPex(urls: seq<Url>, nid: nat, later: int)

  /** What a pool holds. */
  datatype Peers = Peers(connections: seq<Connection>, queue: seq<Url>)

  function Urls(cs: seq<Connection>): set<Url> {
    set c | c in cs :: c.url
  }

  lemma LinkedUrls(cs: seq<Connection>, active: set<Url>)
    requires Linked(cs, active)
    ensures active == Urls(cs)
  {
    assert OpenLinks(0);
    forall u ensures u in active <==> u in Urls(cs) {
      if u in Urls(cs) {
        var c :| c in cs && c.url == u;
        var i :| 0 <= i < |cs| && cs[i] == c;
        assert cs[i].url == u;
      }
    }
  }

  /** The connections after a node told its chunks. */
  function Told(cs: seq<Connection>, nid: nat, available: Bytes, later: int): seq<Connection> {
    var k := FirstOf(cs, nid);
    if k < |cs| then SortByCount(cs[k := cs[k].(available := Decoded(available), lastInfo := later)]) else cs
  }

  /** What a pool with these bounds holds after an action; nothing when the action is not defined. */
  ghost function Acted(p: Peers, limit: nat, room: nat, fsId: nat, a: Action): Option<Peers> {
    var cs, q := p.connections, p.queue;
    match a
    case DoInfo(now, later, ask) => Some(Peers(SortByCount(Kept(cs, Refreshing(now, later, ask))), q))
    case DoPex(now, later, peers) =>
      Some(Peers(SortByCount(Kept(cs, Polling(now, later, peers))), PexAll(Urls(cs), q, room, cs, now, peers).1))
    case DoExpand(later, ask) =>
      var r := Expanded(cs, q, limit, 5, fsId, later, ask);
      Some(Peers(r.0, r.1))
    case DoExplore(later, ask) =>
      if Astray(cs, q, fsId, ask) then None
      else Some(Peers(Explored(cs, q, 10, fsId, later, ask, Least(cs)), q[Min(10, |q|)..]))
    case OnInfoPeer(url) => Some(Peers(cs, if url in Urls(cs) then q else Pushed(q, room, url)))
    case OnInfoNode(nid, available, later) => Some(Peers(Told(cs, nid, available, later), q))
    case OnPex(urls, nid, later) => Some(Peers(Stamped(cs, |cs|, nid, later), Suggested(q, room, Urls(cs), urls)))
  }

  /** What a pool holds after a run. */
  ghost function ActedAll(p: Peers, limit: nat, room: nat, fsId: nat, actions: seq<Action>): Option<Peers> {
    if |actions| == 0 then Some(p)
    else
      match ActedAll(p, limit, room, fsId, actions[..|actions| - 1])
      case None => None
      case Some(before) => Acted(before, limit, room, fsId, actions[|actions| - 1])
  }

  lemma {:induction false} UndefinedStays(p: Peers, limit: nat, room: nat, fsId: nat, actions: seq<Action>, k: nat)
    requires k <= |actions| && ActedAll(p, limit, room, fsId, actions[..k]) == None
    ensures ActedAll(p, limit, room, fsId, actions) == None
    decreases |actions|
  {
    if k == |actions| {
      assert actions[..k] == actions;
    } else {
      var before := actions[..|actions| - 1];
      assert before[..k] == actions[..k];
      UndefinedStays(p, limit, room, fsId, before, k);
    }
  }

  /** A pool holds these connections and candidates. */
  ghost predicate Holds(pool: ConnectionPool, p: Peers)
    reads pool, pool.candidates
  {
    pool.connections == p.connections && pool.candidates.queue == p.queue
  }

  /** One action. */
  method Act(pool: ConnectionPool, a: Action, ghost p: Peers) returns (defined: bool)
    requires pool.Valid() && Holds(pool, p)
    modifies pool, pool.candidates
    ensures pool.Valid()
    ensures match Acted(p, pool.limit, pool.candidates.maxSize, pool.fsId, a)
      case None => !defined
      case Some(after) => defined && Holds(pool, after)
  {
    LinkedUrls(pool.connections, pool.activePeers);
    defined := true;
    match a {
      case DoInfo(now, later, ask) => pool.GetInfo(now, later, ask);
      case DoPex(now, later, peers) => pool.GetPex(now, later, peers);
      case DoExpand(later, ask) => pool.Expand(later, ask);
      case DoExplore(later, ask) => defined := pool.Explore(later, ask);
      case OnInfoPeer(url) => pool.InfoFromPeer(url);
      case OnInfoNode(nid, available, later) => pool.InfoFromNode(nid, available, later);
      case OnPex(urls, nid, later) => var _ := pool.PexFrom(urls, nid, later);
    }
  }

  /** A connection of the same peer was there. */
  ghost predicate Stems(cs: seq<Connection>, c: Connection) {
    exists o :: o in cs && o.url == c.url && o.nid == c.nid
  }

  /** An action in which the peer answered for the file system as the node of this connection. */
  ghost predicate Admits(a: Action, fsId: nat, c: Connection) {
    match a
    case DoExpand(later, ask) => ask(c.url).Some? && ask(c.url).value.fsId == fsId && ask(c.url).value.nodeId == c.nid
    case DoExplore(later, ask) => ask(c.url).Some? && ask(c.url).value.fsId == fsId && ask(c.url).value.nodeId == c.nid
    case _ => false
  }

  /** A connection of the start, or to a peer that answered for the file system during the run. */
  ghost predicate Admitted(cs: seq<Connection>, fsId: nat, actions: seq<Action>, c: Connection) {
    Stems(cs, c) || exists k :: 0 <= k < |actions| && Admits(actions[k], fsId, c)
  }

  lemma SortedStems(cs: seq<Connection>, start: seq<Connection>, c: Connection)
    requires c in SortByCount(cs) && forall x :: x in cs ==> Stems(start, x)
    ensures Stems(start, c)
  {
    SortMembers(cs);
  }

  lemma ChangedStems(cs: seq<Connection>, k: nat, n: Connection)
    requires k < |cs| && n.url == cs[k].url && n.nid == cs[k].nid
    ensures forall x :: x in cs[k := n] ==> Stems(cs, x)
  {
    forall x | x in cs[k := n] ensures Stems(cs, x) {
      var i :| 0 <= i < |cs| && cs[k := n][i] == x;
      assert cs[i] in cs && cs[i].url == x.url && cs[i].nid == x.nid;
    }
  }

  lemma RefreshedStems(cs: seq<Connection>, now: int, later: int, ask: Url -> Option<Info>)
    ensures forall x :: x in Kept(cs, Refreshing(now, later, ask)) ==> Stems(cs, x)
  {
    KeptMembers(cs, Refreshing(now, later, ask));
    forall x | x in Kept(cs, Refreshing(now, later, ask)) ensures Stems(cs, x) {
      var o :| o in cs && Refreshing(now, later, ask)(o) == Some(x);
      assert Refreshed(o, now, later, ask(o.url)) == Some(x);
    }
  }

  lemma PolledStems(cs: seq<Connection>, now: int, later: int, ask: Url -> Option<seq<Url>>)
    ensures forall x :: x in Kept(cs, Polling(now, later, ask)) ==> Stems(cs, x)
  {
    KeptMembers(cs, Polling(now, later, ask));
    forall x | x in Kept(cs, Polling(now, later, ask)) ensures Stems(cs, x) {
      var o :| o in cs && Polling(now, later, ask)(o) == Some(x);
      assert Polled(o, now, later, ask(o.url)) == Some(x);
    }
  }

  lemma StampedStems(cs: seq<Connection>, n: nat, nid: nat, later: int)
    ensures forall x :: x in Stamped(cs, n, nid, later) ==> Stems(cs, x)
  {
    forall x | x in Stamped(cs, n, nid, later) ensures Stems(cs, x) {
      var i :| 0 <= i < |cs| && Stamped(cs, n, nid, later)[i] == x;
      assert cs[i] in cs && cs[i].url == x.url && cs[i].nid == x.nid;
    }
  }

  /** Whoever is connected after one action was so before, or was admitted by it. */
  lemma ActAdmits(p: Peers, limit: nat, room: nat, fsId: nat, a: Action, c: Connection)
    requires Acted(p, limit, room, fsId, a).Some? && c in Acted(p, limit, room, fsId, a).value.connections
    ensures Stems(p.connections, c) || Admits(a, fsId, c)
  {
    var cs, q := p.connections, p.queue;
    match a
    case DoInfo(now, later, ask) =>
      RefreshedStems(cs, now, later, ask);
      SortedStems(Kept(cs, Refreshing(now, later, ask)), cs, c);
    case DoPex(now, later, peers) =>
      PolledStems(cs, now, later, peers);
      SortedStems(Kept(cs, Polling(now, later, peers)), cs, c);
    case DoExpand(later, ask) => ExpandedWho(cs, q, limit, 5, fsId, later, ask);
    case DoExplore(later, ask) => ExploredWho(cs, q, 10, fsId, later, ask, Least(cs));
    case OnInfoPeer(url) =>
    case OnInfoNode(nid, available, later) =>
      var k := FirstOf(cs, nid);
      if k < |cs| {
        var n := cs[k].(available := Decoded(available), lastInfo := later);
        ChangedStems(cs, k, n);
        SortedStems(cs[k := n], cs, c);
      }
    case OnPex(urls, nid, later) => StampedStems(cs, |cs|, nid, later);
  }

  /** Over any run no peer of another file system joins. */
  lemma {:induction false} RunAdmits(p: Peers, limit: nat, room: nat, fsId: nat, actions: seq<Action>, c: Connection)
    requires ActedAll(p, limit, room, fsId, actions).Some?
    requires c in ActedAll(p, limit, room, fsId, actions).value.connections
    ensures Admitted(p.connections, fsId, actions, c)
  {
    if |actions| > 0 {
      var n := |actions| - 1;
      var before := ActedAll(p, limit, room, fsId, actions[..n]).value;
      ActAdmits(before, limit, room, fsId, actions[n], c);
      if Stems(before.connections, c) {
        var o :| o in before.connections && o.url == c.url && o.nid == c.nid;
        RunAdmits(p, limit, room, fsId, actions[..n], o);
        if !Stems(p.connections, c) {
          var k :| 0 <= k < n && Admits(actions[..n][k], fsId, o);
          assert Admits(actions[k], fsId, c);
        }
      }
    }
  }

  /**
   Over any run the pool stays consistent, sorted and within its limit, and holds what the
   actions lead to one after the other; whoever is connected was so at first or has answered
   for the pool's file system. The run is defined to its end exactly when no exploration goes
   astray.
   */
  method RunPool(pool: ConnectionPool, actions: seq<Action>) returns (defined: bool)
    requires pool.Valid()
    modifies pool, pool.candidates
    ensures pool.Valid()
    ensures match ActedAll(Peers(old(pool.connections), old(pool.candidates.queue)),
                           pool.limit, pool.candidates.maxSize, pool.fsId, actions)
      case None => !defined
      case Some(last) => defined && Holds(pool, last)
    ensures defined ==> forall c :: c in pool.connections ==> Admitted(old(pool.connections), pool.fsId, actions, c)
  {
    ghost var p := Peers(pool.connections, pool.candidates.queue);
    ghost var limit, room, fsId := pool.limit, pool.candidates.maxSize, pool.fsId;
    for k := 0 to |actions|
      invariant pool.Valid()
      invariant ActedAll(p, limit, room, fsId, actions[..k]).Some?
      invariant Holds(pool, ActedAll(p, limit, room, fsId, actions[..k]).value)
    {
      assert actions[..k + 1][..k] == actions[..k];
      defined := Act(pool, actions[k], ActedAll(p, limit, room, fsId, actions[..k]).value);
      if !defined {
        UndefinedStays(p, limit, room, fsId, actions, k + 1);
        return;
      }
    }
    assert actions[..|actions|] == actions;
    defined := true;
    forall c | c in pool.connections ensures Admitted(p.connections, fsId, actions, c) {
      RunAdmits(p, limit, room, fsId, actions, c);
    }
  }
}
