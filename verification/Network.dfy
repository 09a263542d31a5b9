/** A network of nodes that fetch chunks from each other and from anyone else who answers. */
module Network {
  import opened Prelude
  import opened Lru
  import opened Stores
  import opened Download

  /** A store all of whose chunks are what the catalogue lists under their ids. */
  ghost predicate Listed(disk: map<nat, Bytes>, catalogue: Catalogue) {
    forall id :: id in disk ==> |disk[id]| <= CHUNK_SIZE && catalogue.Lists(id, disk[id])
  }

  ghost predicate Separate(stores: seq<ChunkStore>) {
    forall i, j :: 0 <= i < j < |stores| ==> stores[i] != stores[j] && stores[i].collector != stores[j].collector
  }

  ghost function Footprint(stores: seq<ChunkStore>): set<object> {
    (set i | 0 <= i < |stores| :: stores[i] as object) + (set i | 0 <= i < |stores| :: stores[i].collector as object)
  }

  ghost predicate Honest(store: ChunkStore, catalogue: Catalogue)
    reads store, store.collector
  {
    store.Valid() && Listed(store.disk, catalogue)
  }

  ghost predicate AllHonest(stores: seq<ChunkStore>, catalogue: Catalogue)
    reads Footprint(stores)
  {
    forall i :: 0 <= i < |stores| ==> Honest(stores[i], catalogue)
  }

  /**
   What a node does: fetch a chunk from peers that may answer anything, fetch it from another
   node, serve it, or drop it.
   */
  datatype Action =
    | FetchAny(node: nat, id: nat, replies: seq<Reply>)
    | FetchNode(node: nat, server: nat, id: nat, patience: nat)
    | Serve(node: nat, id: nat, patience: nat)
    | Drop(node: nat, id: nat)

  ghost predicate Possible(a: Action, nodes: nat) {
    a.node < nodes && (a.FetchNode? ==> a.server < nodes && a.server != a.node)
  }

  // ---------------------------------------------------------------- what actions lead to

  /** What the store of a node holds: files, and the queue of its collector, which has a fixed size. */
  datatype Node = Node(disk: map<nat, Bytes>, queue: seq<nat>, size: nat)

  ghost predicate Sized(nodes: seq<Node>) {
    forall i :: 0 <= i < |nodes| ==> nodes[i].size > 0
  }

  /** A node after it stored a chunk. */
  function Stored(n: Node, id: nat, data: Bytes): Node
    requires n.size > 0
  {
    Node(Unlinked(n.disk, Victim(n.queue, n.size, id))[id := data], Updated(n.queue, n.size, id), n.size)
  }

  /** A node after a chunk was asked for. */
  function Asks(n: Node, id: nat): Node
    requires n.size > 0
  {
    n.(queue := Asked(n.queue, n.size, n.disk, id))
  }

  /** A node after it asked peers, none of which sent a fatal reply first. */
  function Fetched(n: Node, catalogue: Catalogue, id: nat, replies: seq<Reply>): Node
    requires n.size > 0
  {
    var k := Deciding(catalogue, id, replies);
    if k == |replies| then n else Stored(n, id, Concat(replies[k].parts))
  }

  /** The network after one node asked another one. */
  function Transferred(nodes: seq<Node>, n: nat, server: nat, id: nat, patience: nat): seq<Node>
    requires Sized(nodes) && n < |nodes| && server < |nodes|
  {
    var client := if Delivers(nodes[server].disk, id, patience) then Stored(nodes[n], id, nodes[server].disk[id])
                  else nodes[n];
    nodes[server := Asks(nodes[server], id)][n := client]
  }

  /** The network after an action; nothing when the action is not defined, because a fatal reply ends a fetch. */
  function Acted(nodes: seq<Node>, catalogue: Catalogue, a: Action): Option<seq<Node>>
    requires Sized(nodes) && Possible(a, |nodes|)
  {
    match a
    case FetchAny(n, id, replies) =>
      if Hurts(catalogue, id, replies) then None
      else Some(nodes[n := Fetched(nodes[n], catalogue, id, replies)])
    case FetchNode(n, server, id, patience) => Some(Transferred(nodes, n, server, id, patience))
    case Serve(n, id, _) => Some(nodes[n := Asks(nodes[n], id)])
    case Drop(n, id) => Some(nodes[n := nodes[n].(disk := nodes[n].disk - {id})])
  }

  ghost predicate AllPossible(actions: seq<Action>, nodes: nat) {
    forall k :: 0 <= k < |actions| ==> Possible(actions[k], nodes)
  }

  /** The network after a run. */
  function ActedAll(nodes: seq<Node>, catalogue: Catalogue, actions: seq<Action>): (r: Option<seq<Node>>)
    requires Sized(nodes) && AllPossible(actions, |nodes|)
    ensures r.Some? ==> |r.value| == |nodes| && Sized(r.value)
  {
    if |actions| == 0 then Some(nodes)
    else
      match ActedAll(nodes, catalogue, actions[..|actions| - 1])
      case None => None
      case Some(before) => Acted(before, catalogue, actions[|actions| - 1])
  }

  lemma {:induction false} UndefinedStays(nodes: seq<Node>, catalogue: Catalogue, actions: seq<Action>, k: nat)
    requires Sized(nodes) && AllPossible(actions, |nodes|) && k <= |actions|
    requires ActedAll(nodes, catalogue, actions[..k]) == None
    ensures ActedAll(nodes, catalogue, actions) == None
    decreases |actions|
  {
    if k == |actions| {
      assert actions[..k] == actions;
    } else {
      var before := actions[..|actions| - 1];
      assert before[..k] == actions[..k];
      UndefinedStays(nodes, catalogue, before, k);
    }
  }

  /** A store holds what a node says. */
  ghost predicate HoldsNode(store: ChunkStore, n: Node)
    reads store, store.collector
  {
    store.disk == n.disk && Ids(store.collector.queue) == n.queue && store.collector.size == n.size
  }

  ghost predicate HoldAll(stores: seq<ChunkStore>, nodes: seq<Node>)
    reads Footprint(stores)
  {
    |nodes| == |stores| && forall i :: 0 <= i < |stores| ==> HoldsNode(stores[i], nodes[i])
  }

  // ---------------------------------------------------------------- actions

  /** A fetch from arbitrary peers. */
  method Fetch(store: ChunkStore, catalogue: Catalogue, id: nat, replies: seq<Reply>, ghost n: Node)
    returns (defined: bool)
    requires Honest(store, catalogue) && HoldsNode(store, n)
    modifies store, store.collector
    ensures Honest(store, catalogue)
    ensures defined <==> !Hurts(catalogue, id, replies)
    ensures n.size > 0 && HoldsNode(store, if defined then Fetched(n, catalogue, id, replies) else n)
  {
    var err;
    defined, err := FetchChunk(store, catalogue, id, replies);
  }

  method FetchOther(store: ChunkStore, server: ChunkStore, catalogue: Catalogue, id: nat, patience: nat,
                    ghost n: Node, ghost m: Node)
    requires Honest(store, catalogue) && Honest(server, catalogue) && HoldsNode(store, n) && HoldsNode(server, m)
    requires store != server && store.collector != server.collector
    modifies store, store.collector, server.collector
    ensures Honest(store, catalogue) && Honest(server, catalogue)
    ensures n.size > 0 && m.size > 0 && HoldsNode(server, Asks(m, id))
    ensures HoldsNode(store, if Delivers(m.disk, id, patience) then Stored(n, id, m.disk[id]) else n)
  {
    var _ := FetchFrom(server, store, catalogue, id, patience);
  }

  method ServeChunk(store: ChunkStore, catalogue: Catalogue, id: nat, patience: nat, ghost n: Node)
    requires Honest(store, catalogue) && HoldsNode(store, n)
    modifies store.collector
    ensures Honest(store, catalogue) && n.size > 0 && HoldsNode(store, Asks(n, id))
  {
    var _, _ := GetChunk(store, id, patience);
  }

  method DropChunk(store: ChunkStore, catalogue: Catalogue, id: nat, ghost n: Node)
    requires Honest(store, catalogue) && HoldsNode(store, n)
    modifies store
    ensures Honest(store, catalogue) && HoldsNode(store, n.(disk := n.disk - {id}))
  {
    var _ := store.RemoveChunk(id);
  }

  /** Collectors have room for something. */
  lemma SizedNodes(stores: seq<ChunkStore>, catalogue: Catalogue, nodes: seq<Node>)
    requires AllHonest(stores, catalogue) && HoldAll(stores, nodes)
    ensures Sized(nodes)
  {
    forall i | 0 <= i < |nodes| ensures nodes[i].size > 0 {
      assert Honest(stores[i], catalogue) && HoldsNode(stores[i], nodes[i]);
    }
  }

  /** A node is honest, and one of the network. */
  lemma Within(stores: seq<ChunkStore>, catalogue: Catalogue, nodes: seq<Node>, n: nat)
    requires AllHonest(stores, catalogue) && HoldAll(stores, nodes) && n < |stores|
    ensures stores[n] in Footprint(stores) && stores[n].collector in Footprint(stores)
    ensures Honest(stores[n], catalogue) && HoldsNode(stores[n], nodes[n]) && Sized(nodes)
  {
    SizedNodes(stores, catalogue, nodes);
  }

  method StepAny(stores: seq<ChunkStore>, catalogue: Catalogue, n: nat, id: nat, replies: seq<Reply>,
                 ghost nodes: seq<Node>)
    returns (defined: bool)
    requires Separate(stores) && AllHonest(stores, catalogue) && HoldAll(stores, nodes) && n < |stores|
    modifies Footprint(stores)
    ensures AllHonest(stores, catalogue) && Sized(nodes)
    ensures defined <==> !Hurts(catalogue, id, replies)
    ensures defined ==> HoldAll(stores, nodes[n := Fetched(nodes[n], catalogue, id, replies)])
  {
    Within(stores, catalogue, nodes, n);
    defined := Fetch(stores[n], catalogue, id, replies, nodes[n]);
    forall i | 0 <= i < |stores| ensures Honest(stores[i], catalogue) && old(HoldsNode(stores[i], nodes[i])) {
      assert old(Honest(stores[i], catalogue));
    }
  }

  lemma Different(stores: seq<ChunkStore>, i: nat, j: nat)
    requires Separate(stores) && i < |stores| && j < |stores| && i != j
    ensures stores[i] != stores[j] && stores[i].collector != stores[j].collector
  {
  }

  method StepNode(stores: seq<ChunkStore>, catalogue: Catalogue, n: nat, server: nat, id: nat, patience: nat,
                  ghost nodes: seq<Node>)
    requires Separate(stores) && AllHonest(stores, catalogue) && HoldAll(stores, nodes)
    requires n < |stores| && server < |stores| && server != n
    modifies Footprint(stores)
    ensures AllHonest(stores, catalogue) && Sized(nodes)
    ensures HoldAll(stores, Transferred(nodes, n, server, id, patience))
  {
    Within(stores, catalogue, nodes, n);
    Within(stores, catalogue, nodes, server);
    Different(stores, n, server);
    FetchOther(stores[n], stores[server], catalogue, id, patience, nodes[n], nodes[server]);
    ghost var after := Transferred(nodes, n, server, id, patience);
    forall i | 0 <= i < |stores| ensures Honest(stores[i], catalogue) && HoldsNode(stores[i], after[i]) {
      if i != n && i != server {
        Different(stores, i, n);
        Different(stores, i, server);
        assert old(Honest(stores[i], catalogue)) && old(HoldsNode(stores[i], nodes[i]));
      }
    }
  }

  method StepServe(stores: seq<ChunkStore>, catalogue: Catalogue, n: nat, id: nat, patience: nat,
                   ghost nodes: seq<Node>)
    requires Separate(stores) && AllHonest(stores, catalogue) && HoldAll(stores, nodes) && n < |stores|
    modifies Footprint(stores)
    ensures AllHonest(stores, catalogue) && Sized(nodes)
    ensures HoldAll(stores, nodes[n := Asks(nodes[n], id)])
  {
    Within(stores, catalogue, nodes, n);
    ServeChunk(stores[n], catalogue, id, patience, nodes[n]);
    forall i | 0 <= i < |stores| ensures Honest(stores[i], catalogue) && old(HoldsNode(stores[i], nodes[i])) {
      assert old(Honest(stores[i], catalogue));
    }
  }

  method StepDrop(stores: seq<ChunkStore>, catalogue: Catalogue, n: nat, id: nat, ghost nodes: seq<Node>)
    requires Separate(stores) && AllHonest(stores, catalogue) && HoldAll(stores, nodes) && n < |stores|
    modifies Footprint(stores)
    ensures AllHonest(stores, catalogue) && Sized(nodes)
    ensures HoldAll(stores, nodes[n := nodes[n].(disk := nodes[n].disk - {id})])
  {
    Within(stores, catalogue, nodes, n);
    DropChunk(stores[n], catalogue, id, nodes[n]);
    forall i | 0 <= i < |stores| ensures Honest(stores[i], catalogue) && old(HoldsNode(stores[i], nodes[i])) {
      assert old(Honest(stores[i], catalogue));
    }
  }

  method Step(stores: seq<ChunkStore>, catalogue: Catalogue, a: Action, ghost nodes: seq<Node>) returns (defined: bool)
    requires Separate(stores) && AllHonest(stores, catalogue) && Possible(a, |stores|)
    requires HoldAll(stores, nodes)
    modifies Footprint(stores)
    ensures AllHonest(stores, catalogue) && Sized(nodes)
    ensures match Acted(nodes, catalogue, a)
      case None => !defined
      case Some(after) => defined && HoldAll(stores, after)
  {
    defined := true;
    match a {
      case FetchAny(n, id, replies) => defined := StepAny(stores, catalogue, n, id, replies, nodes);
      case FetchNode(n, server, id, patience) => StepNode(stores, catalogue, n, server, id, patience, nodes);
      case Serve(n, id, patience) => StepServe(stores, catalogue, n, id, patience, nodes);
      case Drop(n, id) => StepDrop(stores, catalogue, n, id, nodes);
    }
  }

  /** What two nodes hold under one id is the same. */
  ghost predicate Agreeing(stores: seq<ChunkStore>)
    reads Footprint(stores)
  {
    forall i, j, id :: 0 <= i < |stores| && 0 <= j < |stores| && id in stores[i].disk && id in stores[j].disk ==>
      stores[i].disk[id] == stores[j].disk[id]
  }

  lemma HonestAgree(stores: seq<ChunkStore>, catalogue: Catalogue)
    requires AllHonest(stores, catalogue) && catalogue.CollisionFree()
    ensures Agreeing(stores)
  {
    forall i, j, id | 0 <= i < |stores| && 0 <= j < |stores| && id in stores[i].disk && id in stores[j].disk
      ensures stores[i].disk[id] == stores[j].disk[id]
    {
      assert Honest(stores[i], catalogue) && Honest(stores[j], catalogue);
      assert catalogue.Lists(id, stores[i].disk[id]) && catalogue.Lists(id, stores[j].disk[id]);
    }
  }

  /**
   Over any run, the stores hold what the actions lead to one after the other. Every chunk
   that a node holds has the hash that is listed for it, and no two nodes hold different bytes
   for a chunk, whatever peers outside the network send. The run is defined to its end exactly
   when no fetch is ended by a fatal reply.
   */
  method Run(stores: seq<ChunkStore>, catalogue: Catalogue, actions: seq<Action>, ghost nodes: seq<Node>)
    returns (defined: bool)
    requires Separate(stores) && AllHonest(stores, catalogue) && catalogue.CollisionFree()
    requires AllPossible(actions, |stores|) && HoldAll(stores, nodes)
    modifies Footprint(stores)
    ensures AllHonest(stores, catalogue) && Agreeing(stores)
    ensures Sized(nodes)
    ensures match ActedAll(nodes, catalogue, actions)
      case None => !defined
      case Some(last) => defined && HoldAll(stores, last)
  {
    SizedNodes(stores, catalogue, nodes);
    defined := true;
    for k := 0 to |actions|
      invariant AllHonest(stores, catalogue) && defined
      invariant AllPossible(actions[..k], |nodes|) && ActedAll(nodes, catalogue, actions[..k]).Some?
      invariant HoldAll(stores, ActedAll(nodes, catalogue, actions[..k]).value)
    {
      assert actions[..k + 1][..k] == actions[..k];
      defined := Step(stores, catalogue, actions[k], ActedAll(nodes, catalogue, actions[..k]).value);
      if !defined {
        UndefinedStays(nodes, catalogue, actions, k + 1);
        break;
      }
    }
    assert actions[..|actions|] == actions;
    HonestAgree(stores, catalogue);
  }
}
