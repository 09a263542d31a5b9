/**
 The chunk cache under concurrent readers (data/chunk_provider.cc, common/lru_collector.cc):
 a step system in which each thread runs `read_chunk`, one access to shared state or one
 lock operation at a time.

 Three kinds of mutexes are used: one for the map of entries, one per entry, one for the
 collector. An entry is published while it is locked, and its data are read after it was
 unlocked.

 A load reads the store; if the chunk is not there it asks peers, writes the file of the
 chunk, and reads it back. Writing truncates the file first (data/chunk_store.cc:93-104), and
 the locks do not keep others from reading meanwhile: two loads of one chunk may overlap, when
 the entry of the first was evicted, or when one thread waited for an entry whose load failed.
 Entries in `clash` are being read while another thread writes the file; only such a read may
 yield anything but the chunk, and entries that got something else are in `garbled`.
 */
module ConcurrentCache {
  import opened Prelude
  import opened Lru

  datatype Request = Request(id: nat, off: nat, len: nat)

  /** A cache entry: no data yet, or the data of its chunk. */
  datatype Entry = Entry(id: nat, data: Bytes)

  /**
   Where a thread is, and with it which mutexes it holds. `q` is its request, `r` its entry,
   `got` the bytes it has copied already. States whose name starts with `Ask` wait for a
   mutex.
   */
  datatype Pc =
    | Idle
    | AskLookup(q: Request)
    | Lookup(q: Request)                   // holds the map
    | AskEntry(q: Request, r: nat)
    | Check(q: Request, r: nat)            // holds the entry
    | AskReplace(q: Request, r: nat)       // holds the entry
    | Replace(q: Request, r: nat)          // holds the entry and the map
    | Load(q: Request, r: nat)             // holds the entry, reads the store
    | Fetch(q: Request, r: nat)            // holds the entry, asks peers
    | Store(q: Request, r: nat)            // holds the entry, truncates and writes the file
    | Reload(q: Request, r: nat)           // holds the entry, reads the store again
    | Unlock(q: Request, r: nat)           // holds the entry
    | Copy(q: Request, r: nat)
    | AskWithdraw(q: Request, r: nat)      // holds the entry
    | Withdraw(q: Request, r: nat)         // holds the entry and the map
    | AskTouch(q: Request, r: nat, got: Option<Bytes>)
    | Touch(q: Request, r: nat, got: Option<Bytes>)                  // holds the collector
    | AskEvict(q: Request, r: nat, got: Option<Bytes>, victim: nat)  // holds the collector
    | Evict(q: Request, r: nat, got: Option<Bytes>, victim: nat)     // holds the collector and the map
    | Push(q: Request, r: nat, got: Option<Bytes>)                   // holds the collector
    | CopyHit(q: Request, r: nat)
    | Done(q: Request, r: nat, got: Option<Bytes>)

  /** A thread that gets its chunk. */
  predicate Loading(pc: Pc) {
    pc.Load? || pc.Fetch? || pc.Store? || pc.Reload?
  }

  predicate HoldsMap(pc: Pc) {
    pc.Lookup? || pc.Replace? || pc.Withdraw? || pc.Evict?
  }

  predicate HoldsCollector(pc: Pc) {
    pc.Touch? || pc.AskEvict? || pc.Evict? || pc.Push?
  }

  predicate HoldsEntry(pc: Pc, r: nat) {
    && (pc.Check? || pc.AskReplace? || pc.Replace? || Loading(pc) || pc.Unlock? || pc.AskWithdraw? || pc.Withdraw?)
    && pc.r == r
  }

  datatype State = State(
    entries: map<nat, nat>,
    heap: map<nat, Entry>,
    next: nat,
    pcs: seq<Pc>,
    queue: seq<nat>,
    stored: set<nat>,
    clash: set<nat>,
    garbled: set<nat>)

  /** The contents of all chunks, and the capacity of the cache. */
  datatype Config = Config(content: nat -> Bytes, size: nat) {
    ghost predicate Valid() {
      size > 0 && forall id {:trigger content(id)} :: |content(id)| > 0
    }

    ghost predicate Fits(q: Request) {
      q.off + q.len <= |content(q.id)|
    }

    function Slice(q: Request): Bytes
      requires q.off + q.len <= |content(q.id)|
    {
      content(q.id)[q.off..q.off + q.len]
    }
  }

  /** What happens in a step: a thread begins a read, goes on, fails to get its chunk, or reads something else. */
  datatype Event = Begin(q: Request) | Go | Fail | Garble(data: Bytes)

  // ---------------------------------------------------------------- steps

  ghost predicate MapFree(s: State) {
    forall u :: 0 <= u < |s.pcs| ==> !HoldsMap(s.pcs[u])
  }

  ghost predicate CollectorFree(s: State) {
    forall u :: 0 <= u < |s.pcs| ==> !HoldsCollector(s.pcs[u])
  }

  ghost predicate EntryFree(s: State, r: nat) {
    forall u :: 0 <= u < |s.pcs| ==> !HoldsEntry(s.pcs[u], r)
  }

  /** Only a read of a file that another thread writes meanwhile can yield anything but the chunk. */
  predicate MayGarble(s: State, r: nat, e: Event) {
    e.Garble? && r in s.clash && |e.data| > 0
  }

  ghost predicate Enabled(cfg: Config, s: State, t: nat, e: Event) {
    && t < |s.pcs|
    && match s.pcs[t] {
         case Idle => e.Begin? && cfg.Fits(e.q)
         case AskLookup(_) => e == Go && MapFree(s)
         case AskReplace(_, _) => e == Go && MapFree(s)
         case AskWithdraw(_, _) => e == Go && MapFree(s)
         case AskEvict(_, _, _, _) => e == Go && MapFree(s)
         case AskEntry(_, r) => e == Go && EntryFree(s, r)
         case AskTouch(_, _, _) => e == Go && CollectorFree(s)
         case Load(_, r) => e == Go || e == Fail || MayGarble(s, r, e)
         case Fetch(_, _) => e == Go || e == Fail
         case Reload(q, r) => (e == Go && q.id in s.stored) || e == Fail || MayGarble(s, r, e)
         case _ => e == Go
       }
  }

  /** The bytes that a thread copies out of its entry. */
  function Copied(s: State, q: Request, r: nat): Bytes {
    if r in s.heap && q.off <= |s.heap[r].data|
    then s.heap[r].data[q.off..q.off + Min(q.len, |s.heap[r].data| - q.off)]
    else []
  }

  predicate HasData(s: State, r: nat) {
    r in s.heap && |s.heap[r].data| > 0
  }

  /** The id goes to the front of a full queue, and the last one must leave. */
  predicate Evicts(cfg: Config, s: State, id: nat) {
    id !in s.queue && |s.queue| >= cfg.size && |s.queue| > 0
  }

  /** A thread that reads its file into its entry. */
  predicate Reads(s: State, pc: Pc, e: Event) {
    (pc.Load? && e != Fail && (e.Garble? || pc.q.id in s.stored)) || (pc.Reload? && e != Fail)
  }

  function AfterTouch(q: Request, r: nat, got: Option<Bytes>): Pc {
    if got.None? then CopyHit(q, r) else Done(q, r, got)
  }

  /** Where a thread goes. */
  function Next(cfg: Config, s: State, pc: Pc, e: Event): Pc {
    match pc
    case Idle => (match e case Begin(q) => AskLookup(q) case _ => Idle)
    case AskLookup(q) => Lookup(q)
    case Lookup(q) => if q.id in s.entries then AskEntry(q, s.entries[q.id]) else Load(q, s.next)
    case AskEntry(q, r) => Check(q, r)
    case Check(q, r) => if HasData(s, r) then AskTouch(q, r, None) else AskReplace(q, r)
    case AskReplace(q, r) => Replace(q, r)
    case Replace(q, r) => Load(q, s.next)
    case Load(q, r) =>
      if e == Fail then AskWithdraw(q, r) else if Reads(s, pc, e) then Unlock(q, r) else Fetch(q, r)
    case Fetch(q, r) => if e == Fail then AskWithdraw(q, r) else Store(q, r)
    case Store(q, r) => Reload(q, r)
    case Reload(q, r) => if e == Fail then AskWithdraw(q, r) else Unlock(q, r)
    case Unlock(q, r) => Copy(q, r)
    case Copy(q, r) => AskTouch(q, r, Some(Copied(s, q, r)))
    case AskWithdraw(q, r) => Withdraw(q, r)
    case Withdraw(q, r) => Done(q, r, None)
    case AskTouch(q, r, got) => Touch(q, r, got)
    case Touch(q, r, got) =>
      if Evicts(cfg, s, q.id) then AskEvict(q, r, got, s.queue[|s.queue| - 1]) else AfterTouch(q, r, got)
    case AskEvict(q, r, got, victim) => Evict(q, r, got, victim)
    case Evict(q, r, got, victim) => Push(q, r, got)
    case Push(q, r, got) => AfterTouch(q, r, got)
    case CopyHit(q, r) => Done(q, r, Some(Copied(s, q, r)))
    case Done(_, _, _) => Idle
  }

  /** A thread that puts a new entry under the id of its request. */
  predicate Publishes(s: State, pc: Pc) {
    pc.Replace? || (pc.Lookup? && pc.q.id !in s.entries)
  }

  function NextEntries(s: State, pc: Pc): map<nat, nat> {
    if Publishes(s, pc) then s.entries[pc.q.id := s.next]
    else if pc.Withdraw? then s.entries - {pc.q.id}
    else if pc.Evict? then s.entries - {pc.victim}
    else s.entries
  }

  function NextHeap(cfg: Config, s: State, pc: Pc, e: Event): map<nat, Entry> {
    if Publishes(s, pc) then s.heap[s.next := Entry(pc.q.id, [])]
    else if Reads(s, pc, e) then
      s.heap[pc.r := Entry(pc.q.id, if e.Garble? then e.data else cfg.content(pc.q.id))]
    else if pc.Withdraw? then s.heap[pc.r := Entry(pc.q.id, [])]
    else s.heap
  }

  function NextQueue(cfg: Config, s: State, pc: Pc): seq<nat> {
    if pc.Touch? then
      if pc.q.id in s.queue then [pc.q.id] + Without(s.queue, pc.q.id)
      else if Evicts(cfg, s, pc.q.id) then s.queue[..|s.queue| - 1]
      else [pc.q.id] + s.queue
    else if pc.Push? then [pc.q.id] + s.queue
    else s.queue
  }

  function NextStored(s: State, pc: Pc): set<nat> {
    if pc.Store? then s.stored + {pc.q.id} else s.stored
  }

  /** The entries into which the file of a chunk is being read. */
  function Readers(pcs: seq<Pc>, id: nat): set<nat> {
    set u | 0 <= u < |pcs| && (pcs[u].Load? || pcs[u].Reload?) && pcs[u].q.id == id :: pcs[u].r
  }

  /** Another thread writes the file of a chunk. */
  predicate OtherWrites(pcs: seq<Pc>, t: nat, id: nat) {
    exists u :: 0 <= u < |pcs| && u != t && pcs[u].Store? && pcs[u].q.id == id
  }

  /**
   A read that begins while another thread writes the file clashes, and so do the reads that go
   on when a write begins.
   */
  function NextClash(s: State, t: nat, after: Pc): set<nat> {
    if after.Load? || after.Reload? then
      s.clash - {after.r} + (if OtherWrites(s.pcs, t, after.q.id) then {after.r} else {})
    else if after.Store? then s.clash + Readers(s.pcs, after.q.id)
    else s.clash
  }

  function NextGarbled(s: State, pc: Pc, e: Event): set<nat> {
    if e.Garble? && (pc.Load? || pc.Reload?) then s.garbled + {pc.r} else s.garbled
  }

  /** The state after a step of thread `t`. */
  function Step(cfg: Config, s: State, t: nat, e: Event): State
    requires t < |s.pcs|
  {
    var pc := s.pcs[t];
    var after := Next(cfg, s, pc, e);
    State(NextEntries(s, pc), NextHeap(cfg, s, pc, e), if Publishes(s, pc) then s.next + 1 else s.next,
          s.pcs[t := after], NextQueue(cfg, s, pc), NextStored(s, pc), NextClash(s, t, after), NextGarbled(s, pc, e))
  }

  // ---------------------------------------------------------------- the invariant

  /** An entry of the right chunk; `full` tells whether its data must be there or must be missing. */
  ghost predicate Refers(cfg: Config, heap: map<nat, Entry>, garbled: set<nat>, q: Request, r: nat,
                         full: Option<bool>)
  {
    && cfg.Fits(q) && r in heap && heap[r].id == q.id
    && (full == Some(true) ==> heap[r].data != [] && (r in garbled || heap[r].data == cfg.content(q.id)))
    && (full == Some(false) ==> heap[r].data == [])
  }

  ghost predicate GotRight(cfg: Config, garbled: set<nat>, q: Request, r: nat, got: Option<Bytes>) {
    cfg.Fits(q) && (got.Some? ==> r in garbled || got.value == cfg.Slice(q))
  }

  /** Whether the entry of a thread must have its data, or must not have any. */
  function Full(pc: Pc): Option<bool> {
    if pc.AskEntry? || pc.Check? || pc.Done? then None
    else Some(!(pc.AskReplace? || pc.Replace? || Loading(pc) || pc.AskWithdraw? || pc.Withdraw?))
  }

  /** A thread that has bytes already, or may have. */
  predicate Copying(pc: Pc) {
    pc.AskTouch? || pc.Touch? || pc.AskEvict? || pc.Evict? || pc.Push? || pc.Done?
  }

  /** What a thread relies on. */
  ghost predicate ThreadOk(cfg: Config, heap: map<nat, Entry>, garbled: set<nat>, pc: Pc) {
    if pc.Idle? then true
    else if pc.AskLookup? || pc.Lookup? then cfg.Fits(pc.q)
    else
      && Refers(cfg, heap, garbled, pc.q, pc.r, Full(pc))
      && (Copying(pc) ==> GotRight(cfg, garbled, pc.q, pc.r, pc.got))
  }

  ghost predicate ThreadsOk(cfg: Config, s: State) {
    forall u :: 0 <= u < |s.pcs| ==> ThreadOk(cfg, s.heap, s.garbled, s.pcs[u])
  }

  /** No mutex is held twice. */
  ghost predicate Exclusive(s: State) {
    forall u, v :: 0 <= u < |s.pcs| && 0 <= v < |s.pcs| && u != v ==> Apart(s.pcs[u], s.pcs[v])
  }

  ghost predicate Apart(x: Pc, y: Pc) {
    && !(HoldsMap(x) && HoldsMap(y))
    && !(HoldsCollector(x) && HoldsCollector(y))
    && forall r :: HoldsEntry(x, r) ==> !HoldsEntry(y, r)
  }

  /** Entries hold nothing or their chunk, and are listed under their id. */
  ghost predicate HeapOk(cfg: Config, s: State) {
    && (forall r :: r in s.heap ==> r < s.next)
    && (forall r :: r in s.heap ==>
          s.heap[r].data == [] || r in s.garbled || s.heap[r].data == cfg.content(s.heap[r].id))
    && (forall id :: id in s.entries ==> s.entries[id] in s.heap && s.heap[s.entries[id]].id == id)
  }

  ghost predicate Inv(cfg: Config, s: State) {
    ThreadsOk(cfg, s) && Exclusive(s) && HeapOk(cfg, s)
  }

  ghost predicate Initial(s: State) {
    && s.entries == map[] && s.heap == map[] && s.queue == [] && s.clash == {} && s.garbled == {}
    && forall u :: 0 <= u < |s.pcs| ==> s.pcs[u] == Idle
  }

  // ---------------------------------------------------------------- steps keep the invariant

  /**
   What one thread may do to the entries: data appear only in an entry that it has locked, and
   never change after that.
   */
  ghost predicate HeapStep(a: map<nat, Entry>, b: map<nat, Entry>, pc: Pc) {
    forall r :: r in a ==>
      && r in b && b[r].id == a[r].id
      && (a[r].data != [] || !HoldsEntry(pc, r) ==> b[r].data == a[r].data)
  }

  /** What the invariant says of one thread. */
  ghost predicate Own(cfg: Config, s: State, t: nat) {
    t < |s.pcs| && ThreadOk(cfg, s.heap, s.garbled, s.pcs[t]) && HeapOk(cfg, s)
  }

  lemma StepHeap(cfg: Config, s: State, t: nat, e: Event)
    requires Own(cfg, s, t)
    ensures HeapStep(s.heap, NextHeap(cfg, s, s.pcs[t], e), s.pcs[t])
  {
  }

  lemma StepHeapOk(cfg: Config, s: State, t: nat, e: Event)
    requires Own(cfg, s, t) && Enabled(cfg, s, t, e)
    ensures HeapOk(cfg, Step(cfg, s, t, e))
  {
  }

  /** A step of one thread leaves what another one relies on. */
  lemma OtherOk(cfg: Config, a: map<nat, Entry>, b: map<nat, Entry>, garbled: set<nat>, more: set<nat>, x: Pc, y: Pc)
    requires HeapStep(a, b, x) && garbled <= more && Apart(x, y) && ThreadOk(cfg, a, garbled, y)
    ensures ThreadOk(cfg, b, more, y)
  {
  }

  lemma SelfRefers(cfg: Config, s: State, t: nat, e: Event)
    requires cfg.Valid() && Own(cfg, s, t) && Enabled(cfg, s, t, e)
    ensures var pc := s.pcs[t];
      var after := Next(cfg, s, pc, e);
      if after.Idle? then true
      else if after.AskLookup? || after.Lookup? then cfg.Fits(after.q)
      else Refers(cfg, NextHeap(cfg, s, pc, e), NextGarbled(s, pc, e), after.q, after.r, Full(after))
  {
  }

  lemma SelfGot(cfg: Config, s: State, t: nat, e: Event)
    requires Own(cfg, s, t) && Enabled(cfg, s, t, e)
    ensures var after := Next(cfg, s, s.pcs[t], e);
      Copying(after) ==> GotRight(cfg, NextGarbled(s, s.pcs[t], e), after.q, after.r, after.got)
  {
  }

  lemma SelfOk(cfg: Config, s: State, t: nat, e: Event)
    requires cfg.Valid() && Own(cfg, s, t) && Enabled(cfg, s, t, e)
    ensures ThreadOk(cfg, NextHeap(cfg, s, s.pcs[t], e), NextGarbled(s, s.pcs[t], e), Next(cfg, s, s.pcs[t], e))
  {
    SelfRefers(cfg, s, t, e);
    SelfGot(cfg, s, t, e);
  }

  lemma StepThreads(cfg: Config, s: State, t: nat, e: Event)
    requires cfg.Valid() && Inv(cfg, s) && Enabled(cfg, s, t, e)
    ensures ThreadsOk(cfg, Step(cfg, s, t, e))
  {
    var s' := Step(cfg, s, t, e);
    StepHeap(cfg, s, t, e);
    SelfOk(cfg, s, t, e);
    forall u | 0 <= u < |s'.pcs| ensures ThreadOk(cfg, s'.heap, s'.garbled, s'.pcs[u]) {
      if u != t {
        OtherOk(cfg, s.heap, s'.heap, s.garbled, s'.garbled, s.pcs[t], s.pcs[u]);
      }
    }
  }

  /** A mutex that a thread takes was free. */
  lemma TakesMutex(cfg: Config, s: State, t: nat, e: Event, u: nat)
    requires u < |s.pcs| && Enabled(cfg, s, t, e) && Apart(s.pcs[t], s.pcs[u])
    ensures var after := Next(cfg, s, s.pcs[t], e);
      && !(HoldsMap(after) && HoldsMap(s.pcs[u]))
      && !(HoldsCollector(after) && HoldsCollector(s.pcs[u]))
  {
  }

  /** An entry that a thread locks was free, or it is new. */
  lemma TakesEntry(cfg: Config, s: State, t: nat, e: Event, u: nat, r: nat)
    requires u < |s.pcs| && Own(cfg, s, u) && Enabled(cfg, s, t, e) && Apart(s.pcs[t], s.pcs[u])
    ensures HoldsEntry(Next(cfg, s, s.pcs[t], e), r) ==> !HoldsEntry(s.pcs[u], r)
  {
  }

  lemma Takes(cfg: Config, s: State, t: nat, e: Event, u: nat)
    requires u < |s.pcs| && Own(cfg, s, u) && Enabled(cfg, s, t, e) && Apart(s.pcs[t], s.pcs[u])
    ensures Apart(Next(cfg, s, s.pcs[t], e), s.pcs[u])
  {
    TakesMutex(cfg, s, t, e, u);
    forall r | HoldsEntry(Next(cfg, s, s.pcs[t], e), r) ensures !HoldsEntry(s.pcs[u], r) {
      TakesEntry(cfg, s, t, e, u, r);
    }
  }

  lemma ApartBoth(x: Pc, y: Pc)
    requires Apart(x, y)
    ensures Apart(y, x)
  {
  }

  lemma StepExclusive(cfg: Config, s: State, t: nat, e: Event)
    requires Inv(cfg, s) && Enabled(cfg, s, t, e)
    ensures Exclusive(Step(cfg, s, t, e))
  {
    var s' := Step(cfg, s, t, e);
    forall u, v | 0 <= u < |s'.pcs| && 0 <= v < |s'.pcs| && u != v ensures Apart(s'.pcs[u], s'.pcs[v]) {
      if u == t {
        Takes(cfg, s, t, e, v);
      } else if v == t {
        Takes(cfg, s, t, e, u);
        ApartBoth(s'.pcs[t], s.pcs[u]);
      }
    }
  }

  /** Every step keeps the invariant. */
  lemma StepInv(cfg: Config, s: State, t: nat, e: Event)
    requires cfg.Valid() && Inv(cfg, s) && Enabled(cfg, s, t, e)
    ensures Inv(cfg, Step(cfg, s, t, e))
  {
    StepThreads(cfg, s, t, e);
    StepExclusive(cfg, s, t, e);
    StepHeapOk(cfg, s, t, e);
  }

  // ---------------------------------------------------------------- the queue and the size of the cache

  /** Between the removal of the last id and the arrival of the new one. */
  predicate Evicting(pc: Pc) {
    pc.AskEvict? || pc.Evict? || pc.Push?
  }

  /** The queue is distinct and small, and has room for what an eviction makes room for. */
  ghost predicate QueueFits(cfg: Config, queue: seq<nat>, pc: Pc) {
    Evicting(pc) ==> |queue| < cfg.size && pc.q.id !in queue
  }

  ghost predicate QueueOk(cfg: Config, s: State) {
    && Distinct(s.queue) && |s.queue| <= cfg.size
    && forall u :: 0 <= u < |s.pcs| ==> QueueFits(cfg, s.queue, s.pcs[u])
  }

  lemma QueueKept(cfg: Config, s: State, pc: Pc)
    requires cfg.Valid() && Distinct(s.queue) && |s.queue| <= cfg.size && QueueFits(cfg, s.queue, pc)
    ensures Distinct(NextQueue(cfg, s, pc)) && |NextQueue(cfg, s, pc)| <= cfg.size
  {
    if pc.Touch? || pc.Push? {
      WithoutMembers(s.queue, pc.q.id);
      DistinctCons(pc.q.id, Without(s.queue, pc.q.id));
      DistinctCons(pc.q.id, s.queue);
    }
  }

  lemma RoomKept(cfg: Config, s: State, pc: Pc, e: Event)
    requires Distinct(s.queue) && |s.queue| <= cfg.size && QueueFits(cfg, s.queue, pc)
    ensures QueueFits(cfg, NextQueue(cfg, s, pc), Next(cfg, s, pc, e))
    ensures !HoldsCollector(pc) ==> NextQueue(cfg, s, pc) == s.queue
  {
  }

  /** The queue changes only in the hands of the thread that holds the collector. */
  lemma StepQueue(cfg: Config, s: State, t: nat, e: Event)
    requires cfg.Valid() && Exclusive(s) && QueueOk(cfg, s) && Enabled(cfg, s, t, e)
    ensures QueueOk(cfg, Step(cfg, s, t, e))
  {
    var s' := Step(cfg, s, t, e);
    assert QueueFits(cfg, s.queue, s.pcs[t]);
    QueueKept(cfg, s, s.pcs[t]);
    RoomKept(cfg, s, s.pcs[t], e);
    forall u | 0 <= u < |s'.pcs| ensures QueueFits(cfg, s'.queue, s'.pcs[u]) {
      if u != t {
        assert Apart(s.pcs[t], s.pcs[u]) && QueueFits(cfg, s.queue, s.pcs[u]);
      }
    }
  }

  /** A thread that has published an entry, or found one with data, and has not yet put its id into the queue. */
  predicate Transfers(pc: Pc) {
    || Loading(pc) || pc.Unlock? || pc.Copy? || pc.AskWithdraw? || pc.Withdraw?
    || pc.AskTouch? || pc.Touch? || pc.AskEvict? || pc.Evict? || pc.Push?
  }

  /** A thread accounts for the id of its request and for the id that it evicts. */
  predicate Covers(pc: Pc, id: nat) {
    (Transfers(pc) && pc.q.id == id) || ((pc.AskEvict? || pc.Evict?) && pc.victim == id)
  }

  ghost predicate Accounted(s: State) {
    forall id :: id in s.entries ==> id in s.queue || exists u :: 0 <= u < |s.pcs| && Covers(s.pcs[u], id)
  }

  /** A new entry is accounted for by the thread that publishes it. */
  lemma AccountNew(cfg: Config, s: State, pc: Pc, e: Event, id: nat)
    ensures id in NextEntries(s, pc) && id !in s.entries ==> Covers(Next(cfg, s, pc, e), id)
  {
  }

  /** What a thread accounted for it goes on accounting for, or the queue does, or the entry is gone. */
  lemma AccountMine(cfg: Config, s: State, pc: Pc, e: Event, id: nat)
    requires id in NextEntries(s, pc) && Covers(pc, id)
    ensures Covers(Next(cfg, s, pc, e), id) || id in NextQueue(cfg, s, pc)
  {
  }

  /** What leaves the queue is accounted for by the thread that evicts it. */
  lemma AccountQueue(cfg: Config, s: State, pc: Pc, e: Event, id: nat)
    requires Distinct(s.queue) && id in s.queue
    ensures id in NextQueue(cfg, s, pc) || Covers(Next(cfg, s, pc, e), id)
  {
    if pc.Touch? {
      WithoutMembers(s.queue, pc.q.id);
    }
  }

  lemma StepAccounted(cfg: Config, s: State, t: nat, e: Event)
    requires QueueOk(cfg, s) && Accounted(s) && t < |s.pcs|
    ensures Accounted(Step(cfg, s, t, e))
  {
    var s' := Step(cfg, s, t, e);
    forall id | id in s'.entries
      ensures id in s'.queue || exists u :: 0 <= u < |s'.pcs| && Covers(s'.pcs[u], id)
    {
      var pc := s.pcs[t];
      AccountNew(cfg, s, pc, e, id);
      if id in s.queue {
        AccountQueue(cfg, s, pc, e, id);
        assert id in s'.queue || Covers(s'.pcs[t], id);
      } else if id in s.entries {
        var u :| 0 <= u < |s.pcs| && Covers(s.pcs[u], id);
        if u == t {
          AccountMine(cfg, s, pc, e, id);
        }
        assert id in s'.queue || Covers(s'.pcs[u], id);
      } else {
        assert Covers(s'.pcs[t], id);
      }
    }
  }

  /** The ids of the requests in flight. */
  function InFlight(pcs: seq<Pc>): seq<nat> {
    if |pcs| == 0 then []
    else InFlight(pcs[..|pcs| - 1]) + (if Transfers(pcs[|pcs| - 1]) then [pcs[|pcs| - 1].q.id] else [])
  }

  lemma {:induction false} FlightHas(pcs: seq<Pc>, u: nat)
    requires u < |pcs| && Transfers(pcs[u])
    ensures pcs[u].q.id in InFlight(pcs)
    decreases |pcs|
  {
    if u < |pcs| - 1 {
      FlightHas(pcs[..|pcs| - 1], u);
    }
  }

  /** The cache holds at most as many entries as it has room for, and one for each request in flight. */
  lemma CacheBound(cfg: Config, s: State)
    requires Exclusive(s) && QueueOk(cfg, s) && Accounted(s)
    ensures |s.entries.Keys| <= cfg.size + |InFlight(s.pcs)|
  {
    var victims: seq<nat> := [];
    if u :| 0 <= u < |s.pcs| && (s.pcs[u].AskEvict? || s.pcs[u].Evict?) {
      victims := [s.pcs[u].victim];
      assert QueueFits(cfg, s.queue, s.pcs[u]);
    }
    var all := s.queue + victims + InFlight(s.pcs);
    forall id | id in s.entries.Keys ensures id in all {
      if id !in s.queue {
        var u :| 0 <= u < |s.pcs| && Covers(s.pcs[u], id);
        if Transfers(s.pcs[u]) && s.pcs[u].q.id == id {
          FlightHas(s.pcs, u);
        } else {
          OneVictim(s, victims, u);
        }
      }
    }
    SetWithin(s.entries.Keys, all);
  }

  /** Only one thread evicts at a time. */
  lemma OneVictim(s: State, victims: seq<nat>, u: nat)
    requires Exclusive(s) && u < |s.pcs| && (s.pcs[u].AskEvict? || s.pcs[u].Evict?)
    requires exists v :: 0 <= v < |s.pcs| && (s.pcs[v].AskEvict? || s.pcs[v].Evict?) && victims == [s.pcs[v].victim]
    ensures s.pcs[u].victim in victims
  {
    var v :| 0 <= v < |s.pcs| && (s.pcs[v].AskEvict? || s.pcs[v].Evict?) && victims == [s.pcs[v].victim];
    assert u != v ==> Apart(s.pcs[u], s.pcs[v]);
  }

  /** An update of the collector, or its first half, after which the id goes to the front. */
  lemma TouchUpdates(cfg: Config, s: State, pc: Pc)
    requires cfg.Valid() && pc.Touch? && |s.queue| <= cfg.size
    ensures var id := pc.q.id;
      if Evicts(cfg, s, id) then
        && [id] + NextQueue(cfg, s, pc) == Updated(s.queue, cfg.size, id)
        && Next(cfg, s, pc, Go) == AskEvict(pc.q, pc.r, pc.got, Victim(s.queue, cfg.size, id).value)
      else NextQueue(cfg, s, pc) == Updated(s.queue, cfg.size, id)
  {
  }

  /** The collector has had these updates; the last one may be under way. */
  ghost predicate Recent(cfg: Config, s: State, history: seq<nat>)
    requires cfg.size > 0
  {
    && (forall u :: 0 <= u < |s.pcs| && Evicting(s.pcs[u]) ==>
          [s.pcs[u].q.id] + s.queue == Lru.After(cfg.size, history))
    && ((forall u :: 0 <= u < |s.pcs| ==> !Evicting(s.pcs[u])) ==> s.queue == Lru.After(cfg.size, history))
  }

  function Touches(pc: Pc): seq<nat> {
    if pc.Touch? then [pc.q.id] else []
  }

  /** Only the thread that holds the collector evicts. */
  lemma EvictsAlone(s: State, t: nat)
    requires Exclusive(s) && t < |s.pcs| && HoldsCollector(s.pcs[t])
    ensures forall u :: 0 <= u < |s.pcs| && u != t ==> !Evicting(s.pcs[u])
  {
    forall u | 0 <= u < |s.pcs| && u != t ensures !Evicting(s.pcs[u]) {
      assert Apart(s.pcs[t], s.pcs[u]);
    }
  }

  lemma HistoryMore(size: nat, history: seq<nat>, id: nat)
    requires size > 0
    ensures Lru.After(size, history + [id]) == Updated(Lru.After(size, history), size, id)
  {
    assert (history + [id])[..|history|] == history;
  }

  lemma StepRecent(cfg: Config, s: State, t: nat, e: Event, history: seq<nat>)
    requires cfg.Valid() && Exclusive(s) && QueueOk(cfg, s) && Enabled(cfg, s, t, e) && Recent(cfg, s, history)
    ensures Recent(cfg, Step(cfg, s, t, e), history + Touches(s.pcs[t]))
  {
    var pc := s.pcs[t];
    var s' := Step(cfg, s, t, e);
    if HoldsCollector(pc) {
      EvictsAlone(s, t);
      CollectorStep(cfg, s, t, e, history);
    } else {
      assert history + [] == history && s'.queue == s.queue && !Evicting(s'.pcs[t]);
      forall u | 0 <= u < |s.pcs| ensures Evicting(s'.pcs[u]) <==> Evicting(s.pcs[u]) {
      }
    }
  }

  lemma CollectorStep(cfg: Config, s: State, t: nat, e: Event, history: seq<nat>)
    requires cfg.Valid() && QueueOk(cfg, s) && Enabled(cfg, s, t, e) && Recent(cfg, s, history)
    requires HoldsCollector(s.pcs[t]) && forall u :: 0 <= u < |s.pcs| && u != t ==> !Evicting(s.pcs[u])
    ensures Recent(cfg, Step(cfg, s, t, e), history + Touches(s.pcs[t]))
  {
    var pc := s.pcs[t];
    var s' := Step(cfg, s, t, e);
    assert s'.pcs[t] == Next(cfg, s, pc, e);
    if pc.Touch? {
      TouchUpdates(cfg, s, pc);
      HistoryMore(cfg.size, history, pc.q.id);
    } else {
      assert history + [] == history;
    }
  }

  // ---------------------------------------------------------------- runs

  ghost predicate Safe(cfg: Config, s: State) {
    Inv(cfg, s) && QueueOk(cfg, s) && Accounted(s)
  }

  lemma StepSafe(cfg: Config, s: State, t: nat, e: Event)
    requires cfg.Valid() && Safe(cfg, s) && Enabled(cfg, s, t, e)
    ensures Safe(cfg, Step(cfg, s, t, e))
  {
    StepInv(cfg, s, t, e);
    StepQueue(cfg, s, t, e);
    StepAccounted(cfg, s, t, e);
  }

  /** A thread steps, or a chunk leaves the store. */
  datatype Move = Act(t: nat, e: Event) | Drop(id: nat)

  ghost predicate Can(cfg: Config, s: State, m: Move) {
    m.Act? ==> Enabled(cfg, s, m.t, m.e)
  }

  ghost function After(cfg: Config, s: State, m: Move): State
    requires Can(cfg, s, m)
  {
    match m
    case Act(t, e) => Step(cfg, s, t, e)
    case Drop(id) => s.(stored := s.stored - {id})
  }

  lemma AfterSafe(cfg: Config, s: State, m: Move)
    requires cfg.Valid() && Safe(cfg, s) && Can(cfg, s, m)
    ensures Safe(cfg, After(cfg, s, m))
  {
    if m.Act? {
      StepSafe(cfg, s, m.t, m.e);
    }
  }

  ghost predicate Possible(cfg: Config, s: State, run: seq<Move>)
    decreases |run|
  {
    |run| > 0 ==> Can(cfg, s, run[0]) && Possible(cfg, After(cfg, s, run[0]), run[1..])
  }

  ghost function Run(cfg: Config, s: State, run: seq<Move>): State
    requires Possible(cfg, s, run)
    decreases |run|
  {
    if |run| == 0 then s else Run(cfg, After(cfg, s, run[0]), run[1..])
  }

  lemma {:induction false} RunSafe(cfg: Config, s: State, run: seq<Move>)
    requires cfg.Valid() && Safe(cfg, s) && Possible(cfg, s, run)
    ensures Safe(cfg, Run(cfg, s, run))
    decreases |run|
  {
    if |run| > 0 {
      AfterSafe(cfg, s, run[0]);
      RunSafe(cfg, After(cfg, s, run[0]), run[1..]);
    }
  }

  lemma {:induction false} RunOn(cfg: Config, s: State, run: seq<Move>, m: Move)
    requires Possible(cfg, s, run) && Can(cfg, Run(cfg, s, run), m)
    ensures Possible(cfg, s, run + [m]) && Run(cfg, s, run + [m]) == After(cfg, Run(cfg, s, run), m)
    decreases |run|
  {
    var more := run + [m];
    if |run| == 0 {
      assert more == [m] && more[1..] == [];
    } else {
      assert more[1..] == run[1..] + [m];
      RunOn(cfg, After(cfg, s, run[0]), run[1..], m);
    }
  }

  /** A run without its last move. */
  lemma {:induction false} RunLast(cfg: Config, s: State, run: seq<Move>)
    requires Possible(cfg, s, run) && |run| > 0
    ensures var before, m := run[..|run| - 1], run[|run| - 1];
      && Possible(cfg, s, before) && Can(cfg, Run(cfg, s, before), m)
      && Run(cfg, s, run) == After(cfg, Run(cfg, s, before), m)
    decreases |run|
  {
    if |run| > 1 {
      RunLast(cfg, After(cfg, s, run[0]), run[1..]);
      assert run[..|run| - 1][1..] == run[1..][..|run| - 2];
    } else {
      assert run[..0] == [] && run[1..] == [];
    }
  }

  // ---------------------------------------------------------------- what becomes of a read

  ghost predicate BeginsRead(m: Move, t: nat) {
    m.Act? && m.t == t && m.e.Begin?
  }

  /** The last read that a thread began is this one. */
  ghost predicate Began(run: seq<Move>, t: nat, q: Request) {
    exists j :: 0 <= j < |run| && run[j] == Act(t, Begin(q)) && forall k :: j < k < |run| ==> !BeginsRead(run[k], t)
  }

  /** A load of the thread itself failed since it began its last read. */
  ghost predicate FailedSince(run: seq<Move>, t: nat) {
    exists j :: 0 <= j < |run| && run[j] == Act(t, Fail) && forall k :: j < k < |run| ==> !BeginsRead(run[k], t)
  }

  lemma BeganMore(run: seq<Move>, m: Move, t: nat, q: Request)
    requires !BeginsRead(m, t) && Began(run, t, q)
    ensures Began(run + [m], t, q)
  {
    var j :| 0 <= j < |run| && run[j] == Act(t, Begin(q)) && forall k :: j < k < |run| ==> !BeginsRead(run[k], t);
    assert (run + [m])[j] == Act(t, Begin(q));
  }

  lemma BeganNow(run: seq<Move>, t: nat, q: Request)
    ensures Began(run + [Act(t, Begin(q))], t, q)
    ensures !FailedSince(run + [Act(t, Begin(q))], t)
  {
    var more := run + [Act(t, Begin(q))];
    assert more[|run|] == Act(t, Begin(q)) && BeginsRead(more[|run|], t);
  }

  lemma FailedMore(run: seq<Move>, m: Move, t: nat)
    requires !BeginsRead(m, t)
    ensures FailedSince(run + [m], t) <==> FailedSince(run, t) || m == Act(t, Fail)
  {
    var more := run + [m];
    assert more[|run|] == m;
    if FailedSince(run, t) {
      var j :| 0 <= j < |run| && run[j] == Act(t, Fail) && forall k :: j < k < |run| ==> !BeginsRead(run[k], t);
      assert more[j] == Act(t, Fail);
    }
    if FailedSince(more, t) {
      var j :| 0 <= j < |more| && more[j] == Act(t, Fail) && forall k :: j < k < |more| ==> !BeginsRead(more[k], t);
      if j < |run| {
        assert run[j] == Act(t, Fail);
        forall k | j < k < |run| ensures !BeginsRead(run[k], t) {
          assert more[k] == run[k];
        }
      }
    }
  }

  /** A thread whose load failed and that has not begun another read. */
  predicate Failing(pc: Pc) {
    pc.AskWithdraw? || pc.Withdraw? || (pc.Done? && pc.got.None?)
  }

  /** Where a thread is tells which read it began last, and whether a load of its own failed since. */
  ghost predicate Remembers(run: seq<Move>, t: nat, pc: Pc) {
    !pc.Idle? ==> Began(run, t, pc.q) && (Failing(pc) <==> FailedSince(run, t))
  }

  lemma MoveRemembers(cfg: Config, s: State, run: seq<Move>, m: Move, t: nat)
    requires t < |s.pcs| && Can(cfg, s, m) && Remembers(run, t, s.pcs[t])
    ensures t < |After(cfg, s, m).pcs| && Remembers(run + [m], t, After(cfg, s, m).pcs[t])
  {
    var after := After(cfg, s, m).pcs[t];
    if BeginsRead(m, t) {
      BeganNow(run, t, m.e.q);
    } else if !after.Idle? {
      BeganMore(run, m, t, s.pcs[t].q);
      FailedMore(run, m, t);
    }
  }

  lemma {:induction false} RunRemembers(cfg: Config, s: State, run: seq<Move>, t: nat)
    requires Possible(cfg, s, run) && Initial(s) && t < |s.pcs|
    ensures t < |Run(cfg, s, run).pcs| && Remembers(run, t, Run(cfg, s, run).pcs[t])
    decreases |run|
  {
    if |run| > 0 {
      var before := run[..|run| - 1];
      RunLast(cfg, s, run);
      RunRemembers(cfg, s, before, t);
      MoveRemembers(cfg, Run(cfg, s, before), before, run[|run| - 1], t);
      assert before + [run[|run| - 1]] == run;
    }
  }

  lemma {:induction false} RunThreads(cfg: Config, s: State, run: seq<Move>)
    requires Possible(cfg, s, run)
    ensures |Run(cfg, s, run).pcs| == |s.pcs|
    decreases |run|
  {
    if |run| > 0 {
      RunThreads(cfg, After(cfg, s, run[0]), run[1..]);
    }
  }

  /**
   The end of a read: it is the one that the thread began last, and it has failed exactly if
   a load of the thread itself failed meanwhile.
   */
  ghost predicate Ended(run: seq<Move>, t: nat, pc: Pc) {
    pc.Done? ==> Began(run, t, pc.q) && (pc.got.None? <==> FailedSince(run, t))
  }

  lemma EveryReadEnds(cfg: Config, s: State, run: seq<Move>)
    requires Possible(cfg, s, run) && Initial(s)
    ensures forall t :: 0 <= t < |Run(cfg, s, run).pcs| ==> Ended(run, t, Run(cfg, s, run).pcs[t])
  {
    RunThreads(cfg, s, run);
    forall t | 0 <= t < |s.pcs| ensures Ended(run, t, Run(cfg, s, run).pcs[t]) {
      RunRemembers(cfg, s, run, t);
    }
  }

  /** How many steps of its own a read still has at most. */
  function Left(pc: Pc): nat {
    match pc
    case Idle => 0
    case Done(_, _, _) => 0
    case CopyHit(_, _) => 1
    case Push(_, _, _) => 2
    case Evict(_, _, _, _) => 3
    case AskEvict(_, _, _, _) => 4
    case Touch(_, _, _) => 5
    case AskTouch(_, _, _) => 6
    case Copy(_, _) => 7
    case Unlock(_, _) => 8
    case Withdraw(_, _) => 1
    case AskWithdraw(_, _) => 2
    case Reload(_, _) => 9
    case Store(_, _) => 10
    case Fetch(_, _) => 11
    case Load(_, _) => 12
    case Replace(_, _) => 13
    case AskReplace(_, _) => 14
    case Check(_, _) => 15
    case AskEntry(_, _) => 16
    case Lookup(_) => 17
    case AskLookup(_) => 18
  }

  /** Every step brings a read nearer to its end, whatever other threads do: at most 18 follow its first one. */
  lemma StepsEnd(cfg: Config, s: State, t: nat, e: Event)
    requires Enabled(cfg, s, t, e) && !s.pcs[t].Idle? && !s.pcs[t].Done?
    ensures Left(Step(cfg, s, t, e).pcs[t]) < Left(s.pcs[t]) <= 18
    ensures Left(Step(cfg, s, t, e).pcs[t]) == 0 <==> Step(cfg, s, t, e).pcs[t].Done?
    ensures forall u :: 0 <= u < |s.pcs| && u != t ==> Step(cfg, s, t, e).pcs[u] == s.pcs[u]
  {
  }

  /** The ids with which a run calls the collector, in order. */
  ghost function Touched(cfg: Config, s: State, run: seq<Move>): seq<nat>
    requires Possible(cfg, s, run)
    decreases |run|
  {
    if |run| == 0 then []
    else
      (if run[0].Act? then Touches(s.pcs[run[0].t]) else []) + Touched(cfg, After(cfg, s, run[0]), run[1..])
  }

  lemma MoveRecent(cfg: Config, s: State, m: Move, history: seq<nat>)
    requires cfg.Valid() && Safe(cfg, s) && Can(cfg, s, m) && Recent(cfg, s, history)
    ensures Recent(cfg, After(cfg, s, m), history + (if m.Act? then Touches(s.pcs[m.t]) else []))
  {
    if m.Act? {
      StepRecent(cfg, s, m.t, m.e, history);
    } else {
      assert history + [] == history;
    }
  }

  lemma {:induction false} RunRecent(cfg: Config, s: State, run: seq<Move>, history: seq<nat>)
    requires cfg.Valid() && Safe(cfg, s) && Possible(cfg, s, run) && Recent(cfg, s, history)
    ensures Recent(cfg, Run(cfg, s, run), history + Touched(cfg, s, run))
    decreases |run|
  {
    if |run| == 0 {
      assert history + [] == history;
    } else {
      var m := run[0];
      var first := if m.Act? then Touches(s.pcs[m.t]) else [];
      MoveRecent(cfg, s, m, history);
      AfterSafe(cfg, s, m);
      RunRecent(cfg, After(cfg, s, m), run[1..], history + first);
      ConcatAssociates(history, first, Touched(cfg, After(cfg, s, m), run[1..]));
    }
  }

  /**
   Whenever no eviction is under way, the queue of the cache is the one that a collector has
   after the updates of all threads, one after the other.
   */
  lemma QueueIsRecent(cfg: Config, s: State, run: seq<Move>)
    requires cfg.Valid() && Initial(s) && Possible(cfg, s, run)
    requires forall u :: 0 <= u < |Run(cfg, s, run).pcs| ==> !Evicting(Run(cfg, s, run).pcs[u])
    ensures Run(cfg, s, run).queue == Lru.After(cfg.size, Touched(cfg, s, run))
  {
    RunRecent(cfg, s, run, []);
    assert [] + Touched(cfg, s, run) == Touched(cfg, s, run);
  }

  /**
   A read that has succeeded has the requested slice of its chunk, unless its entry is one of
   those that are named.
   */
  ghost predicate ReadRight(cfg: Config, garbled: set<nat>, pc: Pc) {
    pc.Done? && pc.got.Some? ==> pc.r in garbled || (cfg.Fits(pc.q) && pc.got.value == cfg.Slice(pc.q))
  }

  /**
   In every interleaving a read that succeeds returns its slice of its chunk, unless its entry
   got something else from a file that another thread was writing; and it succeeds unless a
   load of its own fails. Entries outside the queue belong to requests in flight or to an
   eviction, and the cache stays small.
   */
  lemma EveryReadRight(cfg: Config, s: State, run: seq<Move>)
    requires cfg.Valid() && Initial(s) && Possible(cfg, s, run)
    ensures var last := Run(cfg, s, run);
      && (forall t :: 0 <= t < |last.pcs| ==> ReadRight(cfg, last.garbled, last.pcs[t]) && Ended(run, t, last.pcs[t]))
      && Accounted(last)
      && |last.entries.Keys| <= cfg.size + |InFlight(last.pcs)|
  {
    RunSafe(cfg, s, run);
    SafeReads(cfg, Run(cfg, s, run));
    EveryReadEnds(cfg, s, run);
    CacheBound(cfg, Run(cfg, s, run));
  }

  lemma SafeReads(cfg: Config, s: State)
    requires Safe(cfg, s)
    ensures forall t :: 0 <= t < |s.pcs| ==> ReadRight(cfg, s.garbled, s.pcs[t])
  {
    forall t | 0 <= t < |s.pcs| ensures ReadRight(cfg, s.garbled, s.pcs[t]) {
      assert ThreadOk(cfg, s.heap, s.garbled, s.pcs[t]);
    }
  }

  /** Every load gets its chunk or nothing. */
  ghost predicate Clean(m: Move) {
    m.Act? ==> !m.e.Garble?
  }

  lemma {:induction false} NothingGarbled(cfg: Config, s: State, run: seq<Move>)
    requires Possible(cfg, s, run) && s.garbled == {}
    requires forall k :: 0 <= k < |run| ==> Clean(run[k])
    ensures Run(cfg, s, run).garbled == {}
    decreases |run|
  {
    if |run| > 0 {
      assert Clean(run[0]);
      NothingGarbled(cfg, After(cfg, s, run[0]), run[1..]);
    }
  }

  /** The thread has the requested slice of its chunk. */
  ghost predicate HasSlice(cfg: Config, pc: Pc) {
    pc.Done? && cfg.Fits(pc.q) && pc.got == Some(cfg.Slice(pc.q))
  }

  /**
   When no read of a file yields anything but the chunk, every read ends with its slice unless
   a load of its own fails: whatever loads of others fail or overlap, whatever entries are
   replaced, withdrawn or evicted, and whatever chunks leave the store.
   */
  lemma AllReadsRight(cfg: Config, s: State, run: seq<Move>)
    requires cfg.Valid() && Initial(s) && Possible(cfg, s, run)
    requires forall k :: 0 <= k < |run| ==> Clean(run[k])
    ensures var last := Run(cfg, s, run);
      forall t :: 0 <= t < |last.pcs| && last.pcs[t].Done? ==>
        && Began(run, t, last.pcs[t].q)
        && if FailedSince(run, t) then last.pcs[t].got == None else HasSlice(cfg, last.pcs[t])
  {
    var last := Run(cfg, s, run);
    NothingGarbled(cfg, s, run);
    EveryReadRight(cfg, s, run);
    forall t | 0 <= t < |last.pcs| && last.pcs[t].Done? && !FailedSince(run, t) ensures HasSlice(cfg, last.pcs[t]) {
      assert ReadRight(cfg, last.garbled, last.pcs[t]) && Ended(run, t, last.pcs[t]);
    }
  }

  /** When moreover no load fails, every read ends with its slice. */
  lemma AllReadsSucceed(cfg: Config, s: State, run: seq<Move>)
    requires cfg.Valid() && Initial(s) && Possible(cfg, s, run)
    requires forall k :: 0 <= k < |run| ==> Clean(run[k]) && (run[k].Act? ==> run[k].e != Fail)
    ensures forall t :: 0 <= t < |Run(cfg, s, run).pcs| && Run(cfg, s, run).pcs[t].Done? ==>
      HasSlice(cfg, Run(cfg, s, run).pcs[t])
  {
    AllReadsRight(cfg, s, run);
  }

  /** The data of an entry never change once they are there, whoever still reads them. */
  lemma {:induction false} DataStay(cfg: Config, s: State, run: seq<Move>, r: nat)
    requires cfg.Valid() && Safe(cfg, s) && Possible(cfg, s, run)
    requires r in s.heap && s.heap[r].data != []
    ensures r in Run(cfg, s, run).heap && Run(cfg, s, run).heap[r].data == s.heap[r].data
    decreases |run|
  {
    if |run| > 0 {
      if run[0].Act? {
        assert Own(cfg, s, run[0].t);
        StepHeap(cfg, s, run[0].t, run[0].e);
      }
      AfterSafe(cfg, s, run[0]);
      DataStay(cfg, After(cfg, s, run[0]), run[1..], r);
    }
  }

  // ---------------------------------------------------------------- stored chunks

  /** A thread that leaves the file of a chunk alone, with an entry of the chunk that no write has touched. */
  ghost predicate UndisturbedPc(s: State, pc: Pc, id: nat) {
    pc.Idle? || pc.q.id != id || !(pc.Fetch? || pc.Store? || pc.Reload?)
  }

  /** A chunk is in the store, and nobody writes its file. */
  ghost predicate Undisturbed(s: State, id: nat) {
    && id in s.stored
    && (forall u :: 0 <= u < |s.pcs| ==> UndisturbedPc(s, s.pcs[u], id))
    && (forall r :: r in s.clash + s.garbled ==> r in s.heap && s.heap[r].id != id)
  }

  lemma StepUndisturbed(cfg: Config, s: State, t: nat, e: Event, id: nat)
    requires cfg.Valid() && Inv(cfg, s) && Enabled(cfg, s, t, e) && Undisturbed(s, id)
    ensures Undisturbed(Step(cfg, s, t, e), id)
  {
    var s' := Step(cfg, s, t, e);
    var pc := s.pcs[t];
    assert Own(cfg, s, t) && UndisturbedPc(s, pc, id);
    StepHeap(cfg, s, t, e);
    assert UndisturbedPc(s', s'.pcs[t], id);
    assert s'.garbled <= s.clash + s.garbled;
    forall r | r in s'.clash + s'.garbled ensures r in s'.heap && s'.heap[r].id != id {
      if r !in s.clash + s.garbled {
        ClashElsewhere(cfg, s, t, e, id, r);
      }
    }
  }

  lemma ReaderHasEntry(cfg: Config, s: State, id: nat, r: nat)
    requires ThreadsOk(cfg, s) && r in Readers(s.pcs, id)
    ensures r in s.heap && s.heap[r].id == id
  {
    var u :| 0 <= u < |s.pcs| && (s.pcs[u].Load? || s.pcs[u].Reload?) && s.pcs[u].q.id == id && s.pcs[u].r == r;
    assert ThreadOk(cfg, s.heap, s.garbled, s.pcs[u]);
  }

  lemma WritesAnother(s: State, t: nat, id: nat, other: nat)
    requires Undisturbed(s, id) && OtherWrites(s.pcs, t, other)
    ensures other != id
  {
    var u :| 0 <= u < |s.pcs| && u != t && s.pcs[u].Store? && s.pcs[u].q.id == other;
    assert UndisturbedPc(s, s.pcs[u], id);
  }

  /** An entry that clashes from now on belongs to another chunk. */
  lemma ClashElsewhere(cfg: Config, s: State, t: nat, e: Event, id: nat, r: nat)
    requires cfg.Valid() && Inv(cfg, s) && Enabled(cfg, s, t, e) && Undisturbed(s, id)
    requires UndisturbedPc(s, Next(cfg, s, s.pcs[t], e), id)
    requires HeapStep(s.heap, NextHeap(cfg, s, s.pcs[t], e), s.pcs[t])
    requires r !in s.clash && r in NextClash(s, t, Next(cfg, s, s.pcs[t], e))
    ensures r in NextHeap(cfg, s, s.pcs[t], e) && NextHeap(cfg, s, s.pcs[t], e)[r].id != id
  {
    var after := Next(cfg, s, s.pcs[t], e);
    if after.Store? {
      ReaderHasEntry(cfg, s, after.q.id, r);
    } else {
      WritesAnother(s, t, id, after.q.id);
      SelfRefers(cfg, s, t, e);
    }
  }

  lemma {:induction false} RunUndisturbed(cfg: Config, s: State, run: seq<Move>, id: nat)
    requires cfg.Valid() && Safe(cfg, s) && Possible(cfg, s, run) && Undisturbed(s, id)
    requires forall k :: 0 <= k < |run| ==> run[k] != Drop(id)
    ensures Undisturbed(Run(cfg, s, run), id)
    decreases |run|
  {
    if |run| > 0 {
      assert run[0] != Drop(id);
      if run[0].Act? {
        StepUndisturbed(cfg, s, run[0].t, run[0].e, id);
      }
      AfterSafe(cfg, s, run[0]);
      RunUndisturbed(cfg, After(cfg, s, run[0]), run[1..], id);
    }
  }

  /**
   Every read of a chunk that is in the store and stays there ends with its slice unless a load
   of its own fails, whatever else goes wrong.
   */
  lemma StoredReadsRight(cfg: Config, s: State, run: seq<Move>, id: nat)
    requires cfg.Valid() && Initial(s) && Possible(cfg, s, run)
    requires id in s.stored && forall k :: 0 <= k < |run| ==> run[k] != Drop(id)
    ensures var last := Run(cfg, s, run);
      forall t :: 0 <= t < |last.pcs| && last.pcs[t].Done? && last.pcs[t].q.id == id ==>
        if FailedSince(run, t) then last.pcs[t].got == None else HasSlice(cfg, last.pcs[t])
  {
    var last := Run(cfg, s, run);
    RunUndisturbed(cfg, s, run, id);
    RunSafe(cfg, s, run);
    EveryReadEnds(cfg, s, run);
    forall t | 0 <= t < |last.pcs| && last.pcs[t].Done? && last.pcs[t].q.id == id
      ensures if FailedSince(run, t) then last.pcs[t].got == None else HasSlice(cfg, last.pcs[t])
    {
      assert ThreadOk(cfg, last.heap, last.garbled, last.pcs[t]) && Ended(run, t, last.pcs[t]);
    }
  }

  // ---------------------------------------------------------------- overlapping loads happen

  ghost predicate Reaches(cfg: Config, s: State, last: State) {
    exists run :: Possible(cfg, s, run) && Run(cfg, s, run) == last
  }

  /** One more step of a thread. */
  lemma GoOn(cfg: Config, s: State, mid: State, t: nat, e: Event) returns (last: State)
    requires Reaches(cfg, s, mid) && Enabled(cfg, mid, t, e)
    ensures Reaches(cfg, s, last) && last == Step(cfg, mid, t, e)
  {
    var run :| Possible(cfg, s, run) && Run(cfg, s, run) == mid;
    RunOn(cfg, s, run, Act(t, e));
    last := Step(cfg, mid, t, e);
  }

  lemma ReachesStart(cfg: Config, s: State)
    ensures Reaches(cfg, s, s)
  {
    assert Possible(cfg, s, []) && Run(cfg, s, []) == s;
  }

  /** Two threads use one chunk, which is not in the store, and other threads do nothing; no entry has data yet. */
  ghost predicate Two(s: State, id: nat, listed: Option<nat>, next: nat) {
    && |s.pcs| >= 2 && (forall u :: 2 <= u < |s.pcs| ==> s.pcs[u] == Idle)
    && s.next == next && id !in s.stored && s.queue == []
    && (match listed case None => id !in s.entries case Some(r) => id in s.entries && s.entries[id] == r)
    && (forall r :: r in s.heap ==> s.heap[r].data == [])
  }

  ghost predicate At(s: State, x: Pc, y: Pc) {
    |s.pcs| >= 2 && s.pcs[0] == x && s.pcs[1] == y
  }

  /** Thread `t` steps, up to writing a file; the entry that is listed and the number of entries follow. */
  lemma TwoGo(cfg: Config, s: State, mid: State, t: nat, e: Event, id: nat, listed: Option<nat>, next: nat)
    returns (last: State)
    requires Reaches(cfg, s, mid) && Two(mid, id, listed, next) && t < 2 && Enabled(cfg, mid, t, e) && !e.Garble?
    requires var pc := mid.pcs[t]; pc.Idle? || (pc.q.id == id && !HoldsCollector(pc) && !pc.Store? && !pc.Reload?)
    ensures Reaches(cfg, s, last)
    ensures last.pcs == mid.pcs[t := Next(cfg, mid, mid.pcs[t], e)]
    ensures var pc := mid.pcs[t];
      if Publishes(mid, pc) then Two(last, id, Some(next), next + 1)
      else Two(last, id, if pc.Withdraw? then None else listed, next)
  {
    last := GoOn(cfg, s, mid, t, e);
  }

  lemma Begins(cfg: Config, s: State, mid: State, t: nat, q: Request, listed: Option<nat>, next: nat)
    returns (last: State)
    requires Reaches(cfg, s, mid) && Two(mid, q.id, listed, next) && cfg.Fits(q)
    requires t < 2 && mid.pcs[t] == Idle && !HoldsMap(mid.pcs[1 - t])
    ensures Reaches(cfg, s, last)
    ensures last.pcs == mid.pcs[t := if listed.Some? then AskEntry(q, listed.value) else Load(q, next)]
    ensures if listed.Some? then Two(last, q.id, listed, next) else Two(last, q.id, Some(next), next + 1)
  {
    last := TwoGo(cfg, s, mid, t, Begin(q), q.id, listed, next);
    last := TwoGo(cfg, s, last, t, Go, q.id, listed, next);
    last := TwoGo(cfg, s, last, t, Go, q.id, listed, next);
  }

  /** Both threads ask for the same chunk; the second one waits for the entry of the first. */
  lemma BothAsk(cfg: Config, s: State, q: Request) returns (last: State)
    requires Initial(s) && |s.pcs| >= 2 && q.id !in s.stored && cfg.Fits(q)
    ensures Reaches(cfg, s, last) && Two(last, q.id, Some(s.next), s.next + 1)
    ensures At(last, Load(q, s.next), AskEntry(q, s.next))
  {
    ReachesStart(cfg, s);
    last := Begins(cfg, s, s, 0, q, None, s.next);
    last := Begins(cfg, s, last, 1, q, Some(s.next), s.next + 1);
  }

  lemma Fails(cfg: Config, s: State, mid: State, q: Request, r: nat) returns (last: State)
    requires Reaches(cfg, s, mid) && Two(mid, q.id, Some(r), r + 1) && At(mid, Load(q, r), AskEntry(q, r))
    ensures Reaches(cfg, s, last) && Two(last, q.id, Some(r), r + 1) && At(last, Withdraw(q, r), AskEntry(q, r))
  {
    last := TwoGo(cfg, s, mid, 0, Fail, q.id, Some(r), r + 1);
    last := TwoGo(cfg, s, last, 0, Go, q.id, Some(r), r + 1);
  }

  lemma Withdraws(cfg: Config, s: State, mid: State, q: Request, r: nat) returns (last: State)
    requires Reaches(cfg, s, mid) && Two(mid, q.id, Some(r), r + 1) && At(mid, Withdraw(q, r), AskEntry(q, r))
    ensures Reaches(cfg, s, last) && Two(last, q.id, None, r + 1) && At(last, Idle, AskEntry(q, r))
  {
    last := TwoGo(cfg, s, mid, 0, Go, q.id, Some(r), r + 1);
    last := TwoGo(cfg, s, last, 0, Go, q.id, None, r + 1);
  }

  /** The load of the first thread fails, and it asks again. */
  lemma FirstFails(cfg: Config, s: State, mid: State, q: Request, r: nat) returns (last: State)
    requires Reaches(cfg, s, mid) && cfg.Fits(q)
    requires Two(mid, q.id, Some(r), r + 1) && At(mid, Load(q, r), AskEntry(q, r))
    ensures Reaches(cfg, s, last) && Two(last, q.id, Some(r + 1), r + 2)
    ensures At(last, Load(q, r + 1), AskEntry(q, r))
  {
    last := Fails(cfg, s, mid, q, r);
    last := Withdraws(cfg, s, last, q, r);
    last := Begins(cfg, s, last, 0, q, None, r + 1);
  }

  /** The second thread finds the old entry without data and replaces the new one. */
  lemma SecondReplaces(cfg: Config, s: State, mid: State, q: Request, r: nat) returns (last: State)
    requires Reaches(cfg, s, mid) && Two(mid, q.id, Some(r + 1), r + 2) && At(mid, Load(q, r + 1), AskEntry(q, r))
    ensures Reaches(cfg, s, last) && Two(last, q.id, Some(r + 2), r + 3) && At(last, Load(q, r + 1), Load(q, r + 2))
  {
    last := TwoGo(cfg, s, mid, 1, Go, q.id, Some(r + 1), r + 2);
    last := TwoGo(cfg, s, last, 1, Go, q.id, Some(r + 1), r + 2);
    last := TwoGo(cfg, s, last, 1, Go, q.id, Some(r + 1), r + 2);
    last := TwoGo(cfg, s, last, 1, Go, q.id, Some(r + 1), r + 2);
  }

  /** Neither finds the chunk in the store, and both write its file. */
  lemma BothWrite(cfg: Config, s: State, mid: State, q: Request, r: nat) returns (last: State)
    requires Reaches(cfg, s, mid) && Two(mid, q.id, Some(r + 2), r + 3) && At(mid, Load(q, r + 1), Load(q, r + 2))
    ensures Reaches(cfg, s, last) && Two(last, q.id, Some(r + 2), r + 3) && At(last, Store(q, r + 1), Store(q, r + 2))
  {
    last := TwoGo(cfg, s, mid, 0, Go, q.id, Some(r + 2), r + 3);
    last := TwoGo(cfg, s, last, 1, Go, q.id, Some(r + 2), r + 3);
    last := TwoGo(cfg, s, last, 0, Go, q.id, Some(r + 2), r + 3);
    last := TwoGo(cfg, s, last, 1, Go, q.id, Some(r + 2), r + 3);
  }

  /** Two threads may write the file of one chunk at the same time: any chunk that is not in the store. */
  lemma LoadsOverlap(cfg: Config, s: State, q: Request) returns (last: State)
    requires Initial(s) && |s.pcs| >= 2 && q.id !in s.stored && cfg.Fits(q)
    ensures Reaches(cfg, s, last) && Two(last, q.id, Some(s.next + 2), s.next + 3)
    ensures At(last, Store(q, s.next + 1), Store(q, s.next + 2))
  {
    last := BothAsk(cfg, s, q);
    last := FirstFails(cfg, s, last, q, s.next);
    last := SecondReplaces(cfg, s, last, q, s.next);
    last := BothWrite(cfg, s, last, q, s.next);
  }

  /** The first thread is where it is, and no other one holds the collector. */
  ghost predicate Alone(s: State, pc: Pc) {
    && |s.pcs| > 0 && s.pcs[0] == pc && s.queue == []
    && forall u :: 1 <= u < |s.pcs| ==> !HoldsCollector(s.pcs[u])
  }

  lemma CopiesOut(cfg: Config, s: State, mid: State, q: Request, r: nat, data: Bytes) returns (last: State)
    requires Reaches(cfg, s, mid) && Alone(mid, Unlock(q, r)) && r in mid.heap && mid.heap[r].data == data
    requires q.off + q.len <= |data|
    ensures Reaches(cfg, s, last) && Alone(last, AskTouch(q, r, Some(data[q.off..q.off + q.len])))
  {
    last := GoOn(cfg, s, mid, 0, Go);
    last := GoOn(cfg, s, last, 0, Go);
  }

  lemma Returns(cfg: Config, s: State, mid: State, q: Request, r: nat, got: Bytes) returns (last: State)
    requires cfg.size > 0 && Reaches(cfg, s, mid) && Alone(mid, AskTouch(q, r, Some(got)))
    ensures Reaches(cfg, s, last) && |last.pcs| > 0 && last.pcs[0] == Done(q, r, Some(got))
  {
    last := GoOn(cfg, s, mid, 0, Go);
    last := GoOn(cfg, s, last, 0, Go);
  }

  /** The first thread reads the file while the second still writes it. */
  lemma ReadsOther(cfg: Config, s: State, mid: State, q: Request, r: nat, data: Bytes) returns (last: State)
    requires Reaches(cfg, s, mid) && Two(mid, q.id, Some(r + 1), r + 2) && At(mid, Store(q, r), Store(q, r + 1))
    requires |data| > 0
    ensures Reaches(cfg, s, last) && Alone(last, Unlock(q, r)) && r in last.heap && last.heap[r].data == data
  {
    last := GoOn(cfg, s, mid, 0, Go);
    assert OtherWrites(mid.pcs, 0, q.id) by {
      assert mid.pcs[1].Store? && mid.pcs[1].q.id == q.id;
    }
    last := GoOn(cfg, s, last, 0, Garble(data));
  }

  /**
   And the first one may then read anything instead of the chunk, and return it: for every
   chunk that is not in the store there is a run in which a read succeeds with other bytes.
   */
  lemma WrongRead(cfg: Config, s: State, q: Request, data: Bytes) returns (last: State)
    requires cfg.size > 0 && Initial(s) && |s.pcs| >= 2 && q.id !in s.stored && cfg.Fits(q)
    requires |data| == |cfg.content(q.id)| > 0 && data[q.off..q.off + q.len] != cfg.Slice(q)
    ensures Reaches(cfg, s, last) && |last.pcs| > 0 && !ReadRight(cfg, {}, last.pcs[0])
  {
    last := LoadsOverlap(cfg, s, q);
    last := ReadsOther(cfg, s, last, q, s.next + 1, data);
    last := CopiesOut(cfg, s, last, q, s.next + 1, data);
    last := Returns(cfg, s, last, q, s.next + 1, data[q.off..q.off + q.len]);
  }

  // ---------------------------------------------------------------- quiet runs

  /** No load fails, and the cache has room for every chunk that is asked for. */
  ghost predicate Quiet(cfg: Config, e: Event) {
    e != Fail && (e.Begin? ==> e.q.id < cfg.size)
  }

  ghost predicate QuietMove(cfg: Config, m: Move) {
    m.Act? ==> Quiet(cfg, m.e)
  }

  /** A thread of a quiet run: it replaces, withdraws and evicts nothing. */
  ghost predicate CalmPc(cfg: Config, s: State, pc: Pc) {
    pc.Idle? ||
      (&& pc.q.id < cfg.size && !Evicting(pc)
       && !(pc.AskReplace? || pc.Replace? || pc.AskWithdraw? || pc.Withdraw?)
       && (Loading(pc) ==> pc.q.id in s.entries && s.entries[pc.q.id] == pc.r)
       && (pc.Check? ==> pc.r in s.heap && s.heap[pc.r].data != []))
  }

  /** What holds besides: an entry that nobody loads has data. */
  ghost predicate CalmState(cfg: Config, s: State) {
    && s.clash == {} && s.garbled == {}
    && (forall id :: id in s.queue ==> id < cfg.size)
    && (forall r :: r in s.heap && s.heap[r].data == [] ==> Loaded(s.pcs, r))
  }

  ghost predicate Loaded(pcs: seq<Pc>, r: nat) {
    exists u :: 0 <= u < |pcs| && Loading(pcs[u]) && pcs[u].r == r
  }

  ghost predicate Calm(cfg: Config, s: State) {
    CalmState(cfg, s) && forall u :: 0 <= u < |s.pcs| ==> CalmPc(cfg, s, s.pcs[u])
  }

  /** Entries are never taken away. */
  ghost predicate EntriesStay(s: State, s': State) {
    forall id :: id in s.entries ==> id in s'.entries && s'.entries[id] == s.entries[id]
  }

  /** A queue of small ids has room for another one. */
  lemma CalmRoom(cfg: Config, s: State, t: nat)
    requires QueueOk(cfg, s) && Calm(cfg, s) && t < |s.pcs| && s.pcs[t].Touch?
    ensures s.pcs[t].q.id !in s.queue ==> |s.queue| < cfg.size
    ensures forall id :: id in Without(s.queue, s.pcs[t].q.id) ==> id < cfg.size
  {
    assert CalmPc(cfg, s, s.pcs[t]);
    var id := s.pcs[t].q.id;
    WithoutMembers(s.queue, id);
    if id !in s.queue {
      var all: seq<int> := [id] + s.queue;
      DistinctCons(id, s.queue);
      forall i | 0 <= i < |all| ensures 0 <= all[i] < cfg.size {
        if i > 0 {
          assert all[i] in s.queue;
        }
      }
      assert Distinct(all) by {
        assert Distinct([id] + s.queue);
      }
      DistinctBounded(all, 0, cfg.size);
    }
  }

  /** Nobody else loads the chunk of a thread that loads one, or begins to. */
  lemma LoadsAlone(cfg: Config, s: State, t: nat, e: Event, u: nat)
    requires Exclusive(s) && Calm(cfg, s) && t < |s.pcs| && u < |s.pcs| && u != t
    requires var after := Next(cfg, s, s.pcs[t], e);
      Loading(after) && Enabled(cfg, s, t, e) && Quiet(cfg, e) && Loading(s.pcs[u])
    ensures s.pcs[u].q.id != Next(cfg, s, s.pcs[t], e).q.id
  {
    assert CalmPc(cfg, s, s.pcs[u]) && CalmPc(cfg, s, s.pcs[t]) && Apart(s.pcs[t], s.pcs[u]);
    if Loading(s.pcs[t]) {
      assert HoldsEntry(s.pcs[t], s.pcs[t].r);
    }
  }

  lemma NoClash(cfg: Config, s: State, t: nat, e: Event)
    requires Exclusive(s) && Calm(cfg, s) && Enabled(cfg, s, t, e) && Quiet(cfg, e)
    ensures NextClash(s, t, Next(cfg, s, s.pcs[t], e)) == {} && NextGarbled(s, s.pcs[t], e) == {}
  {
    var after := Next(cfg, s, s.pcs[t], e);
    assert CalmPc(cfg, s, s.pcs[t]);
    if Loading(after) {
      forall u | 0 <= u < |s.pcs| && u != t && Loading(s.pcs[u]) ensures s.pcs[u].q.id != after.q.id {
        LoadsAlone(cfg, s, t, e, u);
      }
    }
  }

  /** What a step of a calm thread does to the shared state. */
  lemma SelfCalm(cfg: Config, s: State, t: nat, e: Event)
    requires cfg.Valid() && Own(cfg, s, t) && QueueOk(cfg, s) && Enabled(cfg, s, t, e) && Quiet(cfg, e)
    requires Calm(cfg, s)
    ensures var s' := Step(cfg, s, t, e); EntriesStay(s, s') && CalmPc(cfg, s', s'.pcs[t])
  {
    var pc := s.pcs[t];
    assert CalmPc(cfg, s, pc);
    if pc.Touch? {
      CalmRoom(cfg, s, t);
    }
    if pc.AskEntry? {
      FreeHasData(cfg, s, pc.r);
    }
  }

  lemma FreeHasData(cfg: Config, s: State, r: nat)
    requires Calm(cfg, s) && r in s.heap && EntryFree(s, r)
    ensures s.heap[r].data != []
  {
  }

  lemma QueueCalm(cfg: Config, s: State, t: nat, e: Event)
    requires QueueOk(cfg, s) && Calm(cfg, s) && t < |s.pcs|
    ensures forall id :: id in NextQueue(cfg, s, s.pcs[t]) ==> id < cfg.size
  {
    assert CalmPc(cfg, s, s.pcs[t]);
    if s.pcs[t].Touch? {
      CalmRoom(cfg, s, t);
    }
  }

  lemma HeapCalm(cfg: Config, s: State, t: nat, e: Event)
    requires cfg.Valid() && Own(cfg, s, t) && Calm(cfg, s) && Enabled(cfg, s, t, e) && Quiet(cfg, e)
    ensures var s' := Step(cfg, s, t, e);
      forall r :: r in s'.heap && s'.heap[r].data == [] ==> Loaded(s'.pcs, r)
  {
    var s' := Step(cfg, s, t, e);
    assert CalmPc(cfg, s, s.pcs[t]);
    forall r | r in s'.heap && s'.heap[r].data == [] ensures Loaded(s'.pcs, r) {
      if r in s.heap && s.heap[r].data == [] && !(Publishes(s, s.pcs[t]) && r == s.next) {
        var u :| 0 <= u < |s.pcs| && Loading(s.pcs[u]) && s.pcs[u].r == r;
        assert Loading(s'.pcs[u]) && s'.pcs[u].r == r;
      } else {
        assert Loading(s'.pcs[t]) && s'.pcs[t].r == r;
      }
    }
  }

  lemma OtherCalm(cfg: Config, s: State, s': State, t: nat, pc: Pc)
    requires t < |s.pcs| && CalmPc(cfg, s, pc) && EntriesStay(s, s') && HeapStep(s.heap, s'.heap, s.pcs[t])
    ensures CalmPc(cfg, s', pc)
  {
  }

  lemma StepCalm(cfg: Config, s: State, t: nat, e: Event)
    requires cfg.Valid() && Safe(cfg, s) && Calm(cfg, s) && Enabled(cfg, s, t, e) && Quiet(cfg, e)
    ensures Calm(cfg, Step(cfg, s, t, e))
  {
    var s' := Step(cfg, s, t, e);
    assert Own(cfg, s, t);
    SelfCalm(cfg, s, t, e);
    NoClash(cfg, s, t, e);
    QueueCalm(cfg, s, t, e);
    HeapCalm(cfg, s, t, e);
    StepHeap(cfg, s, t, e);
    forall u | 0 <= u < |s'.pcs| ensures CalmPc(cfg, s', s'.pcs[u]) {
      if u != t {
        OtherCalm(cfg, s, s', t, s.pcs[u]);
      }
    }
  }

  lemma {:induction false} RunCalm(cfg: Config, s: State, run: seq<Move>)
    requires cfg.Valid() && Safe(cfg, s) && Calm(cfg, s) && Possible(cfg, s, run)
    requires forall k :: 0 <= k < |run| ==> QuietMove(cfg, run[k])
    ensures Calm(cfg, Run(cfg, s, run))
    decreases |run|
  {
    if |run| > 0 {
      assert QuietMove(cfg, run[0]);
      if run[0].Act? {
        StepCalm(cfg, s, run[0].t, run[0].e);
      }
      AfterSafe(cfg, s, run[0]);
      RunCalm(cfg, After(cfg, s, run[0]), run[1..]);
    }
  }

  /**
   When no load fails and the cache has room for every chunk, no read meets a write, and every
   read ends with its slice.
   */
  lemma QuietReadsRight(cfg: Config, s: State, run: seq<Move>)
    requires cfg.Valid() && Initial(s) && Possible(cfg, s, run)
    requires forall k :: 0 <= k < |run| ==> QuietMove(cfg, run[k])
    ensures Run(cfg, s, run).clash == {}
    ensures forall t :: 0 <= t < |Run(cfg, s, run).pcs| && Run(cfg, s, run).pcs[t].Done? ==>
      HasSlice(cfg, Run(cfg, s, run).pcs[t])
  {
    var last := Run(cfg, s, run);
    RunCalm(cfg, s, run);
    EveryReadRight(cfg, s, run);
    forall t | 0 <= t < |last.pcs| && last.pcs[t].Done? ensures HasSlice(cfg, last.pcs[t]) {
      assert ReadRight(cfg, last.garbled, last.pcs[t]) && Ended(run, t, last.pcs[t]);
    }
  }

  // ---------------------------------------------------------------- no deadlock

  /** Thread `t` waits for a mutex that thread `u` holds. */
  ghost predicate Waits(s: State, t: nat, u: nat)
    requires t < |s.pcs| && u < |s.pcs|
  {
    match s.pcs[t]
    case AskLookup(_) => HoldsMap(s.pcs[u])
    case AskReplace(_, _) => HoldsMap(s.pcs[u])
    case AskWithdraw(_, _) => HoldsMap(s.pcs[u])
    case AskEvict(_, _, _, _) => HoldsMap(s.pcs[u])
    case AskTouch(_, _, _) => HoldsCollector(s.pcs[u])
    case AskEntry(_, r) => HoldsEntry(s.pcs[u], r)
    case _ => false
  }

  /** The order of the mutexes: entries and the collector come before the map. */
  function Rank(pc: Pc): nat {
    if pc.AskEntry? || pc.AskTouch? then 2
    else if pc.AskLookup? || pc.AskReplace? || pc.AskWithdraw? || pc.AskEvict? then 1
    else 0
  }

  /** Waiting goes down in this order, so that no threads wait for each other in a circle. */
  lemma WaitsDown(s: State, t: nat, u: nat)
    requires t < |s.pcs| && u < |s.pcs| && Waits(s, t, u)
    ensures Rank(s.pcs[u]) < Rank(s.pcs[t]) && s.pcs[u] != Idle
  {
  }

  /** A thread that can go on, or finds that its chunk left the store. */
  ghost predicate Moves(cfg: Config, s: State, t: nat) {
    Enabled(cfg, s, t, Go) || Enabled(cfg, s, t, Fail)
  }

  /** A thread inside a read that cannot go on waits for another one. */
  lemma BlockedWaits(cfg: Config, s: State, t: nat) returns (u: nat)
    requires t < |s.pcs| && s.pcs[t] != Idle && !Moves(cfg, s, t)
    ensures u < |s.pcs| && Waits(s, t, u)
  {
    if s.pcs[t].AskEntry? {
      u :| 0 <= u < |s.pcs| && HoldsEntry(s.pcs[u], s.pcs[t].r);
    } else if s.pcs[t].AskTouch? {
      u :| 0 <= u < |s.pcs| && HoldsCollector(s.pcs[u]);
    } else {
      u :| 0 <= u < |s.pcs| && HoldsMap(s.pcs[u]);
    }
  }

  /** When some thread is inside a read, some thread inside a read can go on. */
  lemma {:induction false} NoDeadlock(cfg: Config, s: State, t: nat) returns (u: nat)
    requires t < |s.pcs| && s.pcs[t] != Idle
    ensures u < |s.pcs| && s.pcs[u] != Idle && Moves(cfg, s, u)
    decreases Rank(s.pcs[t])
  {
    u := t;
    if !Moves(cfg, s, t) {
      var v := BlockedWaits(cfg, s, t);
      WaitsDown(s, t, v);
      u := NoDeadlock(cfg, s, v);
    }
  }
}
