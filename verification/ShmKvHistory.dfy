/** Histories of the key/value store: what every sequence of calls keeps. */
module ShmKvHistory {
  import opened Wrappers
  import opened Bytes
  import opened Queues
  import opened ShmKv
  import opened ShmKvRuns

  // ----------------------------------------------------------- last use

  /** When each node was last touched. */
  ghost function Rank(tree: map<Addr, Node>, touched: map<Word, int>): map<Addr, int> {
    map a | a in tree && tree[a].hash in touched :: touched[tree[a].hash]
  }

  ghost predicate Touched(tree: map<Addr, Node>, touched: map<Word, int>, clock: int) {
    forall a :: a in tree ==> tree[a].hash in touched && touched[tree[a].hash] < clock
  }

  ghost predicate QueuesOrdered(queues: seq<seq<Addr>>, rank: map<Addr, int>) {
    forall i :: 0 <= i < |queues| ==> Newest(queues[i], rank)
  }

  /** Every queue runs from the entry touched last to the one touched longest ago. */
  ghost predicate Ordered(kv: Kv, touched: map<Word, int>, clock: int) {
    Touched(kv.tree, touched, clock) && QueuesOrdered(kv.queues, Rank(kv.tree, touched))
  }

  /** Taking `a` out of the queues, while nothing else changes its rank. */
  lemma {:induction false} UnlinkOrdered(queues: seq<seq<Addr>>, a: Addr, rank: map<Addr, int>, rank': map<Addr, int>)
    requires QueuesOrdered(queues, rank)
    requires forall i, x :: 0 <= i < |queues| && x in queues[i] && x != a ==>
               x in rank && x in rank' && rank'[x] == rank[x]
    ensures QueuesOrdered(Unlink(queues, a), rank')
  {
    forall i | 0 <= i < |queues| ensures Newest(Unlink(queues, a)[i], rank') {
      WithoutNewest(queues[i], a, rank, rank');
    }
  }

  /** Queue members are nodes of the tree. */
  lemma {:induction false} QueuedInTree(cfg: Config, kv: Kv, i: nat, x: Addr)
    requires ValidConfig(cfg) && Inv(cfg, kv) && i < |kv.queues| && x in kv.queues[i]
    ensures x in kv.tree
  {
    assert Belongs(cfg, kv.tree, x, i);
  }

  lemma {:induction false} RemoveOrdered(cfg: Config, kv: Kv, touched: map<Word, int>, clock: int, a: Addr)
    requires ValidConfig(cfg) && Inv(cfg, kv) && Ordered(kv, touched, clock)
    ensures Ordered(Remove(kv, a), touched, clock)
  {
    var rank, rank' := Rank(kv.tree, touched), Rank(kv.tree - {a}, touched);
    forall i, x | 0 <= i < |kv.queues| && x in kv.queues[i] && x != a
      ensures x in rank && x in rank' && rank'[x] == rank[x]
    {
      QueuedInTree(cfg, kv, i, x);
    }
    UnlinkOrdered(kv.queues, a, rank, rank');
  }

  lemma {:induction false} EvictOrdered(cfg: Config, kv: Kv, touched: map<Word, int>, clock: int, size: nat,
                                        refusals: nat)
    requires ValidConfig(cfg) && Inv(cfg, kv) && Ordered(kv, touched, clock)
    ensures Ordered(Evict(cfg, kv, size, refusals).kv, touched, clock)
    decreases refusals
  {
    assert |kv.queues| == NQueues(cfg);
    var v := Victim(cfg, kv, size);
    if refusals > 0 && v.Some? {
      VictimInTree(cfg, kv, size);
      RemoveInv(cfg, kv, v.value);
      RemoveOrdered(cfg, kv, touched, clock, v.value);
      assert Evict(cfg, kv, size, refusals).kv == Evict(cfg, Remove(kv, v.value), size, refusals - 1).kv;
      hide *;
      EvictOrdered(cfg, Remove(kv, v.value), touched, clock, size, refusals - 1);
    }
  }

  /** Node `a`, not queued yet, is touched now and goes to the head of queue `c`. */
  lemma {:induction false} HeadOrdered(tree: map<Addr, Node>, queues: seq<seq<Addr>>, touched: map<Word, int>,
                                       clock: int, a: Addr, n: Node, c: nat)
    requires Touched(tree, touched, clock) && QueuesOrdered(queues, Rank(tree, touched)) && c < |queues|
    requires forall i, x :: 0 <= i < |queues| && x in queues[i] ==> x in tree && x != a && tree[x].hash != n.hash
    requires a in tree ==> tree[a].hash == n.hash
    ensures var touched' := touched[n.hash := clock];
            && Touched(tree[a := n], touched', clock + 1)
            && QueuesOrdered(queues[c := [a] + queues[c]], Rank(tree[a := n], touched'))
  {
    var touched' := touched[n.hash := clock];
    var rank, rank' := Rank(tree, touched), Rank(tree[a := n], touched');
    assert a in rank' && rank'[a] == clock;
    forall i | 0 <= i < |queues| ensures Newest(queues[i], rank') {
      forall x | x in queues[i] ensures x in rank && x in rank' && rank'[x] == rank[x] < clock {
        assert x in tree && tree[x].hash in touched;
      }
      WithoutAbsent(queues[i], a);
      WithoutNewest(queues[i], a, rank, rank');
    }
    var q := [a] + queues[c];
    assert q[1..] == queues[c];
    forall x | x in q[1..] ensures x in rank' && rank'[x] < rank'[a] {
      assert x in tree && tree[x].hash in touched;
    }
  }

  lemma {:induction false} RequeueOrdered(cfg: Config, kv: Kv, touched: map<Word, int>, clock: int, a: Addr, n: Node)
    requires ValidConfig(cfg) && Inv(cfg, kv) && Ordered(kv, touched, clock) && a in kv.tree
    requires n.hash == kv.tree[a].hash
    ensures Ordered(Requeue(cfg, kv.(tree := kv.tree[a := n]), a), touched[n.hash := clock], clock + 1)
  {
    var qs := Unlink(kv.queues, a);
    var rank := Rank(kv.tree, touched);
    forall i, x | 0 <= i < |kv.queues| && x in kv.queues[i] ensures x in kv.tree && x in rank {
      QueuedInTree(cfg, kv, i, x);
    }
    UnlinkOrdered(kv.queues, a, rank, rank);
    forall i, x | 0 <= i < |qs| && x in qs[i]
      ensures x in kv.tree && x != a && kv.tree[x].hash != n.hash
    {
      assert x in kv.queues[i];
      assert SameHash(kv.tree, x, a) ==> x == a;
    }
    if Evicts(cfg) {
      HeadOrdered(kv.tree, qs, touched, clock, a, n, QueueOf(cfg, n));
    } else {
      assert kv.queues == [];
    }
  }

  lemma {:induction false} InsertOrdered(cfg: Config, kv: Kv, touched: map<Word, int>, clock: int, a: Addr, n: Node,
                                         nelts: int)
    requires ValidConfig(cfg) && Inv(cfg, kv) && Ordered(kv, touched, clock)
    requires a !in kv.tree && !HasHash(kv.tree, n.hash)
    ensures Ordered(Insert(cfg, kv, a, n, nelts), touched[n.hash := clock], clock + 1)
  {
    forall i, x | 0 <= i < |kv.queues| && x in kv.queues[i]
      ensures x in kv.tree && x != a && kv.tree[x].hash != n.hash
    {
      QueuedInTree(cfg, kv, i, x);
    }
    if Evicts(cfg) {
      HeadOrdered(kv.tree, kv.queues, touched, clock, a, n, QueueOf(cfg, n));
    } else {
      assert kv.queues == [];
    }
  }

  /** The victim, described without the queues: it is the entry touched longest ago
      in its size class, and no entry belongs to a class that is searched earlier
      (from the class of the needed size upwards, then from it downwards). */
  lemma {:induction false} VictimIsStalest(cfg: Config, kv: Kv, touched: map<Word, int>, clock: int, size: nat)
    requires ValidConfig(cfg) && Inv(cfg, kv) && Ordered(kv, touched, clock)
    ensures Victim(cfg, kv, size).Some? ==> Stalest(cfg, kv, touched, size, Victim(cfg, kv, size).value)
  {
    if Victim(cfg, kv, size).Some? {
      var c := VictimClass(cfg, kv.queues, size).value;
      var q := kv.queues[c];
      var v := q[|q| - 1];
      assert Belongs(cfg, kv.tree, v, c);
      NewestLast(q, Rank(kv.tree, touched));
      ScanUpPasses(kv.queues, StartClass(cfg, size));
      ScanDownPasses(kv.queues, StartClass(cfg, size));
      forall a | a in kv.tree && QueueOf(cfg, kv.tree[a]) == c
        ensures TouchedBefore(kv, touched, v, a)
      {
        assert Belongs(cfg, kv.tree, a, c);
        assert a in q;
      }
      forall a | a in kv.tree ensures !SearchedBefore(StartClass(cfg, size), QueueOf(cfg, kv.tree[a]), c) {
        var i := QueueOf(cfg, kv.tree[a]);
        assert Belongs(cfg, kv.tree, a, i);
        assert a in kv.queues[i];
      }
    }
  }

  ghost predicate TouchedBefore(kv: Kv, touched: map<Word, int>, v: Addr, a: Addr) {
    && v in kv.tree && a in kv.tree && kv.tree[v].hash in touched && kv.tree[a].hash in touched
    && touched[kv.tree[v].hash] <= touched[kv.tree[a].hash]
  }

  /** No entry of the class of `v` was touched longer ago, and all classes searched before
      it are empty. */
  ghost predicate Stalest(cfg: Config, kv: Kv, touched: map<Word, int>, size: nat, v: Addr)
    requires ValidConfig(cfg)
  {
    && v in kv.tree
    && var c := QueueOf(cfg, kv.tree[v]);
    && (forall a :: a in kv.tree && QueueOf(cfg, kv.tree[a]) == c ==> TouchedBefore(kv, touched, v, a))
    && (forall a :: a in kv.tree ==> !SearchedBefore(StartClass(cfg, size), QueueOf(cfg, kv.tree[a]), c))
  }

  /** Class `i` is searched before class `c`. */
  predicate SearchedBefore(start: nat, i: nat, c: nat) {
    if c >= start then start <= i < c else i >= start || c < i
  }

  // ------------------------------------------------- when a replaced entry is lost

  /** A growing write keeps the node it replaces across the eviction loop.  That node
      is freed under it exactly when it comes early enough in the eviction order. */
  ghost predicate Hazard(cfg: Config, kv: Kv, key: Bytes, value: Option<Bytes>, cas: Word, refusals: nat)
    requires ValidConfig(cfg) && |kv.queues| == NQueues(cfg)
  {
    var n := Lookup(kv, cfg.crc32(key));
    && value.Some? && n.Some?
    && cas == kv.tree[n.value].cas
    && |value.value| > |kv.tree[n.value].value|
    && var order := EvictionOrder(cfg, kv, NeededSize(cfg, key, value.value));
    && refusals <= |order|
    && n.value in order[..refusals]
  }

  /** A growing write loses the entry it replaces exactly when that is among the first
      entries of the eviction order. */
  lemma {:induction false} GrowLosesIff(cfg: Config, kv: Kv, prior: Addr, key: Bytes, value: Bytes, refusals: nat,
                                        a: Addr)
    requires ValidConfig(cfg) && Inv(cfg, kv) && prior in kv.tree
    ensures Grow(cfg, kv, Some(prior), key, value, refusals, a).0.ReplacedLost? <==>
            var order := EvictionOrder(cfg, kv, NeededSize(cfg, key, value));
            refusals <= |order| && prior in order[..refusals]
  {
    hide Inv, EvictionOrder, Evict, Replace;
    ConfigQueues(cfg, kv);
    var size := NeededSize(cfg, key, value);
    EvictTakesPrefix(cfg, kv, size, refusals);
    EvictRemoves(cfg, kv, size, refusals);
    assert prior in Evict(cfg, kv, size, refusals).kv.tree <==>
           prior !in Members(Evict(cfg, kv, size, refusals).victims);
  }

  lemma {:induction false} ReplacedIsEvictedIff(cfg: Config, kv: Kv, key: Bytes, value: Option<Bytes>, cas: Word,
                                                refusals: nat, a: Addr)
    requires ValidConfig(cfg) && Inv(cfg, kv)
    ensures Set(cfg, kv, key, value, cas, refusals, a).0.ReplacedLost?
            <==> Hazard(cfg, kv, key, value, cas, refusals)
  {
    hide Inv, EvictionOrder, Evict, Replace, Grow, Requeue, Remove;
    ConfigQueues(cfg, kv);
    var n := Lookup(kv, cfg.crc32(key));
    if value.Some? {
      if n.Some? {
        GrowLosesIff(cfg, kv, n.value, key, value.value, refusals, a);
      } else {
        GrowNothingLost(cfg, kv, key, value.value, refusals, a);
      }
    }
  }

  lemma {:induction false} GrowNothingLost(cfg: Config, kv: Kv, key: Bytes, value: Bytes, refusals: nat, a: Addr)
    requires ValidConfig(cfg) && |kv.queues| == NQueues(cfg)
    ensures !Grow(cfg, kv, None, key, value, refusals, a).0.ReplacedLost?
  {
  }

  /** The smallest case: one entry in an LRU store, a longer value for it, and one
      refused allocation. */
  lemma {:induction false} HazardHappens(cfg: Config, key: Bytes, value: Bytes, a: Addr)
    requires ValidConfig(cfg) && cfg.eviction.Lru? && |value| > 0
    ensures var kv := Kv(map[a := Node(key, cfg.crc32(key), [], 1)], 1, [[a]]);
            && Inv(cfg, kv)
            && Set(cfg, kv, key, Some(value), 1, 1, a).0.ReplacedLost?
  {
    var kv := Kv(map[a := Node(key, cfg.crc32(key), [], 1)], 1, [[a]]);
    assert kv.tree[a].hash == cfg.crc32(key);
    assert HasHash(kv.tree, cfg.crc32(key));
    assert kv.queues[0] == [a] && [a][1..] == [];
    assert Inv(cfg, kv) by {
      assert forall i, b :: 0 <= i < 1 ==> (b in kv.queues[i] <==> Belongs(cfg, kv.tree, b, i));
    }
    assert FromTail([a]) == [a] + FromTail([]);
    assert OrderUp(kv.queues, 0) == FromTail([a]) + OrderUp(kv.queues, 1);
    var order := EvictionOrder(cfg, kv, NeededSize(cfg, key, value));
    assert order == [a] && a in order[..1];
    ReplacedIsEvictedIff(cfg, kv, key, Some(value), 1, 1, a);
  }

  // ------------------------------------------------------------------- runs

  datatype Op =
    | GetOp(hash: Word)
    | SetOp(key: Bytes, value: Option<Bytes>, cas: Word, refusals: nat, addr: Addr)

  /** The store beside a plain map and the times of last use. */
  datatype World = World(kv: Kv, ref: map<Word, Entry>, touched: map<Word, int>, clock: int)

  ghost predicate WorldInv(cfg: Config, w: World)
    requires ValidConfig(cfg)
  {
    Inv(cfg, w.kv) && Agrees(w.kv, w.ref) && Ordered(w.kv, w.touched, w.clock)
  }

  ghost predicate Sized(cfg: Config, w: World)
    requires ValidConfig(cfg)
  {
    |w.kv.queues| == NQueues(cfg)
  }

  /** The allocator returns unused memory, and no replaced entry is evicted. */
  ghost predicate Legal(cfg: Config, w: World, op: Op)
    requires ValidConfig(cfg) && Sized(cfg, w)
  {
    op.SetOp? && op.value.Some? ==>
      && Allocates(cfg, w.kv, op.key, op.value.value, op.refusals, op.addr)
      && !Hazard(cfg, w.kv, op.key, op.value, op.cas, op.refusals)
  }

  ghost function Reply(cfg: Config, w: World, op: Op): SetReply
    requires ValidConfig(cfg) && Sized(cfg, w) && op.SetOp?
  {
    Set(cfg, w.kv, op.key, op.value, op.cas, op.refusals, op.addr).0
  }

  ghost function Step(cfg: Config, w: World, op: Op): (w': World)
    requires ValidConfig(cfg) && Sized(cfg, w)
    ensures Sized(cfg, w')
  {
    match op
    case GetOp(h) =>
      var (r, kv') := Get(cfg, w.kv, h);
      World(kv', w.ref, if r.Some? then w.touched[h := w.clock] else w.touched, w.clock + 1)
    case SetOp(key, value, cas, refusals, addr) =>
      var (r, kv') := Set(cfg, w.kv, key, value, cas, refusals, addr);
      var e := EvictFor(cfg, w.kv, key, value, refusals);
      var h := cfg.crc32(key);
      World(kv',
            RefSet(w.ref, h, key, value, cas, HashesOf(w.kv.tree, e.victims), e.ok).1,
            if r.Written? && value.Some? then w.touched[h := w.clock] else w.touched,
            w.clock + 1)
  }

  lemma {:induction false} OrderedLater(kv: Kv, touched: map<Word, int>, clock: int)
    requires Ordered(kv, touched, clock)
    ensures Ordered(kv, touched, clock + 1)
  {
  }

  lemma {:induction false} GetOrdered(cfg: Config, kv: Kv, touched: map<Word, int>, clock: int, h: Word)
    requires ValidConfig(cfg) && Inv(cfg, kv) && Ordered(kv, touched, clock)
    ensures var (r, kv') := Get(cfg, kv, h);
            Ordered(kv', if r.Some? then touched[h := clock] else touched, clock + 1)
  {
    var n := Lookup(kv, h);
    if n.Some? {
      var node := kv.tree[n.value];
      assert kv.tree[n.value := node] == kv.tree;
      RequeueOrdered(cfg, kv, touched, clock, n.value, node);
    } else {
      OrderedLater(kv, touched, clock);
    }
  }

  lemma {:induction false} GrowOrdered(cfg: Config, kv: Kv, touched: map<Word, int>, clock: int,
                                       prior: Option<Addr>, key: Bytes, value: Bytes, refusals: nat, a: Addr)
    requires ValidConfig(cfg) && Inv(cfg, kv) && Ordered(kv, touched, clock)
    requires prior == Lookup(kv, cfg.crc32(key))
    requires Allocates(cfg, kv, key, value, refusals, a)
    ensures var (r, kv') := Grow(cfg, kv, prior, key, value, refusals, a);
            Ordered(kv', if r.Written? then touched[cfg.crc32(key) := clock] else touched, clock + 1)
  {
    var h, size := cfg.crc32(key), NeededSize(cfg, key, value);
    assert |kv.queues| == NQueues(cfg);
    var e := Evict(cfg, kv, size, refusals);
    var cas := VersionAt(kv, prior);
    GrowUnfolds(cfg, kv, prior, key, value, refusals, a);
    assert a !in e.kv.tree;
    hide *;
    EvictInv(cfg, kv, size, refusals);
    EvictRemoves(cfg, kv, size, refusals);
    EvictOrdered(cfg, kv, touched, clock, size, refusals);
    OrderedLater(e.kv, touched, clock);
    if e.ok {
      if prior.None? {
        NoHashAfterRemoval(kv.tree, Members(e.victims), h);
        ReplaceOrdered(cfg, e.kv, touched, clock, prior, key, value, a, cas);
      } else if prior.value in e.kv.tree {
        ReplaceOrdered(cfg, e.kv, touched, clock, prior, key, value, a, cas);
      }
    }
  }

  lemma {:induction false} ReplaceOrdered(cfg: Config, kv: Kv, touched: map<Word, int>, clock: int,
                                          prior: Option<Addr>, key: Bytes, value: Bytes, a: Addr, cas: Word)
    requires ValidConfig(cfg) && Inv(cfg, kv) && Ordered(kv, touched, clock)
    requires prior.Some? ==> prior.value in kv.tree && kv.tree[prior.value].hash == cfg.crc32(key)
    requires prior.None? ==> !HasHash(kv.tree, cfg.crc32(key))
    requires a !in kv.tree
    ensures Ordered(Replace(cfg, kv, prior, key, value, a, cas), touched[cfg.crc32(key) := clock], clock + 1)
  {
    var n := Node(key, cfg.crc32(key), value, Bump(cas));
    if prior.Some? {
      var p := prior.value;
      var kv1 := Remove(kv, p);
      RemoveInv(cfg, kv, p);
      RemoveOrdered(cfg, kv, touched, clock, p);
      forall b | b in kv1.tree ensures kv1.tree[b].hash != n.hash {
        assert SameHash(kv.tree, b, p) ==> b == p;
      }
      InsertOrdered(cfg, kv1, touched, clock, a, n, kv.nelts);
    } else {
      InsertOrdered(cfg, kv, touched, clock, a, n, kv.nelts + 1);
    }
  }

  lemma {:induction false} SetOrdered(cfg: Config, kv: Kv, touched: map<Word, int>, clock: int, key: Bytes,
                                      value: Option<Bytes>, cas: Word, refusals: nat, a: Addr)
    requires ValidConfig(cfg) && Inv(cfg, kv) && Ordered(kv, touched, clock)
    requires value.Some? ==> Allocates(cfg, kv, key, value.value, refusals, a)
    ensures var (r, kv') := Set(cfg, kv, key, value, cas, refusals, a);
            Ordered(kv', if r.Written? && value.Some? then touched[cfg.crc32(key) := clock] else touched, clock + 1)
  {
    var n := Lookup(kv, cfg.crc32(key));
    OrderedLater(kv, touched, clock);
    if cas == VersionAt(kv, n) {
      if value.None? {
        if n.Some? {
          RemoveOrdered(cfg, kv, touched, clock, n.value);
          OrderedLater(Remove(kv, n.value), touched, clock);
        }
      } else if n.Some? && |value.value| <= |kv.tree[n.value].value| {
        var node := kv.tree[n.value];
        RequeueOrdered(cfg, kv, touched, clock, n.value, node.(value := value.value, cas := Bump(node.cas)));
      } else {
        GrowOrdered(cfg, kv, touched, clock, n, key, value.value, refusals, a);
      }
    }
  }

  /** One call keeps everything. */
  lemma {:induction false} StepKeepsInv(cfg: Config, w: World, op: Op)
    requires ValidConfig(cfg) && WorldInv(cfg, w) && Legal(cfg, w, op)
    ensures WorldInv(cfg, Step(cfg, w, op))
  {
    match op
    case GetOp(h) =>
      GetAgrees(cfg, w.kv, w.ref, h);
      GetOrdered(cfg, w.kv, w.touched, w.clock, h);
    case SetOp(key, value, cas, refusals, addr) =>
      SetAgrees(cfg, w.kv, w.ref, key, value, cas, refusals, addr);
      SetOrdered(cfg, w.kv, w.touched, w.clock, key, value, cas, refusals, addr);
  }

  ghost function Run(cfg: Config, w: World, ops: seq<Op>): (w': World)
    requires ValidConfig(cfg) && Sized(cfg, w)
    ensures Sized(cfg, w')
    decreases |ops|
  {
    if ops == [] then w else Run(cfg, Step(cfg, w, ops[0]), ops[1..])
  }

  /** Every call of `ops` is legal where it happens. */
  ghost predicate LegalRun(cfg: Config, w: World, ops: seq<Op>)
    requires ValidConfig(cfg) && Sized(cfg, w)
    decreases |ops|
  {
    ops == [] || (Legal(cfg, w, ops[0]) && LegalRun(cfg, Step(cfg, w, ops[0]), ops[1..]))
  }

  /** Any run of gets, writes, deletions and evictions keeps everything: no two nodes
      share a hash, the counter is the number of nodes, each node is in exactly the
      queue for its size, contents are those of a plain map under the same calls, and
      every queue is ordered by last use. */
  lemma {:induction false} RunKeepsInv(cfg: Config, w: World, ops: seq<Op>)
    requires ValidConfig(cfg) && WorldInv(cfg, w) && LegalRun(cfg, w, ops)
    ensures WorldInv(cfg, Run(cfg, w, ops))
    decreases |ops|
  {
    if ops != [] {
      StepKeepsInv(cfg, w, ops[0]);
      RunKeepsInv(cfg, Step(cfg, w, ops[0]), ops[1..]);
    }
  }

  function Start(cfg: Config): World
    requires ValidConfig(cfg)
  {
    World(Init(cfg), map[], map[], 0)
  }

  lemma {:induction false} StartInv(cfg: Config)
    requires ValidConfig(cfg)
    ensures WorldInv(cfg, Start(cfg))
  {
  }
}
