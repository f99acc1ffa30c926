/** The shared-memory key/value store, as a value: the nodes of the rbtree by
    address, the element counter, and the eviction queues (one for LRU, one per slab
    size class for SLRU, none without eviction).  Each function is one `_locked`
    call, taken as an atomic step. */
module ShmKv {
  import opened Wrappers
  import opened Bytes
  import opened Queues
  import opened SlabClasses

  datatype Eviction = Lru | Slru | NoEviction

  /** `crc32` is any hash: the store only relies on it being a function of the key. */
  datatype Config = Config(eviction: Eviction, pool: Pool, nodeSize: nat, crc32: Bytes -> Word)

  datatype Node = Node(key: Bytes, hash: Word, value: Bytes, cas: Word)

  datatype Kv = Kv(tree: map<Addr, Node>, nelts: int, queues: seq<seq<Addr>>)

  predicate Evicts(cfg: Config) {
    !cfg.eviction.NoEviction?
  }

  predicate ValidConfig(cfg: Config) {
    ValidPool(cfg.pool)
  }

  /** NGX_WASM_SLRU_NQUEUES for SLRU. */
  function NQueues(cfg: Config): (n: nat)
    requires ValidConfig(cfg)
  {
    match cfg.eviction
    case Lru => 1
    case Slru => Slots(cfg.pool) + 1
    case NoEviction => 0
  }

  /** The queue for an entry whose key and value take `len` bytes. */
  function QueueForLen(cfg: Config, len: nat): (i: nat)
    requires ValidConfig(cfg)
    ensures Evicts(cfg) ==> i < NQueues(cfg)
  {
    if cfg.eviction.Slru? then SizeClass(cfg.pool, cfg.nodeSize + len) else 0
  }

  function QueueOf(cfg: Config, n: Node): (i: nat)
    requires ValidConfig(cfg)
    ensures Evicts(cfg) ==> i < NQueues(cfg)
  {
    QueueForLen(cfg, |n.key| + |n.value|)
  }

  function Init(cfg: Config): Kv
    requires ValidConfig(cfg)
  {
    Kv(map[], 0, seq(NQueues(cfg), _ => []))
  }

  // ----------------------------------------------------------- single steps

  ghost predicate HasHash(tree: map<Addr, Node>, h: Word) {
    exists a :: a in tree && tree[a].hash == h
  }

  /** The tree compares hashes only. */
  ghost function Lookup(kv: Kv, h: Word): (r: Option<Addr>)
    ensures r.Some? <==> HasHash(kv.tree, h)
    ensures r.Some? ==> r.value in kv.tree && kv.tree[r.value].hash == h
  {
    if HasHash(kv.tree, h) then
      var a :| a in kv.tree && kv.tree[a].hash == h;
      Some(a)
    else None
  }

  /** Takes `a` out of whichever queue it is in. */
  function Unlink(queues: seq<seq<Addr>>, a: Addr): (r: seq<seq<Addr>>)
    ensures |r| == |queues|
    ensures forall i :: 0 <= i < |r| ==> r[i] == Without(queues[i], a)
  {
    seq(|queues|, i requires 0 <= i < |queues| => Without(queues[i], a))
  }

  /** Moves `a` to the head of the queue for its present size. */
  function Requeue(cfg: Config, kv: Kv, a: Addr): Kv
    requires ValidConfig(cfg) && a in kv.tree && |kv.queues| == NQueues(cfg)
  {
    if !Evicts(cfg) then kv
    else
      var qs := Unlink(kv.queues, a);
      var i := QueueOf(cfg, kv.tree[a]);
      kv.(queues := qs[i := [a] + qs[i]])
  }

  ghost function Get(cfg: Config, kv: Kv, h: Word): (Option<Node>, Kv)
    requires ValidConfig(cfg) && |kv.queues| == NQueues(cfg)
  {
    match Lookup(kv, h)
    case None => (None, kv)
    case Some(a) => (Some(kv.tree[a]), Requeue(cfg, kv, a))
  }

  /** Unlinks, deletes and frees the node at `a`. */
  function Remove(kv: Kv, a: Addr): Kv {
    Kv(kv.tree - {a}, kv.nelts - 1, Unlink(kv.queues, a))
  }

  function ScanUp(queues: seq<seq<Addr>>, i: nat): (r: Option<nat>)
    ensures r.Some? ==> i <= r.value < |queues| && queues[r.value] != []
    decreases |queues| - i
  {
    if i >= |queues| then None
    else if queues[i] != [] then Some(i)
    else ScanUp(queues, i + 1)
  }

  function ScanDown(queues: seq<seq<Addr>>, i: nat): (r: Option<nat>)
    requires i <= |queues|
    ensures r.Some? ==> r.value < i && queues[r.value] != []
  {
    if i == 0 then None
    else if queues[i - 1] != [] then Some(i - 1)
    else ScanDown(queues, i - 1)
  }

  /** All queues passed over on the way up were empty. */
  lemma {:induction false} ScanUpPasses(queues: seq<seq<Addr>>, i: nat)
    requires i <= |queues|
    ensures var r := ScanUp(queues, i);
            forall c :: i <= c < (if r.Some? then r.value else |queues|) ==> queues[c] == []
    decreases |queues| - i
  {
    if i < |queues| && queues[i] == [] { ScanUpPasses(queues, i + 1); }
  }

  /** All queues passed over on the way down were empty. */
  lemma {:induction false} ScanDownPasses(queues: seq<seq<Addr>>, i: nat)
    requires i <= |queues|
    ensures var r := ScanDown(queues, i);
            forall c :: (if r.Some? then r.value else -1) < c < i ==> queues[c] == []
  {
    if i > 0 && queues[i - 1] == [] { ScanDownPasses(queues, i - 1); }
  }

  /** First class searched when `size` bytes are needed. */
  function StartClass(cfg: Config, size: nat): (i: nat)
    requires ValidConfig(cfg)
    ensures Evicts(cfg) ==> i < NQueues(cfg)
  {
    if cfg.eviction.Slru? then SizeClass(cfg.pool, size) else 0
  }

  /** The queue whose tail is evicted to make room for `size` bytes. */
  function VictimClass(cfg: Config, queues: seq<seq<Addr>>, size: nat): (r: Option<nat>)
    requires ValidConfig(cfg) && |queues| == NQueues(cfg)
    ensures r.Some? ==> r.value < |queues| && queues[r.value] != []
  {
    if !Evicts(cfg) then None
    else
      var start := StartClass(cfg, size);
      var up := ScanUp(queues, start);
      if up.Some? then up else ScanDown(queues, start)
  }

  function Victim(cfg: Config, kv: Kv, size: nat): Option<Addr>
    requires ValidConfig(cfg) && |kv.queues| == NQueues(cfg)
  {
    match VictimClass(cfg, kv.queues, size)
    case None => None
    case Some(i) => Some(kv.queues[i][|kv.queues[i]| - 1])
  }

  datatype Evicted = Evicted(kv: Kv, victims: seq<Addr>, ok: bool)

  /** The allocate-or-evict loop against an allocator that refuses `refusals` times. */
  function Evict(cfg: Config, kv: Kv, size: nat, refusals: nat): (r: Evicted)
    requires ValidConfig(cfg) && |kv.queues| == NQueues(cfg)
    ensures |r.kv.queues| == |kv.queues|
    decreases refusals
  {
    if refusals == 0 then Evicted(kv, [], true)
    else match Victim(cfg, kv, size)
      case None => Evicted(kv, [], false)
      case Some(v) =>
        var rest := Evict(cfg, Remove(kv, v), size, refusals - 1);
        rest.(victims := [v] + rest.victims)
  }

  datatype SetReply = Written | NotWritten | NoMemory
    | ReplacedLost  // the entry being replaced was itself evicted

  function Bump(cas: Word): Word {
    if cas + 1 == U32 then 0 else cas + 1
  }

  /** Puts a node that was just allocated at `a` into the tree and its queue. */
  function Insert(cfg: Config, kv: Kv, a: Addr, n: Node, nelts: int): Kv
    requires ValidConfig(cfg) && |kv.queues| == NQueues(cfg)
  {
    var i := QueueOf(cfg, n);
    var qs := if Evicts(cfg) then kv.queues[i := [a] + kv.queues[i]] else kv.queues;
    Kv(kv.tree[a := n], nelts, qs)
  }

  /** The version a writer must present. */
  function VersionAt(kv: Kv, n: Option<Addr>): Word
    requires n.Some? ==> n.value in kv.tree
  {
    if n.None? then 0 else kv.tree[n.value].cas
  }

  /** Node `a` takes the place of `prior`, if there is one. */
  function Replace(cfg: Config, kv: Kv, prior: Option<Addr>, key: Bytes, value: Bytes, a: Addr, cas: Word): (r: Kv)
    requires ValidConfig(cfg) && |kv.queues| == NQueues(cfg)
    ensures |r.queues| == |kv.queues|
  {
    var n := Node(key, cfg.crc32(key), value, Bump(cas));
    if prior.Some? then Insert(cfg, Remove(kv, prior.value), a, n, kv.nelts)
    else Insert(cfg, kv, a, n, kv.nelts + 1)
  }

  /** The write of a new or longer value, with the node `prior` it replaces, if any.
      The allocator refuses `refusals` times and then returns `a`. */
  function Grow(cfg: Config, kv: Kv, prior: Option<Addr>, key: Bytes, value: Bytes, refusals: nat,
                a: Addr): (r: (SetReply, Kv))
    requires ValidConfig(cfg) && |kv.queues| == NQueues(cfg)
    requires prior.Some? ==> prior.value in kv.tree
    ensures |r.1.queues| == |kv.queues|
  {
    var e := Evict(cfg, kv, cfg.nodeSize + |key| + |value|, refusals);
    if !e.ok then (NoMemory, e.kv)
    else if prior.Some? && prior.value !in e.kv.tree then (ReplacedLost, e.kv)
    else
      (Written, Replace(cfg, e.kv, prior, key, value, a, VersionAt(kv, prior)))
  }

  /** `value.None?` asks for a deletion. */
  ghost function Set(cfg: Config, kv: Kv, key: Bytes, value: Option<Bytes>, cas: Word, refusals: nat,
                     a: Addr): (r: (SetReply, Kv))
    requires ValidConfig(cfg) && |kv.queues| == NQueues(cfg)
    ensures |r.1.queues| == |kv.queues|
  {
    var n := Lookup(kv, cfg.crc32(key));
    if cas != VersionAt(kv, n) then (NotWritten, kv)
    else if value.None? then
      if n.Some? then (Written, Remove(kv, n.value)) else (NotWritten, kv)
    else if n.Some? && |value.value| <= |kv.tree[n.value].value| then
      var node := kv.tree[n.value];
      var node' := node.(value := value.value, cas := Bump(node.cas));
      (Written, Requeue(cfg, kv.(tree := kv.tree[n.value := node']), n.value))
    else Grow(cfg, kv, n, key, value.value, refusals, a)
  }

  // -------------------------------------------------------------- invariant

  /** Node `a` exists and belongs in queue `i`. */
  ghost predicate Belongs(cfg: Config, tree: map<Addr, Node>, a: Addr, i: nat)
    requires ValidConfig(cfg)
  {
    a in tree && QueueOf(cfg, tree[a]) == i
  }

  ghost predicate SameHash(tree: map<Addr, Node>, a: Addr, b: Addr) {
    a in tree && b in tree && tree[a].hash == tree[b].hash
  }

  /** Every stored hash is that of the key, and no two nodes share one. */
  ghost predicate TreeInv(cfg: Config, tree: map<Addr, Node>) {
    && (forall a :: a in tree ==> tree[a].hash == cfg.crc32(tree[a].key))
    && (forall a, b :: SameHash(tree, a, b) ==> a == b)
  }

  /** Every queue holds, once each, exactly the nodes that belong in it. */
  ghost predicate QueuesInv(cfg: Config, tree: map<Addr, Node>, queues: seq<seq<Addr>>)
    requires ValidConfig(cfg)
  {
    && |queues| == NQueues(cfg)
    && (forall i :: 0 <= i < |queues| ==> NoDup(queues[i]))
    && (forall i, a :: 0 <= i < |queues| ==> (a in queues[i] <==> Belongs(cfg, tree, a, i)))
  }

  /** The tree, the counter and the queues agree. */
  ghost predicate Inv(cfg: Config, kv: Kv)
    requires ValidConfig(cfg)
  {
    kv.nelts == |kv.tree| && TreeInv(cfg, kv.tree) && QueuesInv(cfg, kv.tree, kv.queues)
  }

  lemma {:induction false} InitInv(cfg: Config)
    requires ValidConfig(cfg)
    ensures Inv(cfg, Init(cfg))
  {
  }

  lemma {:induction false} RemoveInv(cfg: Config, kv: Kv, a: Addr)
    requires ValidConfig(cfg) && Inv(cfg, kv) && a in kv.tree
    ensures Inv(cfg, Remove(kv, a))
  {
    var tree', queues' := kv.tree - {a}, Unlink(kv.queues, a);
    assert tree'.Keys == kv.tree.Keys - {a};
    assert TreeInv(cfg, tree') by {
      assert forall b, c :: SameHash(tree', b, c) ==> SameHash(kv.tree, b, c);
    }
    assert QueuesInv(cfg, tree', queues') by {
      forall i | 0 <= i < |queues'| ensures NoDup(queues'[i]) {
        WithoutNoDup(kv.queues[i], a);
      }
      forall i, b | 0 <= i < |queues'| ensures b in queues'[i] <==> Belongs(cfg, tree', b, i) {
        assert b in kv.queues[i] <==> Belongs(cfg, kv.tree, b, i);
      }
    }
  }

  /** The queues after node `a` became `n` and went to the head of its queue. */
  lemma {:induction false} RelinkInv(cfg: Config, tree: map<Addr, Node>, queues: seq<seq<Addr>>, a: Addr, n: Node)
    requires ValidConfig(cfg) && Evicts(cfg) && |queues| == NQueues(cfg)
    requires forall i :: 0 <= i < |queues| ==> NoDup(queues[i]) && a !in queues[i]
    requires forall i, b :: 0 <= i < |queues| && b != a ==> (b in queues[i] <==> Belongs(cfg, tree, b, i))
    ensures var c := QueueOf(cfg, n);
            QueuesInv(cfg, tree[a := n], queues[c := [a] + queues[c]])
  {
    var c := QueueOf(cfg, n);
    var tree', queues' := tree[a := n], queues[c := [a] + queues[c]];
    forall i | 0 <= i < |queues'| ensures NoDup(queues'[i]) {
      if i == c { assert queues'[i][1..] == queues[i]; }
    }
    forall i, b | 0 <= i < |queues'| ensures b in queues'[i] <==> Belongs(cfg, tree', b, i) {
      if b != a { assert Belongs(cfg, tree', b, i) <==> Belongs(cfg, tree, b, i); }
    }
  }

  /** Whatever value and version node `a` is given, requeueing it restores the invariant. */
  lemma {:induction false} RequeueInv(cfg: Config, kv: Kv, a: Addr, n: Node)
    requires ValidConfig(cfg) && Inv(cfg, kv) && a in kv.tree
    requires n.hash == kv.tree[a].hash && n.key == kv.tree[a].key
    ensures Inv(cfg, Requeue(cfg, kv.(tree := kv.tree[a := n]), a))
  {
    var tree' := kv.tree[a := n];
    assert tree'.Keys == kv.tree.Keys;
    assert TreeInv(cfg, tree') by {
      assert forall b, c :: SameHash(tree', b, c) ==> SameHash(kv.tree, b, c);
    }
    if Evicts(cfg) {
      var qs := Unlink(kv.queues, a);
      forall i | 0 <= i < |qs| ensures NoDup(qs[i]) && a !in qs[i] {
        WithoutNoDup(kv.queues[i], a);
      }
      RelinkInv(cfg, kv.tree, qs, a, n);
    }
  }

  lemma {:induction false} InsertInv(cfg: Config, kv: Kv, a: Addr, n: Node)
    requires ValidConfig(cfg) && Inv(cfg, kv) && a !in kv.tree
    requires n.hash == cfg.crc32(n.key)
    requires !HasHash(kv.tree, n.hash)
    ensures Inv(cfg, Insert(cfg, kv, a, n, kv.nelts + 1))
  {
    var tree' := kv.tree[a := n];
    assert tree'.Keys == kv.tree.Keys + {a};
    assert TreeInv(cfg, tree') by {
      assert forall b, c :: SameHash(tree', b, c) ==> SameHash(kv.tree, b, c) || b == c;
    }
    if Evicts(cfg) {
      assert forall i :: 0 <= i < |kv.queues| ==> a !in kv.queues[i] by {
        assert forall i :: 0 <= i < |kv.queues| ==> !Belongs(cfg, kv.tree, a, i);
      }
      RelinkInv(cfg, kv.tree, kv.queues, a, n);
    }
  }

  // ----------------------------------------------------- the order of eviction

  function OrderUp(queues: seq<seq<Addr>>, i: nat): seq<Addr>
    decreases |queues| - i
  {
    if i >= |queues| then [] else FromTail(queues[i]) + OrderUp(queues, i + 1)
  }

  function OrderDown(queues: seq<seq<Addr>>, i: nat): seq<Addr>
    requires i <= |queues|
  {
    if i == 0 then [] else FromTail(queues[i - 1]) + OrderDown(queues, i - 1)
  }

  /** The order in which entries go when room for `size` bytes is needed: each queue
      from its tail, the class that fits first, then larger ones, then smaller ones. */
  function EvictionOrder(cfg: Config, kv: Kv, size: nat): seq<Addr>
    requires ValidConfig(cfg) && |kv.queues| == NQueues(cfg)
  {
    if !Evicts(cfg) then []
    else
      var start := StartClass(cfg, size);
      OrderUp(kv.queues, start) + OrderDown(kv.queues, start)
  }

  ghost predicate InFrom(queues: seq<seq<Addr>>, i: nat, a: Addr) {
    exists c :: i <= c < |queues| && a in queues[c]
  }

  ghost predicate InBelow(queues: seq<seq<Addr>>, i: nat, a: Addr)
    requires i <= |queues|
  {
    exists c :: 0 <= c < i && a in queues[c]
  }

  lemma {:induction false} OrderUpMembers(queues: seq<seq<Addr>>, i: nat, a: Addr)
    ensures a in OrderUp(queues, i) <==> InFrom(queues, i, a)
    decreases |queues| - i
  {
    if i < |queues| {
      OrderUpMembers(queues, i + 1, a);
      var q, rest := FromTail(queues[i]), OrderUp(queues, i + 1);
      assert a in OrderUp(queues, i) <==> a in q || a in rest;
      if InFrom(queues, i, a) {
        var c :| i <= c < |queues| && a in queues[c];
        assert c == i || InFrom(queues, i + 1, a);
      }
    }
  }

  lemma {:induction false} OrderDownMembers(queues: seq<seq<Addr>>, i: nat, a: Addr)
    requires i <= |queues|
    ensures a in OrderDown(queues, i) <==> InBelow(queues, i, a)
  {
    if i > 0 {
      OrderDownMembers(queues, i - 1, a);
      var q, rest := FromTail(queues[i - 1]), OrderDown(queues, i - 1);
      assert a in OrderDown(queues, i) <==> a in q || a in rest;
      if InBelow(queues, i, a) {
        var c :| 0 <= c < i && a in queues[c];
        assert c == i - 1 || InBelow(queues, i - 1, a);
      }
    }
  }

  ghost predicate Disjoint(queues: seq<seq<Addr>>) {
    && (forall i :: 0 <= i < |queues| ==> NoDup(queues[i]))
    && (forall i, j, a :: 0 <= i < |queues| && 0 <= j < |queues| && a in queues[i] && a in queues[j] ==> i == j)
  }

  lemma {:induction false} QueuesDisjoint(cfg: Config, kv: Kv)
    requires ValidConfig(cfg) && Inv(cfg, kv)
    ensures Disjoint(kv.queues)
  {
    forall i, j, a | 0 <= i < |kv.queues| && 0 <= j < |kv.queues| && a in kv.queues[i] && a in kv.queues[j]
      ensures i == j
    {
      assert Belongs(cfg, kv.tree, a, i) && Belongs(cfg, kv.tree, a, j);
    }
  }

  lemma {:induction false} OrderUpNoDup(queues: seq<seq<Addr>>, i: nat)
    requires Disjoint(queues)
    ensures NoDup(OrderUp(queues, i))
    decreases |queues| - i
  {
    if i < |queues| {
      OrderUpNoDup(queues, i + 1);
      FromTailNoDup(queues[i]);
      forall a | a in queues[i] ensures a !in OrderUp(queues, i + 1) {
        OrderUpMembers(queues, i + 1, a);
      }
      AppendNoDup(FromTail(queues[i]), OrderUp(queues, i + 1));
    }
  }

  lemma {:induction false} OrderDownNoDup(queues: seq<seq<Addr>>, i: nat)
    requires Disjoint(queues) && i <= |queues|
    ensures NoDup(OrderDown(queues, i))
  {
    if i > 0 {
      OrderDownNoDup(queues, i - 1);
      FromTailNoDup(queues[i - 1]);
      var q, down := queues[i - 1], OrderDown(queues, i - 1);
      forall a | a in q ensures a !in down {
        OrderDownMembers(queues, i - 1, a);
      }
      AppendNoDup(FromTail(queues[i - 1]), OrderDown(queues, i - 1));
    }
  }

  /** The eviction order lists every entry exactly once. */
  lemma {:induction false} OrderListsAll(cfg: Config, kv: Kv, size: nat)
    requires ValidConfig(cfg) && Inv(cfg, kv) && Evicts(cfg)
    ensures var o := EvictionOrder(cfg, kv, size);
            && NoDup(o)
            && (forall a :: a in o <==> a in kv.tree)
            && |o| == kv.nelts
  {
    var start := StartClass(cfg, size);
    var up, down := OrderUp(kv.queues, start), OrderDown(kv.queues, start);
    var o := EvictionOrder(cfg, kv, size);
    QueuesDisjoint(cfg, kv);
    OrderUpNoDup(kv.queues, start);
    OrderDownNoDup(kv.queues, start);
    forall a | a in up ensures a !in down {
      OrderUpMembers(kv.queues, start, a);
      OrderDownMembers(kv.queues, start, a);
    }
    AppendNoDup(up, down);
    forall a ensures a in o <==> a in kv.tree {
      OrderUpMembers(kv.queues, start, a);
      OrderDownMembers(kv.queues, start, a);
      if a in kv.tree {
        var c := QueueOf(cfg, kv.tree[a]);
        assert Belongs(cfg, kv.tree, a, c);
        assert a in kv.queues[c];
      }
      assert forall c :: 0 <= c < |kv.queues| && a in kv.queues[c] ==> Belongs(cfg, kv.tree, a, c);
    }
    NoDupCount(o, kv.tree.Keys);
  }

  lemma {:induction false} OrderUpSkips(queues: seq<seq<Addr>>, i: nat, c: nat)
    requires i <= c <= |queues|
    requires forall k :: i <= k < c ==> queues[k] == []
    ensures OrderUp(queues, i) == OrderUp(queues, c)
    decreases c - i
  {
    if i < c { OrderUpSkips(queues, i + 1, c); }
  }

  lemma {:induction false} OrderDownSkips(queues: seq<seq<Addr>>, i: nat, c: nat)
    requires c <= i <= |queues|
    requires forall k :: c <= k < i ==> queues[k] == []
    ensures OrderDown(queues, i) == OrderDown(queues, c)
    decreases i - c
  {
    if c < i { OrderDownSkips(queues, i - 1, c); }
  }

  lemma {:induction false} OrderUpAgrees(qs: seq<seq<Addr>>, qs': seq<seq<Addr>>, i: nat)
    requires |qs| == |qs'| && forall k :: i <= k < |qs| ==> qs[k] == qs'[k]
    ensures OrderUp(qs, i) == OrderUp(qs', i)
    decreases |qs| - i
  {
    if i < |qs| { OrderUpAgrees(qs, qs', i + 1); }
  }

  lemma {:induction false} OrderDownAgrees(qs: seq<seq<Addr>>, qs': seq<seq<Addr>>, i: nat)
    requires |qs| == |qs'| && i <= |qs| && forall k :: 0 <= k < i ==> qs[k] == qs'[k]
    ensures OrderDown(qs, i) == OrderDown(qs', i)
  {
    if i > 0 { OrderDownAgrees(qs, qs', i - 1); }
  }

  /** Unlinking the tail of one queue leaves the other queues alone. */
  lemma {:induction false} UnlinkTail(queues: seq<seq<Addr>>, c: nat)
    requires Disjoint(queues) && c < |queues| && queues[c] != []
    ensures Unlink(queues, queues[c][|queues[c]| - 1]) == queues[c := queues[c][..|queues[c]| - 1]]
  {
    var v := queues[c][|queues[c]| - 1];
    forall i | 0 <= i < |queues|
      ensures Unlink(queues, v)[i] == queues[c := queues[c][..|queues[c]| - 1]][i]
    {
      if i == c { WithoutLast(queues[c]); } else { WithoutAbsent(queues[i], v); }
    }
  }

  lemma {:induction false} Regroup(x: Addr, p: seq<Addr>, q: seq<Addr>, r: seq<Addr>)
    ensures (([x] + p) + q) + r == [x] + ((p + q) + r)
  {
  }

  lemma {:induction false} RegroupDown(x: Addr, q: seq<Addr>, r: seq<Addr>)
    ensures [] + (([x] + q) + r) == [x] + ([] + (q + r))
  {
  }

  lemma {:induction false} OrderUpAt(qs: seq<seq<Addr>>, c: nat)
    requires c < |qs| && qs[c] != []
    ensures OrderUp(qs, c) == ([qs[c][|qs[c]| - 1]] + FromTail(qs[c][..|qs[c]| - 1])) + OrderUp(qs, c + 1)
  {
  }

  lemma {:induction false} OrderDownAt(qs: seq<seq<Addr>>, c: nat)
    requires c < |qs| && qs[c] != []
    ensures OrderDown(qs, c + 1) == ([qs[c][|qs[c]| - 1]] + FromTail(qs[c][..|qs[c]| - 1])) + OrderDown(qs, c)
  {
  }

  lemma {:induction false} OrderUnfolds(qs: seq<seq<Addr>>, c: nat)
    requires c < |qs|
    ensures OrderUp(qs, c) == FromTail(qs[c]) + OrderUp(qs, c + 1)
    ensures OrderDown(qs, c + 1) == FromTail(qs[c]) + OrderDown(qs, c)
  {
  }

  lemma {:induction false} OrderUpEnds(qs: seq<seq<Addr>>)
    ensures OrderUp(qs, |qs|) == []
  {
  }

  lemma {:induction false} FirstGoingUp(qs: seq<seq<Addr>>, start: nat, c: nat)
    requires start <= c < |qs| && qs[c] != [] && forall k :: start <= k < c ==> qs[k] == []
    ensures var qs' := qs[c := qs[c][..|qs[c]| - 1]];
            OrderUp(qs, start) + OrderDown(qs, start)
            == [qs[c][|qs[c]| - 1]] + (OrderUp(qs', start) + OrderDown(qs', start))
  {
    hide OrderUp, OrderDown, FromTail;
    var qs' := qs[c := qs[c][..|qs[c]| - 1]];
    OrderUnfolds(qs', c);
    OrderUpSkips(qs, start, c);
    OrderUpSkips(qs', start, c);
    OrderUpAgrees(qs, qs', c + 1);
    OrderDownAgrees(qs, qs', start);
    OrderUpAt(qs, c);
    Regroup(qs[c][|qs[c]| - 1], FromTail(qs'[c]), OrderUp(qs, c + 1), OrderDown(qs, start));
  }

  lemma {:induction false} FirstGoingDown(qs: seq<seq<Addr>>, start: nat, c: nat)
    requires c < start <= |qs| && qs[c] != [] && forall k :: c < k < |qs| ==> qs[k] == []
    ensures var qs' := qs[c := qs[c][..|qs[c]| - 1]];
            OrderUp(qs, start) + OrderDown(qs, start)
            == [qs[c][|qs[c]| - 1]] + (OrderUp(qs', start) + OrderDown(qs', start))
  {
    hide OrderUp, OrderDown, FromTail;
    var qs' := qs[c := qs[c][..|qs[c]| - 1]];
    OrderUpSkips(qs, start, |qs|);
    OrderUpAgrees(qs, qs', start);
    OrderUpEnds(qs);
    OrderUnfolds(qs', c);
    OrderDownSkips(qs, start, c + 1);
    OrderDownSkips(qs', start, c + 1);
    OrderDownAgrees(qs, qs', c);
    OrderDownAt(qs, c);
    RegroupDown(qs[c][|qs[c]| - 1], FromTail(qs'[c]), OrderDown(qs, c));
  }

  /** The victim is the first of the order, and evicting it takes it off the front. */
  lemma {:induction false} VictimIsFirst(cfg: Config, kv: Kv, size: nat)
    requires ValidConfig(cfg) && Inv(cfg, kv)
    ensures Victim(cfg, kv, size).None? ==> EvictionOrder(cfg, kv, size) == []
    ensures Victim(cfg, kv, size).Some? ==>
              var v := Victim(cfg, kv, size).value;
              && v in kv.tree
              && EvictionOrder(cfg, kv, size) == [v] + EvictionOrder(cfg, Remove(kv, v), size)
  {
    if Evicts(cfg) {
      var qs, start := kv.queues, StartClass(cfg, size);
      ScanUpPasses(qs, start);
      ScanDownPasses(qs, start);
      match VictimClass(cfg, qs, size)
      case Some(c) =>
        assert Belongs(cfg, kv.tree, qs[c][|qs[c]| - 1], c);
        QueuesDisjoint(cfg, kv);
        UnlinkTail(qs, c);
        if ScanUp(qs, start).Some? { FirstGoingUp(qs, start, c); } else { FirstGoingDown(qs, start, c); }
      case None =>
        OrderUpSkips(qs, start, |qs|);
        OrderDownSkips(qs, start, 0);
    }
  }

  lemma {:induction false} VictimInTree(cfg: Config, kv: Kv, size: nat)
    requires ValidConfig(cfg) && Inv(cfg, kv)
    ensures Victim(cfg, kv, size).Some? ==> Victim(cfg, kv, size).value in kv.tree
  {
    var c := VictimClass(cfg, kv.queues, size);
    if c.Some? {
      var q := kv.queues[c.value];
      assert Belongs(cfg, kv.tree, q[|q| - 1], c.value);
    }
  }

  lemma {:induction false} VictimExists(cfg: Config, kv: Kv, size: nat)
    requires ValidConfig(cfg) && Inv(cfg, kv)
    ensures Victim(cfg, kv, size).None? && Evicts(cfg) ==> kv.tree == map[]
  {
    if Victim(cfg, kv, size).None? && Evicts(cfg) {
      VictimIsFirst(cfg, kv, size);
      OrderListsAll(cfg, kv, size);
      assert kv.tree.Keys == {};
    }
  }

  lemma {:induction false} EvictInv(cfg: Config, kv: Kv, size: nat, refusals: nat)
    requires ValidConfig(cfg) && Inv(cfg, kv)
    ensures Inv(cfg, Evict(cfg, kv, size, refusals).kv)
    decreases refusals
  {
    assert |kv.queues| == NQueues(cfg);
    var v := Victim(cfg, kv, size);
    if refusals > 0 && v.Some? {
      VictimInTree(cfg, kv, size);
      RemoveInv(cfg, kv, v.value);
      EvictInv(cfg, Remove(kv, v.value), size, refusals - 1);
    }
  }

  lemma {:induction false} EvictRemoves(cfg: Config, kv: Kv, size: nat, refusals: nat)
    requires ValidConfig(cfg) && |kv.queues| == NQueues(cfg)
    ensures var e := Evict(cfg, kv, size, refusals);
            && e.kv.tree == kv.tree - Members(e.victims)
            && (!e.ok ==> Victim(cfg, e.kv, size).None?)
    decreases refusals
  {
    var v := Victim(cfg, kv, size);
    if refusals > 0 && v.Some? {
      var kv1 := Remove(kv, v.value);
      EvictRemoves(cfg, kv1, size, refusals - 1);
      var e1 := Evict(cfg, kv1, size, refusals - 1);
      MembersCons(v.value, e1.victims);
      RemoveAll(kv.tree, v.value, Members(e1.victims));
    }
  }

  /** The whole eviction loop: the victims are the first entries of the eviction
      order, one per refusal; the loop gives up exactly when the allocator refuses
      more often than there are entries to evict. */
  lemma {:induction false} EvictTakesPrefix(cfg: Config, kv: Kv, size: nat, refusals: nat)
    requires ValidConfig(cfg) && Inv(cfg, kv)
    ensures var o := EvictionOrder(cfg, kv, size);
            var e := Evict(cfg, kv, size, refusals);
            && e.ok == (refusals <= |o|)
            && e.victims == Prefix(o, refusals)
    decreases refusals
  {
    var v := Victim(cfg, kv, size);
    if refusals > 0 {
      VictimIsFirst(cfg, kv, size);
      if v.Some? {
        RemoveInv(cfg, kv, v.value);
        var kv1 := Remove(kv, v.value);
        EvictTakesPrefix(cfg, kv1, size, refusals - 1);
        PrefixCons(v.value, EvictionOrder(cfg, kv1, size), refusals);
      }
    }
  }

  lemma {:induction false} EvictFails(cfg: Config, kv: Kv, size: nat, refusals: nat)
    requires ValidConfig(cfg) && Inv(cfg, kv) && Evicts(cfg)
    ensures Evict(cfg, kv, size, refusals).ok <==> refusals <= kv.nelts
    ensures !Evict(cfg, kv, size, refusals).ok ==> Evict(cfg, kv, size, refusals).kv.tree == map[]
  {
    assert |kv.queues| == NQueues(cfg);
    EvictInv(cfg, kv, size, refusals);
    EvictRemoves(cfg, kv, size, refusals);
    EvictTakesPrefix(cfg, kv, size, refusals);
    OrderListsAll(cfg, kv, size);
    VictimExists(cfg, Evict(cfg, kv, size, refusals).kv, size);
  }

  /** A store that evicts reports "no memory" only once it is empty. */
  lemma {:induction false} NoMemoryOnlyWhenEmpty(cfg: Config, kv: Kv, key: Bytes, value: Option<Bytes>, cas: Word,
                                                 refusals: nat, a: Addr)
    requires ValidConfig(cfg) && Inv(cfg, kv) && Evicts(cfg)
    ensures Set(cfg, kv, key, value, cas, refusals, a).0.NoMemory? ==>
              refusals > kv.nelts && Set(cfg, kv, key, value, cas, refusals, a).1.tree == map[]
  {
    assert |kv.queues| == NQueues(cfg);
    var n := Lookup(kv, cfg.crc32(key));
    if Set(cfg, kv, key, value, cas, refusals, a).0.NoMemory? {
      assert Set(cfg, kv, key, value, cas, refusals, a) == Grow(cfg, kv, n, key, value.value, refusals, a);
      GrowFails(cfg, kv, n, key, value.value, refusals, a);
    }
  }

  lemma {:induction false} GrowFails(cfg: Config, kv: Kv, prior: Option<Addr>, key: Bytes, value: Bytes,
                                     refusals: nat, a: Addr)
    requires ValidConfig(cfg) && Inv(cfg, kv) && Evicts(cfg)
    requires prior.Some? ==> prior.value in kv.tree
    ensures Grow(cfg, kv, prior, key, value, refusals, a).0.NoMemory? <==> refusals > kv.nelts
    ensures refusals > kv.nelts ==> Grow(cfg, kv, prior, key, value, refusals, a).1.tree == map[]
  {
    hide Inv, Evict;
    EvictFails(cfg, kv, cfg.nodeSize + |key| + |value|, refusals);
    ConfigQueues(cfg, kv);
  }

  lemma {:induction false} ConfigQueues(cfg: Config, kv: Kv)
    requires ValidConfig(cfg) && Inv(cfg, kv)
    ensures |kv.queues| == NQueues(cfg)
  {
  }

  ghost function Prefix(o: seq<Addr>, n: nat): seq<Addr> {
    if n <= |o| then o[..n] else o
  }

  lemma {:induction false} PrefixCons(v: Addr, o: seq<Addr>, n: nat)
    requires n > 0
    ensures [v] + Prefix(o, n - 1) == Prefix([v] + o, n)
  {
  }

  ghost function Members(q: seq<Addr>): set<Addr> {
    set a | a in q
  }

  lemma {:induction false} MembersCons(v: Addr, q: seq<Addr>)
    ensures Members([v] + q) == {v} + Members(q)
  {
  }

  lemma {:induction false} RemoveAll(tree: map<Addr, Node>, v: Addr, s: set<Addr>)
    ensures (tree - {v}) - s == tree - ({v} + s)
  {
  }
}
