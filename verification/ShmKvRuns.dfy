/** Whole runs of the key/value store: it agrees with a plain map, its queues are
    ordered by last use, and versions behave as a compare-and-swap needs. */
module ShmKvRuns {
  import opened Wrappers
  import opened Bytes
  import opened Queues
  import opened ShmKv

  // ------------------------------------------------------- the reference map

  datatype Entry = Entry(key: Bytes, value: Bytes, cas: Word)

  function EntryOf(n: Node): Entry {
    Entry(n.key, n.value, n.cas)
  }

  /** The entry of node `n` is the one that `m` holds for its hash. */
  predicate Holds(m: map<Word, Entry>, n: Node) {
    n.hash in m && m[n.hash] == EntryOf(n)
  }

  /** The store and the map hold the same entries under the same hashes. */
  ghost predicate Agrees(kv: Kv, m: map<Word, Entry>) {
    && (forall a :: a in kv.tree ==> Holds(m, kv.tree[a]))
    && (forall h :: h in m ==> HasHash(kv.tree, h))
  }

  function Version(m: map<Word, Entry>, h: Word): Word {
    if h in m then m[h].cas else 0
  }

  /** A write to the map.  `gone` are the entries evicted for it, `ok` says whether
      memory was found in the end. */
  function RefSet(m: map<Word, Entry>, h: Word, key: Bytes, value: Option<Bytes>, cas: Word, gone: set<Word>,
                  ok: bool): (SetReply, map<Word, Entry>)
  {
    if cas != Version(m, h) then (NotWritten, m)
    else if value.None? then (if h in m then Written else NotWritten, m - {h})
    else if h in m && |value.value| <= |m[h].value| then
      (Written, m[h := Entry(m[h].key, value.value, Bump(cas))])
    else if !ok then (NoMemory, m - gone)
    else if h in m && h in gone then (ReplacedLost, m - gone)
    else (Written, (m - gone)[h := Entry(key, value.value, Bump(cas))])
  }

  /** Size of the node that a write of `value` under `key` needs. */
  function NeededSize(cfg: Config, key: Bytes, value: Bytes): nat {
    cfg.nodeSize + |key| + |value|
  }

  ghost function HashesOf(tree: map<Addr, Node>, q: seq<Addr>): set<Word> {
    set a | a in q && a in tree :: tree[a].hash
  }

  lemma {:induction false} LookupUnique(cfg: Config, kv: Kv, a: Addr)
    requires ValidConfig(cfg) && Inv(cfg, kv) && a in kv.tree
    ensures Lookup(kv, kv.tree[a].hash) == Some(a)
  {
    var r := Lookup(kv, kv.tree[a].hash);
    assert r.Some?;
    assert SameHash(kv.tree, a, r.value);
  }

  /** Removing a set of nodes removes their hashes from the map. */
  lemma {:induction false} AgreesAfterRemoval(cfg: Config, kv: Kv, m: map<Word, Entry>, kv': Kv, q: seq<Addr>)
    requires ValidConfig(cfg) && Inv(cfg, kv) && Inv(cfg, kv') && Agrees(kv, m)
    requires kv'.tree == kv.tree - Members(q)
    ensures Agrees(kv', m - HashesOf(kv.tree, q))
  {
    var m' := m - HashesOf(kv.tree, q);
    forall a | a in kv'.tree ensures Holds(m', kv'.tree[a]) {
      assert a !in Members(q) && kv'.tree[a] == kv.tree[a];
      assert Holds(m, kv.tree[a]);
      forall b | b in q && b in kv.tree ensures kv.tree[b].hash != kv.tree[a].hash {
        assert SameHash(kv.tree, a, b) ==> a == b;
      }
    }
    forall h: Word | h in m' ensures HasHash(kv'.tree, h) {
      assert HasHash(kv.tree, h);
      var a :| a in kv.tree && kv.tree[a].hash == h;
      assert a !in Members(q);
      assert a in kv'.tree;
    }
  }

  /** Storing a node at an address stores its entry under its hash. */
  lemma {:induction false} AgreesAfterStore(cfg: Config, kv: Kv, m: map<Word, Entry>, kv': Kv, a: Addr, n: Node)
    requires ValidConfig(cfg) && Inv(cfg, kv) && Inv(cfg, kv') && Agrees(kv, m)
    requires kv'.tree == kv.tree[a := n]
    requires a in kv.tree ==> kv.tree[a].hash == n.hash
    ensures Agrees(kv', m[n.hash := EntryOf(n)])
  {
    var m' := m[n.hash := EntryOf(n)];
    forall b | b in kv'.tree ensures Holds(m', kv'.tree[b]) {
      if b != a {
        assert Holds(m, kv.tree[b]);
        assert SameHash(kv'.tree, a, b) ==> a == b;
      }
    }
    forall h: Word | h in m' ensures HasHash(kv'.tree, h) {
      if h == n.hash {
        assert a in kv'.tree && kv'.tree[a].hash == h;
      } else {
        assert HasHash(kv.tree, h);
        var b :| b in kv.tree && kv.tree[b].hash == h;
        assert b in kv'.tree && kv'.tree[b].hash == h;
      }
    }
  }

  // ------------------------------------------------------------- single calls

  /** The address that the allocator may return: one that is not in use then. */
  ghost predicate Allocates(cfg: Config, kv: Kv, key: Bytes, value: Bytes, refusals: nat, a: Addr)
    requires ValidConfig(cfg) && |kv.queues| == NQueues(cfg)
  {
    a !in Evict(cfg, kv, NeededSize(cfg, key, value), refusals).kv.tree
  }

  lemma {:induction false} GrowUnfolds(cfg: Config, kv: Kv, prior: Option<Addr>, key: Bytes, value: Bytes,
                                       refusals: nat, a: Addr)
    requires ValidConfig(cfg) && |kv.queues| == NQueues(cfg)
    requires prior.Some? ==> prior.value in kv.tree
    ensures var e := Evict(cfg, kv, NeededSize(cfg, key, value), refusals);
            Grow(cfg, kv, prior, key, value, refusals, a) ==
            if !e.ok then (NoMemory, e.kv)
            else if prior.Some? && prior.value !in e.kv.tree then (ReplacedLost, e.kv)
            else (Written, Replace(cfg, e.kv, prior, key, value, a, VersionAt(kv, prior)))
  {
  }

  lemma {:induction false} GrowAgrees(cfg: Config, kv: Kv, m: map<Word, Entry>, prior: Option<Addr>, key: Bytes,
                                      value: Bytes, refusals: nat, a: Addr)
    requires ValidConfig(cfg) && Inv(cfg, kv) && Agrees(kv, m)
    requires prior == Lookup(kv, cfg.crc32(key))
    requires Allocates(cfg, kv, key, value, refusals, a)
    ensures var h := cfg.crc32(key);
            var e := Evict(cfg, kv, NeededSize(cfg, key, value), refusals);
            var gone := HashesOf(kv.tree, e.victims);
            var (r, kv') := Grow(cfg, kv, prior, key, value, refusals, a);
            && Inv(cfg, kv')
            && r == (if !e.ok then NoMemory else if h in m && h in gone then ReplacedLost else Written)
            && Agrees(kv', if r.Written? then (m - gone)[h := Entry(key, value, Bump(Version(m, h)))] else m - gone)
  {
    var h, size := cfg.crc32(key), NeededSize(cfg, key, value);
    assert |kv.queues| == NQueues(cfg);
    var e := Evict(cfg, kv, size, refusals);
    var cas := VersionAt(kv, prior);
    GrowUnfolds(cfg, kv, prior, key, value, refusals, a);
    assert a !in e.kv.tree;
    hide *;
    VersionOfPrior(kv, m, h);
    EvictInv(cfg, kv, size, refusals);
    EvictRemoves(cfg, kv, size, refusals);
    AgreesAfterRemoval(cfg, kv, m, e.kv, e.victims);
    if e.ok {
      if prior.Some? {
        PriorGone(cfg, kv, e.victims, prior.value);
        if prior.value in e.kv.tree {
          GrowWrites(cfg, e.kv, m - HashesOf(kv.tree, e.victims), prior, key, value, a, cas);
        }
      } else {
        NoHashAfterRemoval(kv.tree, Members(e.victims), h);
        GrowWrites(cfg, e.kv, m - HashesOf(kv.tree, e.victims), prior, key, value, a, cas);
      }
    }
  }

  lemma {:induction false} NoHashAfterRemoval(tree: map<Addr, Node>, s: set<Addr>, h: Word)
    requires !HasHash(tree, h)
    ensures !HasHash(tree - s, h)
  {
  }

  lemma {:induction false} VersionOfPrior(kv: Kv, m: map<Word, Entry>, h: Word)
    requires Agrees(kv, m)
    ensures Lookup(kv, h).Some? <==> h in m
    ensures Lookup(kv, h).Some? ==> m[h] == EntryOf(kv.tree[Lookup(kv, h).value])
    ensures Version(m, h) == VersionAt(kv, Lookup(kv, h))
  {
    var n := Lookup(kv, h);
    if n.Some? { assert Holds(m, kv.tree[n.value]); }
  }

  /** The replaced entry was evicted exactly when its hash is among the evicted ones. */
  lemma {:induction false} PriorGone(cfg: Config, kv: Kv, victims: seq<Addr>, a: Addr)
    requires ValidConfig(cfg) && Inv(cfg, kv) && a in kv.tree
    ensures kv.tree[a].hash in HashesOf(kv.tree, victims) <==> a in Members(victims)
  {
    if kv.tree[a].hash in HashesOf(kv.tree, victims) {
      var b :| b in victims && b in kv.tree && kv.tree[b].hash == kv.tree[a].hash;
      assert SameHash(kv.tree, a, b);
    }
  }

  /** The last part of a growing write, once memory was found. */
  lemma {:induction false} GrowWrites(cfg: Config, kv: Kv, m: map<Word, Entry>, prior: Option<Addr>, key: Bytes,
                                      value: Bytes, a: Addr, cas: Word)
    requires ValidConfig(cfg) && Inv(cfg, kv) && Agrees(kv, m)
    requires prior.Some? ==> prior.value in kv.tree && kv.tree[prior.value].hash == cfg.crc32(key)
    requires prior.None? ==> !HasHash(kv.tree, cfg.crc32(key))
    requires a !in kv.tree
    ensures var kv' := Replace(cfg, kv, prior, key, value, a, cas);
            && Inv(cfg, kv')
            && Agrees(kv', m[cfg.crc32(key) := Entry(key, value, Bump(cas))])
  {
    var h := cfg.crc32(key);
    var n := Node(key, h, value, Bump(cas));
    var kv1 := if prior.Some? then Remove(kv, prior.value) else kv;
    var m1 := if prior.Some? then m - {h} else m;
    var kv' := Insert(cfg, kv1, a, n, kv1.nelts + 1);
    assert kv' == Replace(cfg, kv, prior, key, value, a, cas) && a !in kv1.tree;
    assert EntryOf(n) == Entry(key, value, Bump(cas)) && kv'.tree == kv1.tree[a := n];
    assert m1[h := EntryOf(n)] == m[h := EntryOf(n)];
    if prior.Some? { RemoveLookedUp(cfg, kv, m, prior.value); }
    hide *;
    InsertInv(cfg, kv1, a, n);
    AgreesAfterStore(cfg, kv1, m1, kv', a, n);
  }

  /** Removing the one node of a hash. */
  lemma {:induction false} RemoveLookedUp(cfg: Config, kv: Kv, m: map<Word, Entry>, a: Addr)
    requires ValidConfig(cfg) && Inv(cfg, kv) && Agrees(kv, m) && a in kv.tree
    ensures var h := kv.tree[a].hash;
            var kv' := Remove(kv, a);
            Inv(cfg, kv') && Agrees(kv', m - {h}) && !HasHash(kv'.tree, h)
  {
    var h, kv' := kv.tree[a].hash, Remove(kv, a);
    RemoveInv(cfg, kv, a);
    assert Members([a]) == {a};
    AgreesAfterRemoval(cfg, kv, m, kv', [a]);
    assert HashesOf(kv.tree, [a]) == {h};
    forall b | b in kv'.tree ensures kv'.tree[b].hash != h {
      assert SameHash(kv.tree, b, a) ==> b == a;
    }
  }

  /** What a write evicts when it needs a new node. */
  function EvictFor(cfg: Config, kv: Kv, key: Bytes, value: Option<Bytes>, refusals: nat): Evicted
    requires ValidConfig(cfg) && |kv.queues| == NQueues(cfg)
  {
    if value.None? then Evicted(kv, [], true)
    else Evict(cfg, kv, NeededSize(cfg, key, value.value), refusals)
  }

  /** Every write does to the store what it does to the map: same reply, same
      contents; and the invariant is kept (the tree, counter and queues stay
      consistent even when the replaced entry was evicted). */
  lemma {:induction false} SetAgrees(cfg: Config, kv: Kv, m: map<Word, Entry>, key: Bytes, value: Option<Bytes>,
                                     cas: Word, refusals: nat, a: Addr)
    requires ValidConfig(cfg) && Inv(cfg, kv) && Agrees(kv, m)
    requires value.Some? ==> Allocates(cfg, kv, key, value.value, refusals, a)
    ensures var (r, kv') := Set(cfg, kv, key, value, cas, refusals, a);
            var e := EvictFor(cfg, kv, key, value, refusals);
            var (r', m') := RefSet(m, cfg.crc32(key), key, value, cas, HashesOf(kv.tree, e.victims), e.ok);
            r == r' && Inv(cfg, kv') && Agrees(kv', m')
  {
    var h := cfg.crc32(key);
    var n := Lookup(kv, h);
    VersionOfPrior(kv, m, h);
    if cas == Version(m, h) {
      if value.None? {
        DeleteAgrees(cfg, kv, m, h);
      } else if n.Some? && |value.value| <= |kv.tree[n.value].value| {
        ShrinkAgrees(cfg, kv, m, n.value, value.value);
      } else {
        GrowAgrees(cfg, kv, m, n, key, value.value, refusals, a);
      }
    }
  }

  lemma {:induction false} DeleteAgrees(cfg: Config, kv: Kv, m: map<Word, Entry>, h: Word)
    requires ValidConfig(cfg) && Inv(cfg, kv) && Agrees(kv, m)
    ensures Lookup(kv, h).Some? ==> Inv(cfg, Remove(kv, Lookup(kv, h).value))
                                    && Agrees(Remove(kv, Lookup(kv, h).value), m - {h})
    ensures Lookup(kv, h).None? ==> m - {h} == m
  {
    var n := Lookup(kv, h);
    VersionOfPrior(kv, m, h);
    if n.Some? {
      RemoveLookedUp(cfg, kv, m, n.value);
    }
  }

  lemma {:induction false} ShrinkAgrees(cfg: Config, kv: Kv, m: map<Word, Entry>, a: Addr, value: Bytes)
    requires ValidConfig(cfg) && Inv(cfg, kv) && Agrees(kv, m) && a in kv.tree
    ensures var node := kv.tree[a];
            var node' := node.(value := value, cas := Bump(node.cas));
            var kv' := Requeue(cfg, kv.(tree := kv.tree[a := node']), a);
            Inv(cfg, kv') && Agrees(kv', m[node.hash := EntryOf(node')])
  {
    var node := kv.tree[a];
    var node' := node.(value := value, cas := Bump(node.cas));
    RequeueInv(cfg, kv, a, node');
    AgreesAfterStore(cfg, kv, m, Requeue(cfg, kv.(tree := kv.tree[a := node']), a), a, node');
  }

  /** A lookup answers as the map does and leaves its contents alone. */
  lemma {:induction false} GetAgrees(cfg: Config, kv: Kv, m: map<Word, Entry>, h: Word)
    requires ValidConfig(cfg) && Inv(cfg, kv) && Agrees(kv, m)
    ensures var (r, kv') := Get(cfg, kv, h);
            && (r.Some? <==> h in m)
            && (r.Some? ==> EntryOf(r.value) == m[h])
            && Inv(cfg, kv') && Agrees(kv', m)
  {
    var n := Lookup(kv, h);
    VersionOfPrior(kv, m, h);
    if n.Some? {
      var node := kv.tree[n.value];
      RequeueInv(cfg, kv, n.value, node);
      assert kv.tree[n.value := node] == kv.tree;
      AgreesAfterStore(cfg, kv, m, Requeue(cfg, kv, n.value), n.value, node);
      assert m[h := EntryOf(node)] == m;
    }
  }

  ghost function Hashes(tree: map<Addr, Node>): (r: set<Word>)
    ensures forall h :: h in r <==> HasHash(tree, h)
  {
    set a | a in tree :: tree[a].hash
  }

  /** The map of what a store holds. */
  ghost function RefOf(kv: Kv): map<Word, Entry> {
    map h | h in Hashes(kv.tree) :: EntryOf(kv.tree[Lookup(kv, h).value])
  }

  lemma {:induction false} RefOfAgrees(cfg: Config, kv: Kv)
    requires ValidConfig(cfg) && Inv(cfg, kv)
    ensures Agrees(kv, RefOf(kv))
  {
    forall a | a in kv.tree ensures Holds(RefOf(kv), kv.tree[a]) {
      LookupUnique(cfg, kv, a);
      assert HasHash(kv.tree, kv.tree[a].hash);
    }
  }

  /** Every write keeps the tree, the counter and the queues consistent. */
  lemma {:induction false} SetInv(cfg: Config, kv: Kv, key: Bytes, value: Option<Bytes>, cas: Word, refusals: nat,
                                  a: Addr)
    requires ValidConfig(cfg) && Inv(cfg, kv)
    requires value.Some? ==> Allocates(cfg, kv, key, value.value, refusals, a)
    ensures Inv(cfg, Set(cfg, kv, key, value, cas, refusals, a).1)
  {
    RefOfAgrees(cfg, kv);
    SetAgrees(cfg, kv, RefOf(kv), key, value, cas, refusals, a);
  }
}
