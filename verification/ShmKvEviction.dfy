/** Which entry a needed size evicts, told by the sizes and the times of last use alone:
    size classes are described by their chunks, and not by how they are computed. */
module ShmKvEviction {
  import opened Wrappers
  import opened Bytes
  import opened Queues
  import opened SlabClasses
  import opened ShmKv
  import opened ShmKvRuns
  import opened ShmKvHistory

  /** Chunks of class `c` hold `size` bytes, and those of the class below do not; the class
      past the last slot is for everything larger than a chunk. */
  predicate FitsClass(p: Pool, size: nat, c: nat)
    requires ValidPool(p)
  {
    && c <= Slots(p)
    && (c < Slots(p) ==> size <= ChunkSize(p, c))
    && (c > 0 ==> ChunkSize(p, c - 1) < size)
  }

  /** The bytes of an entry. */
  function EntrySize(cfg: Config, n: Node): nat {
    cfg.nodeSize + |n.key| + |n.value|
  }

  lemma {:induction false} FitsIsClass(p: Pool, size: nat, c: nat)
    requires ValidPool(p)
    ensures FitsClass(p, size, c) <==> c == SizeClass(p, size)
  {
    if FitsClass(p, size, c) {
      SizeClassUnique(p, size, c);
    }
    var _ := ClassFrom(p, size, 0);
  }

  /** An SLRU queue holds the entries whose whole size, node included, belongs in it. */
  lemma {:induction false} QueueHoldsClass(cfg: Config, kv: Kv, i: nat, a: Addr)
    requires ValidConfig(cfg) && Inv(cfg, kv) && cfg.eviction.Slru? && i < |kv.queues|
    ensures a in kv.queues[i] <==> a in kv.tree && FitsClass(cfg.pool, EntrySize(cfg, kv.tree[a]), i)
  {
    assert a in kv.queues[i] <==> Belongs(cfg, kv.tree, a, i);
    if a in kv.tree {
      FitsIsClass(cfg.pool, EntrySize(cfg, kv.tree[a]), i);
    }
  }

  /** Entry `a` does not come before the victim `v`, which is in class `cv`, when class `c`
      is needed: it is in a class searched later, or in the same one and touched later. */
  ghost predicate NotBefore(cfg: Config, kv: Kv, touched: map<Word, int>, c: nat, v: Addr, cv: nat, a: Addr, i: nat) {
    if i == cv then TouchedBefore(kv, touched, v, a)
    else if cv >= c then i < c || i > cv
    else i < cv
  }

  /** The SLRU victim for `size` bytes: the entry touched longest ago in the first class with
      an entry, going up from the class that fits the size, and then down from it.  There is
      no victim only if there is no entry. */
  lemma {:induction false} SlruVictim(cfg: Config, kv: Kv, touched: map<Word, int>, clock: int, size: nat, c: nat)
    returns (cv: nat)
    requires ValidConfig(cfg) && Inv(cfg, kv) && Ordered(kv, touched, clock) && cfg.eviction.Slru?
    requires FitsClass(cfg.pool, size, c)
    ensures match Victim(cfg, kv, size)
            case None => kv.tree == map[]
            case Some(v) =>
              && v in kv.tree && FitsClass(cfg.pool, EntrySize(cfg, kv.tree[v]), cv)
              && forall a, i: nat :: a in kv.tree && FitsClass(cfg.pool, EntrySize(cfg, kv.tree[a]), i) ==>
                   NotBefore(cfg, kv, touched, c, v, cv, a, i)
  {
    hide Inv, Ordered, Victim, SizeClass, FitsClass;
    ConfigQueues(cfg, kv);
    VictimExists(cfg, kv, size);
    VictimIsStalest(cfg, kv, touched, clock, size);
    FitsIsClass(cfg.pool, size, c);
    cv := 0;
    if Victim(cfg, kv, size).Some? {
      var v := Victim(cfg, kv, size).value;
      cv := QueueOf(cfg, kv.tree[v]);
      FitsIsClass(cfg.pool, EntrySize(cfg, kv.tree[v]), cv);
      forall a, i: nat | a in kv.tree && FitsClass(cfg.pool, EntrySize(cfg, kv.tree[a]), i)
        ensures NotBefore(cfg, kv, touched, c, v, cv, a, i)
      {
        FitsIsClass(cfg.pool, EntrySize(cfg, kv.tree[a]), i);
        assert QueueOf(cfg, kv.tree[a]) == i;
      }
    }
  }

  /** The LRU victim: the entry touched longest ago of all. */
  lemma {:induction false} LruVictim(cfg: Config, kv: Kv, touched: map<Word, int>, clock: int, size: nat)
    requires ValidConfig(cfg) && Inv(cfg, kv) && Ordered(kv, touched, clock) && cfg.eviction.Lru?
    ensures match Victim(cfg, kv, size)
            case None => kv.tree == map[]
            case Some(v) => v in kv.tree && forall a :: a in kv.tree ==> TouchedBefore(kv, touched, v, a)
  {
    hide Inv, Ordered, Victim;
    ConfigQueues(cfg, kv);
    VictimExists(cfg, kv, size);
    VictimIsStalest(cfg, kv, touched, clock, size);
    assert forall a :: a in kv.tree ==> QueueOf(cfg, kv.tree[a]) == 0;
  }

  /** A write of a new or longer value that is refused memory once evicts one victim, for the
      whole size of the new entry, and then takes the place of the prior entry; unless that
      was the victim. */
  lemma {:induction false} RefusedOnce(cfg: Config, kv: Kv, key: Bytes, value: Bytes, cas: Word, a: Addr, v: Addr)
    requires ValidConfig(cfg) && |kv.queues| == NQueues(cfg)
    requires var n := Lookup(kv, cfg.crc32(key));
             cas == VersionAt(kv, n) && (n.Some? ==> |value| > |kv.tree[n.value].value|)
    requires Victim(cfg, kv, cfg.nodeSize + |key| + |value|) == Some(v)
    ensures var n := Lookup(kv, cfg.crc32(key));
            var (reply, kv') := Set(cfg, kv, key, Some(value), cas, 1, a);
            if n == Some(v) then reply == ReplacedLost && kv'.tree == kv.tree - {v}
            else
              && reply == Written
              && kv'.tree == (kv.tree - {v} - (if n.Some? then {n.value} else {}))
                             [a := Node(key, cfg.crc32(key), value, if cas == 0xFFFF_FFFF then 0 else cas + 1)]
  {
    hide Evict, Victim, Replace, Requeue, Unlink, QueueOf;
    var n := Lookup(kv, cfg.crc32(key));
    EvictOne(cfg, kv, cfg.nodeSize + |key| + |value|, v);
    if n != Some(v) { ReplaceTree(cfg, Remove(kv, v), n, key, value, a, cas); }
  }

  lemma {:induction false} EvictOne(cfg: Config, kv: Kv, size: nat, v: Addr)
    requires ValidConfig(cfg) && |kv.queues| == NQueues(cfg) && Victim(cfg, kv, size) == Some(v)
    ensures Evict(cfg, kv, size, 1) == Evicted(Remove(kv, v), [v], true)
  {
    hide Victim;
    assert Evict(cfg, Remove(kv, v), size, 0) == Evicted(Remove(kv, v), [], true);
    assert [v] + [] == [v];
  }

  lemma {:induction false} ReplaceTree(cfg: Config, kv: Kv, prior: Option<Addr>, key: Bytes, value: Bytes, a: Addr,
                                       cas: Word)
    requires ValidConfig(cfg) && |kv.queues| == NQueues(cfg)
    ensures Replace(cfg, kv, prior, key, value, a, cas).tree
            == (kv.tree - (if prior.Some? then {prior.value} else {}))
               [a := Node(key, cfg.crc32(key), value, if cas == 0xFFFF_FFFF then 0 else cas + 1)]
  {
    hide QueueOf, Unlink;
    assert kv.tree - {} == kv.tree;
  }

  /** A write of a value that is not longer than the present one needs no memory: whatever the
      allocator would do, it evicts nothing, and changes the value and the version of its
      entry alone. */
  lemma {:induction false} ShortWriteInPlace(cfg: Config, kv: Kv, key: Bytes, value: Bytes, cas: Word, refusals: nat,
                                             a: Addr, p: Addr)
    requires ValidConfig(cfg) && |kv.queues| == NQueues(cfg)
    requires Lookup(kv, cfg.crc32(key)) == Some(p) && cas == kv.tree[p].cas && |value| <= |kv.tree[p].value|
    ensures var (reply, kv') := Set(cfg, kv, key, Some(value), cas, refusals, a);
            && reply == Written && kv'.nelts == kv.nelts
            && kv'.tree == kv.tree[p := Node(kv.tree[p].key, kv.tree[p].hash, value,
                                             if cas == 0xFFFF_FFFF then 0 else cas + 1)]
  {
  }

  /** Where the smallest chunk has 8 bytes and a page 4096: of an entry of 65 to 128 bytes and
      one of 513 to 1024, the second is evicted to make room for 513 to 1024 bytes, whichever
      was touched last. */
  lemma {:induction false} LargerEvictedFirst(cfg: Config, kv: Kv, n1: Node, n2: Node, size: nat)
    requires ValidConfig(cfg) && Inv(cfg, kv) && cfg.eviction.Slru? && cfg.pool == Pool(3, 12)
    requires kv.tree == map[1 := n1, 2 := n2]
    requires 64 < EntrySize(cfg, n1) <= 128 && 512 < EntrySize(cfg, n2) <= 1024 && 512 < size <= 1024
    ensures Victim(cfg, kv, size) == Some(2)
  {
    assert Pow2(6) == 64 && Pow2(7) == 128;
    assert Pow2(9) == 512 && Pow2(10) == 1024;
    FitsIsClass(cfg.pool, size, 7);
    FitsIsClass(cfg.pool, EntrySize(cfg, n1), 4);
    FitsIsClass(cfg.pool, EntrySize(cfg, n2), 7);
    var q := kv.queues[7];
    assert Belongs(cfg, kv.tree, 2, 7);
    assert q != [] && VictimClass(cfg, kv.queues, size) == Some(7);
    assert Belongs(cfg, kv.tree, q[|q| - 1], 7);
  }
}
