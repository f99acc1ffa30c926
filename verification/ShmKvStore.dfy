/** The key/value store as it is updated in place.  Each method is one function of the
    source, and its new state is the value that `ShmKv` defines. */
module ShmKvStore {
  import opened Wrappers
  import opened Bytes
  import opened Queues
  import opened SlabClasses
  import opened ShmKv
  import opened ShmKvRuns

  class Store {
    const cfg: Config
    var tree: map<Addr, Node>
    var nelts: int
    var queues: seq<seq<Addr>>

    ghost function State(): Kv
      reads this
    {
      Kv(tree, nelts, queues)
    }

    ghost predicate Valid()
      reads this
    {
      ValidConfig(cfg) && Inv(cfg, State())
    }

    constructor (cfg: Config)
      requires ValidConfig(cfg)
      ensures Valid() && this.cfg == cfg && State() == Init(cfg)
    {
      this.cfg := cfg;
      tree, nelts, queues := map[], 0, seq(NQueues(cfg), _ => []);
    }

    method RbtreeLookup(h: Word) returns (r: Option<Addr>)
      requires Valid()
      ensures r == Lookup(State(), h)
    {
      if a :| a in tree && tree[a].hash == h {
        LookupUnique(cfg, State(), a);
        return Some(a);
      }
      return None;
    }

    method QueueForNode(n: Node) returns (i: nat)
      requires ValidConfig(cfg) && Evicts(cfg)
      ensures i == QueueOf(cfg, n)
    {
      if cfg.eviction.Lru? {
        return 0;
      }
      i := SlruIndexForSize(cfg.pool, cfg.nodeSize + |n.key| + |n.value|);
    }

    /** Puts `a` at the head of the queue for its size. */
    method QueueInsertHead(a: Addr)
      requires ValidConfig(cfg) && Evicts(cfg) && a in tree && |queues| == NQueues(cfg)
      modifies `queues
      ensures queues == var i := QueueOf(cfg, tree[a]); old(queues)[i := [a] + old(queues)[i]]
    {
      var i := QueueForNode(tree[a]);
      queues := queues[i := [a] + queues[i]];
    }

    method GetLocked(h: Word) returns (r: Option<Node>)
      requires Valid()
      modifies `queues
      ensures Valid()
      ensures (r, State()) == Get(cfg, old(State()), h)
    {
      var n := RbtreeLookup(h);
      if n.None? {
        return None;
      }
      var a := n.value;
      if Evicts(cfg) {
        queues := Unlink(queues, a);
        QueueInsertHead(a);
      }
      RequeueInv(cfg, old(State()), a, tree[a]);
      assert tree[a := tree[a]] == tree;
      return Some(tree[a]);
    }

    /** Evicts the tail of queue `i`. */
    method QueueExpire(i: nat)
      requires Valid() && i < |queues| && queues[i] != []
      modifies this
      ensures Valid()
      ensures State() == Remove(old(State()), old(queues[i][|queues[i]| - 1]))
      ensures nelts == old(nelts) - 1
    {
      var node := queues[i][|queues[i]| - 1];
      assert Belongs(cfg, tree, node, i);
      RemoveInv(cfg, State(), node);
      queues := Unlink(queues, node);
      tree := tree - {node};
      nelts := nelts - 1;
    }

    method LruExpire(ghost size: nat) returns (ok: bool)
      requires Valid() && cfg.eviction.Lru?
      modifies this
      ensures Valid()
      ensures ok == Victim(cfg, old(State()), size).Some?
      ensures ok ==> State() == Remove(old(State()), Victim(cfg, old(State()), size).value) && nelts == old(nelts) - 1
      ensures !ok ==> State() == old(State())
    {
      if queues[0] == [] {
        return false;
      }
      QueueExpire(0);
      return true;
    }

    /** The first queue that is not empty: from `start` up, then from `start` down. */
    method FindQueue(start: nat) returns (r: Option<nat>)
      requires start <= |queues|
      ensures r == var up := ScanUp(queues, start); if up.Some? then up else ScanDown(queues, start)
    {
      var n := |queues|;
      var i: nat := start;
      while i < n
        invariant start <= i <= n
        invariant ScanUp(queues, start) == ScanUp(queues, i)
      {
        if queues[i] != [] {
          return Some(i);
        }
        i := i + 1;
      }
      i := start;
      while i > 0
        invariant i <= start
        invariant ScanDown(queues, start) == ScanDown(queues, i)
      {
        i := i - 1;
        if queues[i] != [] {
          return Some(i);
        }
      }
      return None;
    }

    method SlruExpire(size: nat) returns (ok: bool)
      requires Valid() && cfg.eviction.Slru?
      modifies this
      ensures Valid()
      ensures ok == Victim(cfg, old(State()), size).Some?
      ensures ok ==> State() == Remove(old(State()), Victim(cfg, old(State()), size).value) && nelts == old(nelts) - 1
      ensures !ok ==> State() == old(State())
    {
      var start := SlruIndexForSize(cfg.pool, size);
      var i := FindQueue(start);
      if i.None? {
        return false;
      }
      QueueExpire(i.value);
      return true;
    }

    /** The allocate-or-evict loop: the allocator refuses `refusals` times.  Each turn
        removes an entry, so the number of entries bounds the loop. */
    method MakeRoom(size: nat, refusals: nat, ghost kv: Kv) returns (ok: bool)
      requires ValidConfig(cfg) && Inv(cfg, kv) && State() == kv
      modifies this
      ensures ok == Evict(cfg, kv, size, refusals).ok
      ensures State() == Evict(cfg, kv, size, refusals).kv
    {
      var left := refusals;
      while left != 0
        invariant Valid()
        invariant var e, e' := Evict(cfg, kv, size, refusals), Evict(cfg, State(), size, left);
                  e.ok == e'.ok && e.kv == e'.kv
        decreases nelts
      {
        var expired := false;
        if cfg.eviction.Lru? {
          expired := LruExpire(size);
        } else if cfg.eviction.Slru? {
          expired := SlruExpire(size);
        }
        if !expired {
          return false;
        }
        left := left - 1;
      }
      return true;
    }

    /** `value.None?` asks for a deletion.  The allocator refuses `refusals` times and
        then returns `addr`. */
    method SetLocked(key: Bytes, value: Option<Bytes>, cas: Word, refusals: nat, addr: Addr)
        returns (reply: SetReply)
      requires Valid()
      requires value.Some? ==> Allocates(cfg, State(), key, value.value, refusals, addr)
      modifies this
      ensures Valid()
      ensures (reply, State()) == Set(cfg, old(State()), key, value, cas, refusals, addr)
    {
      SetInv(cfg, State(), key, value, cas, refusals, addr);
      var n := RbtreeLookup(cfg.crc32(key));
      if cas != (if n.None? then 0 else tree[n.value].cas) {
        return NotWritten;
      }
      if value.None? {
        if n.None? {
          return NotWritten;
        }
        DeleteNode(n.value);
        nelts := nelts - 1;
        return Written;
      }
      if n.Some? && |value.value| <= |tree[n.value].value| {
        Overwrite(n.value, value.value);
        return Written;
      }
      GrowUnfolds(cfg, State(), n, key, value.value, refusals, addr);
      reply := GrowLocked(n, key, value.value, refusals, addr, State());
    }

    /** The write of a new or longer value. */
    method GrowLocked(prior: Option<Addr>, key: Bytes, value: Bytes, refusals: nat, addr: Addr, ghost kv: Kv)
        returns (reply: SetReply)
      requires ValidConfig(cfg) && Inv(cfg, kv) && State() == kv
      requires prior.Some? ==> prior.value in kv.tree
      modifies this
      ensures var e := Evict(cfg, kv, NeededSize(cfg, key, value), refusals);
              if !e.ok then reply.NoMemory? && State() == e.kv
              else if prior.Some? && prior.value !in e.kv.tree then reply.ReplacedLost? && State() == e.kv
              else reply.Written? && State() == Replace(cfg, e.kv, prior, key, value, addr, VersionAt(kv, prior))
    {
      var cas := if prior.None? then 0 else tree[prior.value].cas;
      var size := NeededSize(cfg, key, value);
      var ok := MakeRoom(size, refusals, kv);
      reply := FinishGrow(ok, prior, key, value, addr, cas, Evict(cfg, kv, size, refusals).kv);
    }

    /** What follows the allocate-or-evict loop. */
    method FinishGrow(ok: bool, prior: Option<Addr>, key: Bytes, value: Bytes, addr: Addr, cas: Word, ghost kv: Kv)
        returns (reply: SetReply)
      requires ValidConfig(cfg) && |kv.queues| == NQueues(cfg) && State() == kv
      modifies this
      ensures if !ok then reply.NoMemory? && State() == kv
              else if prior.Some? && prior.value !in kv.tree then reply.ReplacedLost? && State() == kv
              else reply.Written? && State() == Replace(cfg, kv, prior, key, value, addr, cas)
    {
      if !ok {
        return NoMemory;
      }
      if prior.Some? && prior.value !in tree {
        return ReplacedLost;  // the source goes on with the freed node
      }
      InsertNode(prior, key, value, addr, cas, kv);
      return Written;
    }

    /** Unlinks the node from its queue, deletes it from the tree and frees it. */
    method DeleteNode(a: Addr)
      modifies `tree, `queues
      ensures State() == Remove(old(State()), a).(nelts := nelts)
    {
      queues := Unlink(queues, a);
      tree := tree - {a};
    }

    /** Writes a value that fits into its node. */
    method Overwrite(a: Addr, value: Bytes)
      requires ValidConfig(cfg) && |queues| == NQueues(cfg) && a in tree
      modifies `tree, `queues
      ensures var node := old(tree[a]).(value := value, cas := Bump(old(tree[a].cas)));
              State() == Requeue(cfg, old(State()).(tree := old(tree)[a := node]), a)
    {
      tree := tree[a := tree[a].(value := value)];
      if Evicts(cfg) {
        queues := Unlink(queues, a);
        QueueInsertHead(a);
      }
      tree := tree[a := tree[a].(cas := Bump(tree[a].cas))];
    }

    /** Fills the node just allocated at `a`, in place of `prior` if there is one. */
    method InsertNode(prior: Option<Addr>, key: Bytes, value: Bytes, a: Addr, cas: Word, ghost kv: Kv)
      requires ValidConfig(cfg) && |kv.queues| == NQueues(cfg) && State() == kv
      modifies this
      ensures State() == Replace(cfg, kv, prior, key, value, a, cas)
    {
      if prior.Some? {
        DeleteNode(prior.value);
      } else {
        nelts := nelts + 1;
      }
      tree := tree[a := Node(key, cfg.crc32(key), value, cas)];
      if Evicts(cfg) {
        QueueInsertHead(a);
      }
      tree := tree[a := tree[a].(cas := Bump(cas))];
    }
  }
}
