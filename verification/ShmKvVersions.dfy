/** Versions of entries in the key/value store, as a compare-and-swap needs them. */
module ShmKvVersions {
  import opened Wrappers
  import opened Bytes
  import opened Queues
  import opened ShmKv
  import opened ShmKvRuns
  import opened ShmKvHistory

  /** The call writes a value under hash `h`, and does so. */
  ghost predicate Writes(cfg: Config, w: World, op: Op, h: Word)
    requires ValidConfig(cfg) && Sized(cfg, w)
  {
    op.SetOp? && op.value.Some? && cfg.crc32(op.key) == h && Reply(cfg, w, op).Written?
  }

  /** Number of successful writes under `h`. */
  ghost function WriteCount(cfg: Config, w: World, ops: seq<Op>, h: Word): nat
    requires ValidConfig(cfg) && Sized(cfg, w)
    decreases |ops|
  {
    if ops == [] then 0
    else (if Writes(cfg, w, ops[0], h) then 1 else 0) + WriteCount(cfg, Step(cfg, w, ops[0]), ops[1..], h)
  }

  /** Number of successful writes under `h` by writers that presented version `cas`. */
  ghost function WinCount(cfg: Config, w: World, ops: seq<Op>, h: Word, cas: Word): nat
    requires ValidConfig(cfg) && Sized(cfg, w)
    decreases |ops|
  {
    if ops == [] then 0
    else (if Writes(cfg, w, ops[0], h) && ops[0].cas == cas then 1 else 0)
         + WinCount(cfg, Step(cfg, w, ops[0]), ops[1..], h, cas)
  }

  /** The entry under `h` is neither deleted nor evicted along the run. */
  ghost predicate Stays(cfg: Config, w: World, ops: seq<Op>, h: Word)
    requires ValidConfig(cfg) && Sized(cfg, w)
    decreases |ops|
  {
    h in w.ref && (ops == [] || Stays(cfg, Step(cfg, w, ops[0]), ops[1..], h))
  }

  /** What a write to the map does to the version under `h`. */
  lemma {:induction false} RefSetVersion(m: map<Word, Entry>, k: Word, key: Bytes, value: Option<Bytes>, cas: Word,
                                         gone: set<Word>, ok: bool, h: Word)
    requires !RefSet(m, k, key, value, cas, gone, ok).0.ReplacedLost?
    ensures var (r, m') := RefSet(m, k, key, value, cas, gone, ok);
            if value.Some? && k == h && r.Written? then
              cas == Version(m, h) && h in m' && Version(m', h) == Bump(Version(m, h))
            else
              h in m' ==> h in m && m'[h] == m[h]
  {
  }

  /** A call on the store is a write to the map. */
  lemma {:induction false} StepIsRefSet(cfg: Config, w: World, op: Op)
    requires ValidConfig(cfg) && WorldInv(cfg, w) && Legal(cfg, w, op) && op.SetOp?
    ensures Reply(cfg, w, op) == RefReply(cfg, w, op) && !Reply(cfg, w, op).ReplacedLost?
  {
    hide Inv, Set, Evict, Agrees, Ordered, Hazard;
    ConfigQueues(cfg, w.kv);
    SetAgrees(cfg, w.kv, w.ref, op.key, op.value, op.cas, op.refusals, op.addr);
    ReplacedIsEvictedIff(cfg, w.kv, op.key, op.value, op.cas, op.refusals, op.addr);
    if op.value.None? { NoneLosesNothing(cfg, w.kv, op.key, op.cas, op.refusals, op.addr); }
  }

  ghost function RefReply(cfg: Config, w: World, op: Op): SetReply
    requires ValidConfig(cfg) && Sized(cfg, w) && op.SetOp?
  {
    var e := EvictFor(cfg, w.kv, op.key, op.value, op.refusals);
    RefSet(w.ref, cfg.crc32(op.key), op.key, op.value, op.cas, HashesOf(w.kv.tree, e.victims), e.ok).0
  }

  lemma {:induction false} NoneLosesNothing(cfg: Config, kv: Kv, key: Bytes, cas: Word, refusals: nat, a: Addr)
    requires ValidConfig(cfg) && |kv.queues| == NQueues(cfg)
    ensures !Set(cfg, kv, key, None, cas, refusals, a).0.ReplacedLost?
  {
  }

  /** The entry under `h` is deleted or evicted by the call. */
  ghost predicate Removes(cfg: Config, w: World, op: Op, h: Word)
    requires ValidConfig(cfg) && Sized(cfg, w)
  {
    h in w.ref && h !in Step(cfg, w, op).ref
  }

  /** One call: a successful write had the current version and adds one to it; a deletion
      or an eviction takes it back to zero; any other call leaves the entry. */
  lemma {:induction false} StepVersion(cfg: Config, w: World, op: Op, h: Word)
    requires ValidConfig(cfg) && WorldInv(cfg, w) && Legal(cfg, w, op)
    ensures var m, m' := w.ref, Step(cfg, w, op).ref;
            if Writes(cfg, w, op, h) then
              op.cas == Version(m, h) && h in m' && Version(m', h) == Bump(op.cas)
            else if Removes(cfg, w, op, h) then Version(m', h) == 0
            else (h in m' <==> h in m) && (h in m ==> m'[h] == m[h])
  {
    hide Inv, Set, Evict, Agrees, Ordered, Legal, Get, RefSet;
    ConfigQueues(cfg, w.kv);
    if op.SetOp? {
      StepIsRefSet(cfg, w, op);
      var e := EvictFor(cfg, w.kv, op.key, op.value, op.refusals);
      RefSetVersion(w.ref, cfg.crc32(op.key), op.key, op.value, op.cas, HashesOf(w.kv.tree, e.victims), e.ok, h);
    }
  }

  /** A write with a stale version changes nothing at all. */
  lemma {:induction false} StaleWriteIsInert(cfg: Config, w: World, op: Op)
    requires ValidConfig(cfg) && WorldInv(cfg, w) && op.SetOp?
    requires op.cas != Version(w.ref, cfg.crc32(op.key))
    ensures Reply(cfg, w, op).NotWritten?
    ensures Step(cfg, w, op) == w.(clock := w.clock + 1)
  {
    VersionOfPrior(w.kv, w.ref, cfg.crc32(op.key));
  }

  /** `v` after `n` increments. */
  function BumpBy(v: Word, n: nat): Word
    decreases n
  {
    if n == 0 then v else BumpBy(Bump(v), n - 1)
  }

  lemma {:induction false} BumpByIsModular(v: Word, n: nat)
    ensures BumpBy(v, n) == (v + n) % U32
    decreases n
  {
    if n > 0 {
      BumpByIsModular(Bump(v), n - 1);
      if v + 1 == U32 { assert (U32 + (n - 1)) % U32 == (n - 1) % U32; }
    }
  }

  /** While an entry stays, its version is its first one plus the number of
      successful writes, in 32-bit arithmetic. */
  lemma {:induction false} VersionCountsWrites(cfg: Config, w: World, ops: seq<Op>, h: Word)
    requires ValidConfig(cfg) && WorldInv(cfg, w) && LegalRun(cfg, w, ops) && Stays(cfg, w, ops, h)
    ensures Version(Run(cfg, w, ops).ref, h) == BumpBy(Version(w.ref, h), WriteCount(cfg, w, ops, h))
    decreases |ops|
  {
    hide WorldInv, Writes, Removes, Step, Legal;
    WorldSized(cfg, w);
    if ops != [] {
      StepKeepsInv(cfg, w, ops[0]);
      StepVersion(cfg, w, ops[0], h);
      StaysMeans(cfg, w, ops[0], ops[1..], h);
      VersionCountsWrites(cfg, Step(cfg, w, ops[0]), ops[1..], h);
    }
  }

  lemma {:induction false} StaysMeans(cfg: Config, w: World, op: Op, rest: seq<Op>, h: Word)
    requires ValidConfig(cfg) && Sized(cfg, w) && Stays(cfg, Step(cfg, w, op), rest, h)
    ensures !Removes(cfg, w, op, h)
  {
    hide Step;
  }

  /** How far version `v` is ahead of `cas`. */
  function Distance(v: Word, cas: Word): nat {
    if v >= cas then v - cas else v + U32 - cas
  }

  lemma {:induction false} NoWinAhead(cfg: Config, w: World, ops: seq<Op>, h: Word, cas: Word)
    requires ValidConfig(cfg) && WorldInv(cfg, w) && LegalRun(cfg, w, ops) && Stays(cfg, w, ops, h)
    requires 0 < Distance(Version(w.ref, h), cas) && Distance(Version(w.ref, h), cas) + |ops| <= U32
    ensures WinCount(cfg, w, ops, h, cas) == 0
    decreases |ops|
  {
    if ops != [] {
      StepKeepsInv(cfg, w, ops[0]);
      StepVersion(cfg, w, ops[0], h);
      var w1 := Step(cfg, w, ops[0]);
      assert Distance(Version(w1.ref, h), cas) <= Distance(Version(w.ref, h), cas) + 1;
      if |ops| > 1 {
        NoWinAhead(cfg, w1, ops[1..], h, cas);
      }
    }
  }

  /** Of any number of writers that read the same version of an entry, at most one
      succeeds, whatever other calls are interleaved with theirs, as long as the entry
      stays and the run is too short for the version to come round. */
  lemma {:induction false} AtMostOneWriterWins(cfg: Config, w: World, ops: seq<Op>, h: Word, cas: Word)
    requires ValidConfig(cfg) && WorldInv(cfg, w) && LegalRun(cfg, w, ops) && Stays(cfg, w, ops, h)
    requires cas == Version(w.ref, h) && |ops| < U32
    ensures WinCount(cfg, w, ops, h, cas) <= 1
    decreases |ops|
  {
    if ops != [] {
      StepKeepsInv(cfg, w, ops[0]);
      StepVersion(cfg, w, ops[0], h);
      var w1 := Step(cfg, w, ops[0]);
      if Writes(cfg, w, ops[0], h) {
        NoWinAhead(cfg, w1, ops[1..], h, cas);
      } else {
        AtMostOneWriterWins(cfg, w1, ops[1..], h, cas);
      }
    }
  }

  // ----------------------------------------------- across deletions and evictions

  /** Whether the entry under `h` was removed along the run, and the number of successful
      writes since it last was, or else since the start; continuing from `since`. */
  ghost function Since(cfg: Config, w: World, ops: seq<Op>, h: Word, since: (bool, nat)): (bool, nat)
    requires ValidConfig(cfg) && Sized(cfg, w)
    decreases |ops|
  {
    if ops == [] then since
    else
      var next := if Writes(cfg, w, ops[0], h) then (since.0, since.1 + 1)
                  else if Removes(cfg, w, ops[0], h) then (true, 0) else since;
      Since(cfg, Step(cfg, w, ops[0]), ops[1..], h, next)
  }

  lemma {:induction false} WorldSized(cfg: Config, w: World)
    requires ValidConfig(cfg) && WorldInv(cfg, w)
    ensures Sized(cfg, w)
  {
  }

  lemma {:induction false} SinceBound(cfg: Config, w: World, ops: seq<Op>, h: Word, since: (bool, nat))
    requires ValidConfig(cfg) && Sized(cfg, w)
    ensures Since(cfg, w, ops, h, since).1 <= since.1 + |ops|
    decreases |ops|
  {
    hide Writes, Removes, Step;
    if ops != [] {
      var next := if Writes(cfg, w, ops[0], h) then (since.0, since.1 + 1)
                  else if Removes(cfg, w, ops[0], h) then (true, 0) else since;
      SinceBound(cfg, Step(cfg, w, ops[0]), ops[1..], h, next);
    }
  }

  lemma {:induction false} BumpBySnoc(v: Word, n: nat)
    ensures BumpBy(v, n + 1) == Bump(BumpBy(v, n))
    decreases n
  {
    if n > 0 { BumpBySnoc(Bump(v), n - 1); }
  }

  /** The version of an entry after any run: the number of successful writes since it was
      last removed; and if it never was, its first version plus the number of writes. */
  lemma {:induction false} VersionLaw(cfg: Config, w: World, ops: seq<Op>, h: Word, v: Word, since: (bool, nat))
    requires ValidConfig(cfg) && WorldInv(cfg, w) && LegalRun(cfg, w, ops)
    requires Version(w.ref, h) == BumpBy(if since.0 then 0 else v, since.1)
    ensures var (removed, n) := Since(cfg, w, ops, h, since);
            Version(Run(cfg, w, ops).ref, h) == BumpBy(if removed then 0 else v, n)
    decreases |ops|
  {
    hide WorldInv, Writes, Removes, Step, Legal;
    WorldSized(cfg, w);
    if ops != [] {
      StepKeepsInv(cfg, w, ops[0]);
      StepVersion(cfg, w, ops[0], h);
      BumpBySnoc(if since.0 then 0 else v, since.1);
      var next := if Writes(cfg, w, ops[0], h) then (since.0, since.1 + 1)
                  else if Removes(cfg, w, ops[0], h) then (true, 0) else since;
      VersionLaw(cfg, Step(cfg, w, ops[0]), ops[1..], h, v, next);
    }
  }

  /** Exactly when a writer gets past the version check, after any run of fewer than 2^32
      other calls, deletions and evictions included: when there was neither a write nor a
      removal, or when the entry was removed and since then written as many times as the
      version says that the writer read. */
  lemma {:induction false} StaleWriterPassesIff(cfg: Config, w: World, ops: seq<Op>, op: Op)
    requires ValidConfig(cfg) && WorldInv(cfg, w) && LegalRun(cfg, w, ops) && |ops| < U32
    requires op.SetOp? && op.value.Some? && op.cas == Version(w.ref, cfg.crc32(op.key))
    requires Legal(cfg, Run(cfg, w, ops), op)
    ensures var (removed, n) := Since(cfg, w, ops, cfg.crc32(op.key), (false, 0));
            !Reply(cfg, Run(cfg, w, ops), op).NotWritten? <==> n == if removed then op.cas else 0
  {
    hide WorldInv, Writes, Removes, Step, Legal, Since, LegalRun;
    WorldSized(cfg, w);
    var h, w' := cfg.crc32(op.key), Run(cfg, w, ops);
    RunKeepsInv(cfg, w, ops);
    VersionLaw(cfg, w, ops, h, op.cas, (false, 0));
    SinceBound(cfg, w, ops, h, (false, 0));
    var (removed, n) := Since(cfg, w, ops, h, (false, 0));
    BumpByIsModular(0, n);
    BumpByIsModular(op.cas, n);
    PassesIff(cfg, w', op);
  }

  lemma {:induction false} PassesIff(cfg: Config, w: World, op: Op)
    requires ValidConfig(cfg) && WorldInv(cfg, w) && op.SetOp? && op.value.Some?
    ensures !Reply(cfg, w, op).NotWritten? <==> op.cas == Version(w.ref, cfg.crc32(op.key))
  {
    VersionOfPrior(w.kv, w.ref, cfg.crc32(op.key));
  }

  lemma {:induction false} FirstSet(cfg: Config, w: World, key: Bytes, value: Bytes, a: Addr)
    requires ValidConfig(cfg) && Sized(cfg, w) && w.kv.tree == map[] && w.ref == map[]
    ensures var op, h := SetOp(key, Some(value), 0, 0, a), cfg.crc32(key);
            && Legal(cfg, w, op) && Reply(cfg, w, op).Written?
            && Step(cfg, w, op).kv.tree == map[a := Node(key, h, value, 1)]
            && Step(cfg, w, op).ref == map[h := Entry(key, value, 1)]
  {
    assert Lookup(w.kv, cfg.crc32(key)).None?;
    assert HashesOf(w.kv.tree, []) == {};
  }

  lemma {:induction false} OnlyDelete(cfg: Config, w: World, key: Bytes, value: Bytes, a: Addr)
    requires ValidConfig(cfg) && Sized(cfg, w) && w.kv.tree == map[a := Node(key, cfg.crc32(key), value, 1)]
    requires w.ref == map[cfg.crc32(key) := Entry(key, value, 1)]
    ensures var op := SetOp(key, None, 1, 0, a);
            && Legal(cfg, w, op)
            && Step(cfg, w, op).kv.tree == map[] && Step(cfg, w, op).ref == map[]
  {
    var h := cfg.crc32(key);
    assert w.kv.tree[a].hash == h;
    assert Lookup(w.kv, h) == Some(a);
  }

  /** A version comes back: after a set, a deletion and another set, a writer that read the
      version of the first one passes. */
  lemma {:induction false} VersionComesBack(cfg: Config, key: Bytes, v1: Bytes, v2: Bytes, a: Addr)
    requires ValidConfig(cfg)
    ensures var first := [SetOp(key, Some(v1), 0, 0, a)];
            var rest := [SetOp(key, None, 1, 0, a), SetOp(key, Some(v2), 0, 0, a)];
            && LegalRun(cfg, Start(cfg), first + rest)
            && Version(Run(cfg, Start(cfg), first).ref, cfg.crc32(key)) == 1
            && Version(Run(cfg, Start(cfg), first + rest).ref, cfg.crc32(key)) == 1
  {
    hide Step, Legal;
    var o1, o2, o3 := SetOp(key, Some(v1), 0, 0, a), SetOp(key, None, 1, 0, a), SetOp(key, Some(v2), 0, 0, a);
    var w := Start(cfg);
    FirstSet(cfg, w, key, v1, a);
    var w1 := Step(cfg, w, o1);
    OnlyDelete(cfg, w1, key, v1, a);
    var w2 := Step(cfg, w1, o2);
    FirstSet(cfg, w2, key, v2, a);
    var w3 := Step(cfg, w2, o3);
    assert [o1] + [o2, o3] == [o1, o2, o3];
    assert [o1, o2, o3][1..] == [o2, o3] && [o2, o3][1..] == [o3] && [o3][1..] == [] && [o1][1..] == [];
    assert Run(cfg, w3, []) == w3 && LegalRun(cfg, w3, []) && Run(cfg, w1, []) == w1;
    assert Run(cfg, w2, [o3]) == w3 && LegalRun(cfg, w2, [o3]);
    assert Run(cfg, w1, [o2, o3]) == w3 && LegalRun(cfg, w1, [o2, o3]);
  }
}
