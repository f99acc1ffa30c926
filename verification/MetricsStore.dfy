/** The metrics store, and its rebuilding when the number of workers changes. */
module MetricsStore {
  import opened Bytes
  import opened Trees
  import opened Histogram
  import opened HistogramMass
  import opened HistogramMerge
  import opened HistogramArray
  import opened Metrics

  /** `memOk` tells for which names memory is found, for a new metric or for more bins. */
  datatype Config = Config(workers: nat, maxName: nat, crc32: Bytes -> Word, memOk: Bytes -> bool)

  type Store = map<Word, Metric>

  datatype Rc = OK | BUSY | ABORT | DECLINED | ERROR

  /** A node of the old store's tree: a metric under its name. */
  datatype Entry = Entry(name: Bytes, metric: Metric)

  // ------------------------------------------------------------- operations

  function Zeros<T>(v: T, n: nat): (r: seq<T>)
    ensures |r| == n && forall i :: 0 <= i < n ==> r[i] == v
  {
    seq(n, _ => v)
  }

  /** A new metric of the same type as `like`. */
  function Fresh(cfg: Config, like: Metric): Metric {
    match like
    case Counter(_) => Counter(Zeros<nat>(0, cfg.workers))
    case GaugeMetric(_) => GaugeMetric(Zeros(Gauge(0, 0), cfg.workers))
    case HistMetric(_) => HistMetric(Zeros(NewHist(), cfg.workers))
  }

  function Define(cfg: Config, s: Store, name: Bytes, like: Metric): (Rc, Store) {
    var mid := cfg.crc32(name);
    if |name| > cfg.maxName then (BUSY, s)
    else if mid in s then (OK, s)
    else if !cfg.memOk(name) then (ERROR, s)
    else (OK, s[mid := Fresh(cfg, like)])
  }

  function IncrementCounter(s: Store, mid: Word, slot: nat, n: nat): (Rc, Store) {
    if mid !in s then (DECLINED, s)
    else match s[mid]
      case Counter(cs) =>
        if slot < |cs| then (OK, s[mid := Counter(cs[slot := Wrap64(cs[slot] + n)])]) else (ABORT, s)
      case _ => (ABORT, s)
  }

  /** A value recorded at time `now`, in a gauge or in a histogram, which may need more
      memory. */
  ghost function RecordMetric(s: Store, mid: Word, slot: nat, n: nat, now: nat, growOk: bool): (Rc, Store) {
    if mid !in s then (DECLINED, s)
    else match s[mid]
      case GaugeMetric(gs) =>
        if slot < |gs| then (OK, s[mid := GaugeMetric(gs[slot := Gauge(n, now)])]) else (ABORT, s)
      case HistMetric(hs) =>
        if slot < |hs| && Ok(hs[slot]) then (OK, s[mid := HistMetric(hs[slot := Record(hs[slot], n, growOk)])])
        else (ABORT, s)
      case _ => (ABORT, s)
  }

  /** The old histograms of all workers go into the slot of the first worker. */
  ghost function ReallocHistogram(s: Store, mid: Word, hists: seq<Hist>): (Rc, Store) {
    if mid !in s then (DECLINED, s)
    else match s[mid]
      case HistMetric(hs) =>
        if hs != [] && Ok(hs[0]) then (OK, s[mid := HistMetric(hs[0 := Merge(hs[0], hists)])]) else (ABORT, s)
      case _ => (ABORT, s)
  }

  /** One metric of the old store into the new one. */
  ghost function ReallocMetric(cfg: Config, s: Store, e: Entry, now: nat): (Rc, Store)
    requires ValidMetric(e.metric)
  {
    var (rc, s1) := Define(cfg, s, e.name, e.metric);
    if rc != OK then (ERROR, s1)
    else
      var mid := cfg.crc32(e.name);
      var (rc2, s2) := match e.metric
        case Counter(cs) => IncrementCounter(s1, mid, 0, Wrap64(CounterTotal(cs)))
        case GaugeMetric(gs) => RecordMetric(s1, mid, 0, GaugeValue(gs), now, cfg.memOk(e.name))
        case HistMetric(hs) => ReallocHistogram(s1, mid, hs);
      (if rc2 == OK then OK else ERROR, s2)
  }

  /** Every histogram in the store is within its limits. */
  ghost predicate StoreOk(s: Store) {
    forall h :: h in s ==> HistsOk(s[h])
  }

  ghost predicate EntriesOk(es: seq<Entry>) {
    forall i :: 0 <= i < |es| ==> ValidMetric(es[i].metric) && HistsOk(es[i].metric)
  }

  ghost predicate ValidEntries(es: seq<Entry>) {
    forall i :: 0 <= i < |es| ==> ValidMetric(es[i].metric)
  }

  ghost function ReallocList(cfg: Config, s: Store, es: seq<Entry>, now: nat): (Rc, Store)
    requires ValidEntries(es)
    decreases |es|
  {
    if es == [] then (OK, s)
    else
      var (rc, s1) := ReallocMetric(cfg, s, es[0], now);
      if rc != OK then (ERROR, s1) else ReallocList(cfg, s1, es[1..], now)
  }

  // ---------------------------------------------------------------- one metric

  lemma {:induction false} ZeroTotal(n: nat)
    ensures CounterTotal(Zeros<nat>(0, n)) == 0
  {
    if n > 0 {
      assert Zeros<nat>(0, n)[1..] == Zeros<nat>(0, n - 1);
      ZeroTotal(n - 1);
    }
  }

  lemma {:induction false} ZeroMass(n: nat)
    ensures MassOf(Zeros(NewHist(), n), Any()) == 0 && SumOf(Zeros(NewHist(), n)) == 0
  {
    if n > 0 {
      assert Zeros(NewHist(), n)[1..] == Zeros(NewHist(), n - 1);
      ZeroMass(n - 1);
      EmptyHistOk(BINS_INIT);
    }
  }

  lemma {:induction false} CounterMigrates(n: nat, v: nat)
    requires n > 0
    ensures Wrap64(CounterTotal(Zeros<nat>(0, n)[0 := Wrap64(0 + Wrap64(v))])) == Wrap64(v)
  {
    ZeroTotal(n);
    IncrementReads(Zeros<nat>(0, n), 0, Wrap64(v));
    Wrap64Add(0, v);
  }

  lemma {:induction false} GaugeMigrates(n: nat, v: nat, now: nat)
    requires n > 0
    ensures GaugeValue(Zeros(Gauge(0, 0), n)[0 := Gauge(v, now)]) == v
  {
    GaugeReadsLatest(Zeros(Gauge(0, 0), n)[0 := Gauge(v, now)], 0);
  }

  lemma {:induction false} NewHistEmpty()
    ensures Ok(NewHist()) && Mass(NewHist().bins, Any()) == 0
    ensures NewHist().sum == 0 < U64
  {
    EmptyHistOk(BINS_INIT);
  }

  lemma {:induction false} HistMigrates(n: nat, hs: seq<Hist>)
    requires n > 0
    ensures Ok(NewHist())
    ensures Read(HistMetric(Zeros(NewHist(), n)[0 := Merge(NewHist(), hs)])) == Read(HistMetric(hs))
  {
    hide *;
    NewHistEmpty();
    var zeros, merged := Zeros(NewHist(), n), Merge(NewHist(), hs);
    MergeConserves(NewHist(), hs);
    ZeroMass(n);
    MassOfUpdate(zeros, 0, merged);
    HistReads(zeros[0 := merged]);
    HistReads(hs);
    Wrap64Add(0, SumOf(hs));
  }

  /** The migration of one metric to a store that does not have its id yet: it succeeds
      exactly when the name is not too long and memory is found; then its reading is
      the old one, and nothing else in the store changed. */
  lemma {:induction false} MigrateOne(cfg: Config, s: Store, e: Entry, now: nat)
    requires ValidMetric(e.metric) && cfg.workers > 0 && cfg.crc32(e.name) !in s
    ensures var (rc, s') := ReallocMetric(cfg, s, e, now);
            var mid := cfg.crc32(e.name);
            && (rc == OK <==> |e.name| <= cfg.maxName && cfg.memOk(e.name))
            && (rc == OK ==> mid in s' && s' == s[mid := s'[mid]] && ReadsAs(s'[mid], e.metric))
  {
    match e.metric
    case Counter(cs) => CounterMigrates(cfg.workers, CounterTotal(cs));
    case GaugeMetric(gs) => GaugeMigrates(cfg.workers, GaugeValue(gs), now);
    case HistMetric(hs) => HistMigrates(cfg.workers, hs);
  }

  /** Both metrics are of the same type and read the same. */
  ghost predicate ReadsAs(m: Metric, was: Metric) {
    && (m.Counter? ==> m.counters != []) && (was.Counter? ==> was.counters != [])
    && (m.GaugeMetric? ==> m.gauges != []) && (was.GaugeMetric? ==> was.gauges != [])
    && Read(m) == Read(was)
  }

  // ---------------------------------------------------------------- all metrics

  ghost function Ids(cfg: Config, es: seq<Entry>): set<Word> {
    set i | 0 <= i < |es| :: cfg.crc32(es[i].name)
  }

  /** No two metrics share an id, as the key/value store guarantees. */
  ghost predicate DistinctIds(cfg: Config, es: seq<Entry>) {
    es == [] || (cfg.crc32(es[0].name) !in Ids(cfg, es[1..]) && DistinctIds(cfg, es[1..]))
  }

  /** The new store has every metric of `es`, with the old reading. */
  ghost predicate AllMigrated(cfg: Config, s: Store, es: seq<Entry>) {
    forall i :: 0 <= i < |es| ==>
      cfg.crc32(es[i].name) in s && ReadsAs(s[cfg.crc32(es[i].name)], es[i].metric)
  }

  ghost predicate AllFit(cfg: Config, es: seq<Entry>) {
    forall i :: 0 <= i < |es| ==> |es[i].name| <= cfg.maxName && cfg.memOk(es[i].name)
  }

  lemma {:induction false} IdsCons(cfg: Config, es: seq<Entry>)
    requires es != []
    ensures Ids(cfg, es) == {cfg.crc32(es[0].name)} + Ids(cfg, es[1..])
  {
    assert forall i :: 1 <= i < |es| ==> es[i] == es[1..][i - 1];
  }

  lemma {:induction false} FitCons(cfg: Config, es: seq<Entry>)
    requires es != []
    ensures AllFit(cfg, es) <==>
              |es[0].name| <= cfg.maxName && cfg.memOk(es[0].name) && AllFit(cfg, es[1..])
  {
    assert forall i :: 1 <= i < |es| ==> es[i] == es[1..][i - 1];
  }

  /** Rebuilding the metrics for any number of workers: it succeeds exactly when every
      name fits and memory is found for every metric, and then every reading is as it
      was: counters, gauges, and the total count and sum of histograms. */
  lemma {:induction false} MigrateAll(cfg: Config, s: Store, es: seq<Entry>, now: nat)
    requires ValidEntries(es) && cfg.workers > 0
    requires DistinctIds(cfg, es) && Ids(cfg, es) !! s.Keys
    ensures var (rc, s') := ReallocList(cfg, s, es, now);
            && (rc == OK <==> AllFit(cfg, es))
            && (rc == OK ==> AllMigrated(cfg, s', es) && forall h :: h in s ==> h in s' && s'[h] == s[h])
    decreases |es|
  {
    if es != [] {
      var e, mid := es[0], cfg.crc32(es[0].name);
      IdsCons(cfg, es);
      FitCons(cfg, es);
      MigrateOne(cfg, s, e, now);
      var (rc, s1) := ReallocMetric(cfg, s, e, now);
      if rc == OK {
        assert s1.Keys == s.Keys + {mid};
        MigrateAll(cfg, s1, es[1..], now);
        var (rc', s') := ReallocList(cfg, s1, es[1..], now);
        assert ReallocList(cfg, s, es, now) == (rc', s');
        if rc' == OK {
          forall i | 0 <= i < |es|
            ensures cfg.crc32(es[i].name) in s' && ReadsAs(s'[cfg.crc32(es[i].name)], es[i].metric)
          {
            if i > 0 { assert es[i] == es[1..][i - 1]; }
          }
        }
      }
    }
  }

  lemma {:induction false} ReallocAppend(cfg: Config, s: Store, a: seq<Entry>, b: seq<Entry>, now: nat)
    requires ValidEntries(a) && ValidEntries(b)
    ensures ValidEntries(a + b)
    ensures var (rc, s1) := ReallocList(cfg, s, a, now);
            ReallocList(cfg, s, a + b, now) == if rc != OK then (ERROR, s1) else ReallocList(cfg, s1, b, now)
    decreases |a|
  {
    if a == [] {
      assert a + b == b;
    } else {
      assert (a + b)[1..] == a[1..] + b && (a + b)[0] == a[0];
      var (rc, s1) := ReallocMetric(cfg, s, a[0], now);
      ReallocAppend(cfg, s1, a[1..], b, now);
    }
  }

  lemma {:induction false} DefineOk(cfg: Config, s: Store, name: Bytes, like: Metric)
    requires StoreOk(s)
    ensures StoreOk(Define(cfg, s, name, like).1)
  {
    NewHistEmpty();
    assert HistsOk(Fresh(cfg, like));
  }

  lemma {:induction false} PartsOk(a: seq<Entry>, b: seq<Entry>)
    requires EntriesOk(a + b)
    ensures EntriesOk(a) && EntriesOk(b)
  {
    forall i | 0 <= i < |a| ensures ValidMetric(a[i].metric) && HistsOk(a[i].metric) {
      assert a[i] == (a + b)[i];
    }
    forall i | 0 <= i < |b| ensures ValidMetric(b[i].metric) && HistsOk(b[i].metric) {
      assert b[i] == (a + b)[i + |a|];
    }
  }

  lemma {:induction false} PreorderOk(t: Tree<Entry>)
    requires t.Branch? && EntriesOk(Preorder(t))
    ensures ValidMetric(t.value.metric) && HistsOk(t.value.metric)
    ensures EntriesOk(Preorder(t.left)) && EntriesOk(Preorder(t.right))
    ensures ValidEntries(Preorder(t.left)) && ValidEntries(Preorder(t.right))
  {
    var e := [t.value];
    PartsOk(e + Preorder(t.left), Preorder(t.right));
    PartsOk(e, Preorder(t.left));
    assert e[0] in e;
  }

  lemma {:induction false} SplitRealloc(cfg: Config, s: Store, t: Tree<Entry>, now: nat)
    requires t.Branch? && ValidMetric(t.value.metric)
    requires ValidEntries(Preorder(t.left)) && ValidEntries(Preorder(t.right))
    ensures ValidEntries(Preorder(t))
    ensures var (rc, s1) := ReallocMetric(cfg, s, t.value, now);
            ReallocList(cfg, s, Preorder(t), now) ==
            if rc != OK then (ERROR, s1)
            else var (rc2, s2) := ReallocList(cfg, s1, Preorder(t.left), now);
                 if rc2 != OK then (ERROR, s2) else ReallocList(cfg, s2, Preorder(t.right), now)
  {
    var e, l, r := t.value, Preorder(t.left), Preorder(t.right);
    assert [e] + l + r == [e] + (l + r);
    ReallocAppend(cfg, s, [e], l + r, now);
    assert [e][1..] == [];
    var (rc, s1) := ReallocMetric(cfg, s, e, now);
    ReallocAppend(cfg, s1, l, r, now);
  }

  // ------------------------------------------------------------- the new store

  class NewStore {
    const cfg: Config
    var store: Store

    constructor (cfg: Config)
      ensures this.cfg == cfg && store == map[]
    {
      this.cfg := cfg;
      store := map[];
    }

    method DefineMetric(name: Bytes, like: Metric) returns (rc: Rc)
      modifies this
      ensures (rc, store) == Define(cfg, old(store), name, like)
    {
      if |name| > cfg.maxName {
        return BUSY;
      }
      var mid := cfg.crc32(name);
      if mid in store {
        return OK;
      }
      if !cfg.memOk(name) {
        return ERROR;
      }
      store := store[mid := Fresh(cfg, like)];
      return OK;
    }

    /** Adds to the counter of one worker. */
    method Increment(mid: Word, slot: nat, n: nat) returns (rc: Rc)
      modifies this
      ensures (rc, store) == IncrementCounter(old(store), mid, slot, n)
      ensures StoreOk(old(store)) ==> StoreOk(store)
    {
      if mid !in store {
        return DECLINED;
      }
      var m := store[mid];
      if !m.Counter? || slot >= |m.counters| {
        return ABORT;
      }
      store := store[mid := Counter(m.counters[slot := Wrap64(m.counters[slot] + n)])];
      return OK;
    }

    /** Records a value in the gauge or the histogram of one worker. */
    method RecordValue(mid: Word, slot: nat, n: nat, now: nat, growOk: bool, ghost s: Store) returns (rc: Rc)
      requires store == s && StoreOk(s)
      modifies this
      ensures (rc, store) == RecordMetric(s, mid, slot, n, now, growOk) && StoreOk(store)
    {
      if mid !in store {
        return DECLINED;
      }
      var m := store[mid];
      if m.GaugeMetric? && slot < |m.gauges| {
        store := store[mid := GaugeMetric(m.gauges[slot := Gauge(n, now)])];
        return OK;
      }
      if m.HistMetric? && slot < |m.hists| {
        assert HistsOk(s[mid]);
        var h := new HistogramSlot.Load(m.hists[slot]);
        h.RecordValue(n, growOk, m.hists[slot]);
        var recorded := h.Value();
        store := store[mid := HistMetric(m.hists[slot := recorded])];
        return OK;
      }
      return ABORT;
    }

    /** Merges the old histograms into the slot of the first worker. */
    method MigrateHistogram(mid: Word, old_hs: seq<Hist>, ghost s: Store) returns (rc: Rc)
      requires store == s && StoreOk(s)
      requires forall i :: 0 <= i < |old_hs| ==> Ok(old_hs[i])
      modifies this
      ensures (rc, store) == ReallocHistogram(s, mid, old_hs) && StoreOk(store)
    {
      if mid !in store {
        return DECLINED;
      }
      var m := store[mid];
      if !m.HistMetric? || m.hists == [] {
        return ABORT;
      }
      assert HistsOk(s[mid]);
      var slot := new HistogramSlot.Load(m.hists[0]);
      slot.MergeAll(old_hs, m.hists[0]);
      var merged := slot.Value();
      store := store[mid := HistMetric(m.hists[0 := merged])];
      return OK;
    }

    method MigrateMetric(e: Entry, now: nat, ghost s: Store) returns (rc: Rc)
      requires ValidMetric(e.metric) && HistsOk(e.metric) && store == s && StoreOk(s)
      modifies this
      ensures (rc, store) == ReallocMetric(cfg, s, e, now) && StoreOk(store)
    {
      rc := DefineMetric(e.name, e.metric);
      DefineOk(cfg, s, e.name, e.metric);
      if rc != OK {
        return ERROR;
      }
      var mid := cfg.crc32(e.name);
      match e.metric {
        case Counter(cs) =>
          var val := GetCounter(cs);
          rc := Increment(mid, 0, val);
        case GaugeMetric(gs) =>
          var val := GetGauge(gs);
          rc := RecordValue(mid, 0, val, now, cfg.memOk(e.name), store);
        case HistMetric(hs) =>
          rc := MigrateHistogram(mid, hs, store);
      }
      rc := if rc == OK then OK else ERROR;
    }

    /** Rebuilds every metric of the old tree: a node, then its left and its right. */
    method ReallocMetrics(t: Tree<Entry>, now: nat, ghost s: Store) returns (rc: Rc)
      requires EntriesOk(Preorder(t)) && store == s && StoreOk(s)
      modifies this
      ensures rc == OK || rc == ERROR
      ensures ValidEntries(Preorder(t))
      ensures (rc, store) == ReallocList(cfg, s, Preorder(t), now) && StoreOk(store)
      decreases t
    {
      if t.Sentinel? {
        return OK;
      }
      PreorderOk(t);
      SplitRealloc(cfg, s, t, now);
      rc := MigrateMetric(t.value, now, s);
      if rc != OK {
        return ERROR;
      }
      ghost var s1 := store;
      rc := ReallocMetrics(t.left, now, s1);
      if rc != OK {
        return ERROR;
      }
      rc := ReallocMetrics(t.right, now, store);
      if rc != OK {
        return ERROR;
      }
    }
  }
}
