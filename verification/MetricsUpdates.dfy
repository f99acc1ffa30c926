/** What defining, incrementing and recording do to the readings of a metrics store. */
module MetricsUpdates {
  import opened Bytes
  import opened Histogram
  import opened HistogramMass
  import opened HistogramRuns
  import opened HistogramMerge
  import opened Metrics
  import opened MetricsStore

  /** The number of workers that a metric has slots for. */
  function SlotCount(m: Metric): nat {
    match m
    case Counter(cs) => |cs|
    case GaugeMetric(gs) => |gs|
    case HistMetric(hs) => |hs|
  }

  /** Every metric has a slot for each worker, and histograms are within their limits. */
  ghost predicate StoreValid(s: Store, workers: nat) {
    StoreOk(s) && forall h :: h in s ==> SlotCount(s[h]) == workers
  }

  /** Only metric `mid` may differ. */
  ghost predicate OthersKept(s: Store, s': Store, mid: Word) {
    s'.Keys == s.Keys && forall h :: h in s && h != mid ==> s'[h] == s[h]
  }

  // ------------------------------------------------------------------ definitions

  /** A name is refused if it is too long; a known id stays as it is; a new metric has a slot
      for every worker, and reads zero. */
  lemma {:induction false} DefineIs(cfg: Config, s: Store, name: Bytes, like: Metric)
    requires cfg.workers > 0
    ensures var (rc, s') := Define(cfg, s, name, like);
            var mid := cfg.crc32(name);
            && (rc == BUSY <==> |name| > cfg.maxName)
            && (rc == ERROR <==> |name| <= cfg.maxName && mid !in s && !cfg.memOk(name))
            && (rc == OK || rc == BUSY || rc == ERROR)
            && (rc != OK || mid in s ==> s' == s)
            && (rc == OK && mid !in s ==>
                  && mid in s' && s' == s[mid := s'[mid]] && SlotCount(s'[mid]) == cfg.workers
                  && Read(s'[mid]) == match like
                                      case Counter(_) => CounterReading(0)
                                      case GaugeMetric(_) => GaugeReading(0)
                                      case HistMetric(_) => HistReading(0, 0))
  {
    match like
    case Counter(_) => ZeroTotal(cfg.workers);
    case GaugeMetric(_) =>
    case HistMetric(_) =>
      ZeroMass(cfg.workers);
      HistReads(Zeros(NewHist(), cfg.workers));
  }

  // ------------------------------------------------------------------- counters

  /** An increment is declined exactly if the id is unknown, and a misuse exactly if it is
      the id of another metric, or the worker has no slot.  Otherwise the counter reads
      the sum modulo 2^64, and nothing else changes. */
  lemma {:induction false} IncrementAdds(s: Store, mid: Word, slot: nat, n: nat)
    ensures var (rc, s') := IncrementCounter(s, mid, slot, n);
            && (rc == DECLINED <==> mid !in s)
            && (rc == OK <==> mid in s && s[mid].Counter? && slot < SlotCount(s[mid]))
            && (rc == OK || rc == DECLINED || rc == ABORT)
            && (rc != OK ==> s' == s)
            && (rc == OK ==>
                  && OthersKept(s, s', mid) && s'[mid].Counter? && SlotCount(s'[mid]) == SlotCount(s[mid])
                  && Read(s'[mid]) == CounterReading((Read(s[mid]).value + n) % 0x1_0000_0000_0000_0000))
  {
    hide CounterTotal, Wrap64;
    if mid in s && s[mid].Counter? && slot < |s[mid].counters| {
      var cs := s[mid].counters;
      IncrementReads(cs, slot, n);
      Wrap64Add(n, CounterTotal(cs));
      Wrap64IsMod(n + Wrap64(CounterTotal(cs)));
    }
  }

  /** An offset of either sign, as it is passed in a 64-bit number. */
  lemma {:induction false} SignedIncrementAdds(s: Store, mid: Word, slot: nat, n: int)
    requires -0x8000_0000_0000_0000 <= n < 0x8000_0000_0000_0000
    requires mid in s && s[mid].Counter? && slot < SlotCount(s[mid])
    ensures var (rc, s') := IncrementCounter(s, mid, slot, Unsigned(n));
            && rc == OK && OthersKept(s, s', mid) && s'[mid].Counter? && SlotCount(s'[mid]) == SlotCount(s[mid])
            && Read(s'[mid]) == CounterReading((Read(s[mid]).value + n) % 0x1_0000_0000_0000_0000)
  {
    IncrementAdds(s, mid, slot, Unsigned(n));
    AddModulus(Read(s[mid]).value + n);
  }

  // --------------------------------------------------------------------- gauges

  /** Slot `k` holds the first of the latest updates, at time `now`. */
  ghost predicate FirstAt(gs: seq<Gauge>, k: nat, now: nat) {
    && k < |gs| && gs[k].lastUpdate == now
    && forall i :: 0 <= i < k ==> gs[i].lastUpdate < now
  }

  ghost predicate NoneLater(gs: seq<Gauge>, now: nat) {
    forall i :: 0 <= i < |gs| ==> gs[i].lastUpdate <= now
  }

  /** A value recorded in a gauge, at a time that no slot is ahead of, is the one that is
      read; unless the slot of a worker before was updated at the very same time: then
      the value of the first such worker stays the one that is read.  In any case
      nothing else changes. */
  lemma {:induction false} GaugeRecordReads(s: Store, mid: Word, slot: nat, n: nat, now: nat, growOk: bool, k: nat)
    requires mid in s && s[mid].GaugeMetric? && slot < |s[mid].gauges| && NoneLater(s[mid].gauges, now)
    ensures var (rc, s') := RecordMetric(s, mid, slot, n, now, growOk);
            && rc == OK && OthersKept(s, s', mid)
            && s'[mid].GaugeMetric? && |s'[mid].gauges| == |s[mid].gauges| && NoneLater(s'[mid].gauges, now)
            && ((forall i :: 0 <= i < slot ==> s[mid].gauges[i].lastUpdate != now) ==>
                  Read(s'[mid]) == GaugeReading(n))
            && (k < slot && FirstAt(s[mid].gauges, k, now) ==>
                  Read(s'[mid]) == GaugeReading(s[mid].gauges[k].value))
  {
    var gs' := s[mid].gauges[slot := Gauge(n, now)];
    GaugeReadsLatest(gs', slot);
    GaugeReadsLatest(gs', k);
  }

  /** Such a case: two workers record in the same millisecond, and the value recorded last
      is not the one that is read. */
  lemma {:induction false} TiedGaugeReadsFirst(s: Store, mid: Word, a: nat, b: nat, now: nat)
    requires mid in s && s[mid] == GaugeMetric([Gauge(0, 0), Gauge(0, 0)]) && now > 0
    ensures var s1 := RecordMetric(s, mid, 0, a, now, true).1;
            var s2 := RecordMetric(s1, mid, 1, b, now, true).1;
            mid in s2 && s2[mid] == GaugeMetric([Gauge(a, now), Gauge(b, now)]) && Read(s2[mid]) == GaugeReading(a)
  {
    var s1 := RecordMetric(s, mid, 0, a, now, true).1;
    GaugeRecordReads(s1, mid, 1, b, now, true, 0);
  }

  // ----------------------------------------------------------------- histograms

  /** A value recorded in a histogram adds one to the count and itself to the sum that are
      read, and nothing else changes. */
  lemma {:induction false} HistRecordReads(s: Store, mid: Word, slot: nat, n: nat, now: nat, growOk: bool)
    requires mid in s && s[mid].HistMetric? && slot < |s[mid].hists| && HistsOk(s[mid])
    ensures var (rc, s') := RecordMetric(s, mid, slot, n, now, growOk);
            && rc == OK && OthersKept(s, s', mid)
            && s'[mid].HistMetric? && |s'[mid].hists| == |s[mid].hists| && HistsOk(s'[mid])
            && Read(s'[mid]) == HistReading((Read(s[mid]).count + 1) % 0x1_0000_0000,
                                            (Read(s[mid]).sum + n) % 0x1_0000_0000_0000_0000)
  {
    hide Record, Read, MassOf, SumOf, Ok;
    var hs := s[mid].hists;
    RecordReads(hs, slot, n, growOk);
    RecordOk(hs[slot], n, growOk);
    HistReads(hs);
    var count, sum := MassOf(hs, Any()), SumOf(hs);
    Wrap32Add(1, count);
    Wrap32IsMod(1 + Wrap32(count));
    Wrap64Add(n, sum);
    Wrap64IsMod(n + Wrap64(sum));
  }

  /** The histograms of an old metric are added to those that a metric has: what is read of both
      adds up, and nothing else changes. */
  lemma {:induction false} HistMergeReads(s: Store, mid: Word, hists: seq<Hist>)
    requires mid in s && s[mid].HistMetric? && s[mid].hists != [] && HistsOk(s[mid])
    requires s[mid].hists[0].sum < U64
    ensures var (rc, s') := ReallocHistogram(s, mid, hists);
            && rc == OK && OthersKept(s, s', mid)
            && s'[mid].HistMetric? && |s'[mid].hists| == |s[mid].hists|
            && Read(s'[mid]) ==
               HistReading((Read(s[mid]).count + Read(HistMetric(hists)).count) % 0x1_0000_0000,
                           (Read(s[mid]).sum + Read(HistMetric(hists)).sum) % 0x1_0000_0000_0000_0000)
  {
    hide Read, MassOf, SumOf, Merge;
    var hs := s[mid].hists;
    SlotMerged(hs, hists);
    HistReads(hs);
    HistReads(hists);
    WrapBoth32(MassOf(hs, Any()), MassOf(hists, Any()));
    WrapBoth64(SumOf(hs), SumOf(hists));
  }

  lemma {:induction false} SlotMerged(hs: seq<Hist>, hists: seq<Hist>)
    requires hs != [] && Ok(hs[0]) && hs[0].sum < U64
    ensures Read(HistMetric(hs[0 := Merge(hs[0], hists)]))
            == HistReading(Wrap32(MassOf(hs, Any()) + MassOf(hists, Any())), Wrap64(SumOf(hs) + SumOf(hists)))
  {
    hide *;
    var h' := Merge(hs[0], hists);
    MergeConserves(hs[0], hists);
    MassOfUpdate(hs, 0, h');
    HistReads(hs[0 := h']);
    var rest := MassOf(hs, Any()) - Mass(hs[0].bins, Any());
    Wrap32Add(rest, Mass(h'.bins, Any()));
    Wrap32Add(rest, Mass(hs[0].bins, Any()) + MassOf(hists, Any()));
    Wrap64Add(SumOf(hs) - hs[0].sum, hs[0].sum + SumOf(hists));
  }

  lemma {:induction false} WrapBoth32(a: nat, b: nat)
    ensures Wrap32(a + b) == (Wrap32(a) + Wrap32(b)) % 0x1_0000_0000
  {
    Wrap32Add(b, a);
    Wrap32Add(Wrap32(a), b);
    Wrap32IsMod(Wrap32(a) + Wrap32(b));
  }

  lemma {:induction false} WrapBoth64(a: nat, b: nat)
    ensures Wrap64(a + b) == (Wrap64(a) + Wrap64(b)) % 0x1_0000_0000_0000_0000
  {
    Wrap64Add(b, a);
    Wrap64Add(Wrap64(a), b);
    Wrap64IsMod(Wrap64(a) + Wrap64(b));
  }

  /** A record is declined exactly if the id is unknown; it is a misuse for a counter, or if
      the worker has no slot; and it succeeds in all other cases. */
  lemma {:induction false} RecordRc(s: Store, mid: Word, slot: nat, n: nat, now: nat, growOk: bool)
    requires StoreOk(s)
    ensures var (rc, s') := RecordMetric(s, mid, slot, n, now, growOk);
            && (rc == DECLINED <==> mid !in s)
            && (rc == OK <==> mid in s && !s[mid].Counter? && slot < SlotCount(s[mid]))
            && (rc == OK || rc == DECLINED || rc == ABORT)
            && (rc != OK ==> s' == s)
  {
    if mid in s && s[mid].HistMetric? { assert HistsOk(s[mid]); }
  }

  // ----------------------------------------------------------------------- runs

  /** What any worker does to any metric. */
  datatype Update =
    | Inc(mid: Word, slot: nat, n: nat)
    | Rec(mid: Word, slot: nat, n: nat, now: nat, growOk: bool)

  ghost function Updated(s: Store, u: Update): Store {
    match u
    case Inc(mid, slot, n) => IncrementCounter(s, mid, slot, n).1
    case Rec(mid, slot, n, now, growOk) => RecordMetric(s, mid, slot, n, now, growOk).1
  }

  ghost function UpdatedAll(s: Store, us: seq<Update>): Store
    decreases |us|
  {
    if us == [] then s else UpdatedAll(Updated(s, us[0]), us[1..])
  }

  /** The total of the increments of counter `mid` by existing workers. */
  function Increments(us: seq<Update>, mid: Word, workers: nat): nat {
    if us == [] then 0
    else (if us[0].Inc? && us[0].mid == mid && us[0].slot < workers then us[0].n else 0)
         + Increments(us[1..], mid, workers)
  }

  lemma {:induction false} UpdateValid(s: Store, u: Update, workers: nat)
    requires StoreValid(s, workers)
    ensures StoreValid(Updated(s, u), workers) && Updated(s, u).Keys == s.Keys
    ensures forall h :: h in s ==> Updated(s, u)[h].Counter? == s[h].Counter?
  {
    hide Read, Record, Ok;
    if u.Inc? {
      IncrementAdds(s, u.mid, u.slot, u.n);
    } else {
      RecordRc(s, u.mid, u.slot, u.n, u.now, u.growOk);
      if u.mid in s && s[u.mid].HistMetric? && u.slot < |s[u.mid].hists| {
        assert HistsOk(s[u.mid]);
        HistRecordReads(s, u.mid, u.slot, u.n, u.now, u.growOk);
      }
    }
  }

  lemma {:induction false} UpdateCounts(s: Store, u: Update, workers: nat, mid: Word)
    requires workers > 0 && StoreValid(s, workers) && mid in s && s[mid].Counter?
    ensures var s', d := Updated(s, u), Increments([u], mid, workers);
            && mid in s' && s'[mid].Counter?
            && Read(s'[mid]) == CounterReading((Read(s[mid]).value + d) % U64)
  {
    hide Read, Record, Ok, CounterTotal;
    assert [u][1..] == [];
    UpdateValid(s, u, workers);
    if u.Inc? { IncrementAdds(s, u.mid, u.slot, u.n); }
    ReadBelow(s[mid].counters);
  }

  lemma {:induction false} ReadBelow(cs: seq<nat>)
    requires cs != []
    ensures Read(Counter(cs)) == CounterReading(Read(Counter(cs)).value % U64)
  {
  }

  lemma {:induction false} AddLater(a: nat, b: nat)
    ensures (a % U64 + b) % U64 == (a + b) % U64
  {
    Wrap64Add(b, a);
    Wrap64IsMod(a);
    Wrap64IsMod(b + Wrap64(a));
    Wrap64IsMod(b + a);
  }

  /** Over any run of updates by all workers to all metrics, a counter adds up the increments
      that were made to it, modulo 2^64. */
  lemma {:induction false} CountersAddUp(s: Store, us: seq<Update>, workers: nat, mid: Word)
    requires workers > 0 && StoreValid(s, workers) && mid in s && s[mid].Counter?
    ensures var s' := UpdatedAll(s, us);
            && mid in s' && s'[mid].Counter? && SlotCount(s'[mid]) == workers
            && Read(s'[mid]) ==
               CounterReading((Read(s[mid]).value + Increments(us, mid, workers)) % U64)
    decreases |us|
  {
    hide Read, Updated;
    ReadBelow(s[mid].counters);
    if us != [] {
      var s1, d := Updated(s, us[0]), Increments([us[0]], mid, workers);
      UpdateValid(s, us[0], workers);
      UpdateCounts(s, us[0], workers, mid);
      CountersAddUp(s1, us[1..], workers, mid);
      assert [us[0]][1..] == [];
      AddLater(Read(s[mid]).value + d, Increments(us[1..], mid, workers));
    }
  }
}
