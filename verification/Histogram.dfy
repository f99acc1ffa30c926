/** Log2 histograms: bins with distinct upper bounds, the last of which is the largest
    32-bit value; bins are created on demand and the array of bins grows on demand.
    Here a histogram is a value: the bins in use, in array order, the number of bins
    allocated, and the sum of the recorded values. */
module Histogram {
  import opened Bytes
  import opened SlabClasses

  const MAX := 0xFFFF_FFFF
  const BINS_INIT := 5
  const BINS_MAX := 18
  const BINS_INCREMENT := 4

  datatype Bin = Bin(bound: Word, count: Word)

  datatype Hist = Hist(bins: seq<Bin>, cap: nat, sum: nat)

  // ---------------------------------------------------------- upper bounds

  /** The bin bound for a value: the least power of two that is not below it, or the
      largest 32-bit value for everything from 2^31 on. */
  function UpperBound(n: nat): (r: Word)
  {
    if n <= 1 then 1
    else if n > MAX / 2 then MAX
    else
      BitLengthBounds(n - 1);
      FitsWord(n);
      Pow2(BitLength(n - 1))
  }

  lemma {:induction false} FitsWord(n: nat)
    requires 1 < n <= MAX / 2
    ensures Pow2(BitLength(n - 1)) <= 2 * (n - 1)
  {
    BitLengthBounds(n - 1);
    assert Pow2(BitLength(n - 1)) == 2 * Pow2(BitLength(n - 1) - 1);
  }

  /** What the bound means: not below the value, unless the value exceeds 32 bits; and
      below the maximum it is a power of two whose half is too small. */
  lemma {:induction false} UpperBoundMeaning(n: nat)
    ensures n <= MAX ==> n <= UpperBound(n)
    ensures UpperBound(n) == MAX <==> n > MAX / 2
    ensures n <= MAX / 2 ==> IsPow2(UpperBound(n))
    ensures 1 < n <= MAX / 2 ==> UpperBound(n) < 2 * n
  {
    if 1 < n <= MAX / 2 {
      BitLengthBounds(n - 1);
      FitsWord(n);
      assert IsPow2(UpperBound(n));
    } else if n <= 1 {
      assert Pow2(0) == 1;
      assert IsPow2(1);
    }
  }

  ghost predicate IsPow2(n: nat) {
    exists k: nat :: n == Pow2(k)
  }

  /** The shifting loop. */
  method BinLog2UpperBound(n: nat) returns (r: Word)
    ensures r == UpperBound(n)
  {
    if n <= 1 {
      return 1;
    }
    if n > MAX / 2 {
      return MAX;
    }
    var upper: nat := 2;
    var m := n - 1;
    ghost var k := 1;
    while m / 2 != 0
      invariant m > 0 && upper == Pow2(k)
      invariant k + BitLength(m) == 1 + BitLength(n - 1)
    {
      m := m / 2;
      upper := 2 * upper;
      k := k + 1;
    }
    assert m == 1 && BitLength(m / 2) == 0 && BitLength(m) == 1;
    assert upper == Pow2(BitLength(n - 1)) == UpperBound(n);
    return upper;
  }

  /** A bound that some recorded value can have. */
  ghost predicate LogBound(b: nat) {
    b == MAX || (exists k: nat :: k <= 31 && b == Pow2(k))
  }

  /** A bound, taken as a value, is its own bound; only 2^31 goes up to the maximum. */
  lemma {:induction false} BoundOfBound(b: nat)
    requires LogBound(b)
    ensures b == 0x8000_0000 || b == MAX ==> UpperBound(b) == MAX
    ensures b != 0x8000_0000 && b != MAX ==> UpperBound(b) == b
  {
    if b != MAX {
      var k: nat :| k <= 31 && b == Pow2(k);
      Pow2At31();
      if k < 31 {
        Pow2Monotone(k, 30);
        if k > 0 {
          BitLengthOfPredecessor(k);
        } else {
          assert b == 1;
        }
      }
    }
  }

  lemma Pow2At31()
    ensures Pow2(30) == 0x4000_0000 && Pow2(31) == 0x8000_0000
  {
    assert Pow2(8) == 256;
    assert Pow2(16) == 0x1_0000;
    assert Pow2(24) == 0x100_0000;
    assert Pow2(30) == 0x4000_0000;
  }

  lemma {:induction false} BitLengthOfPredecessor(k: nat)
    ensures Pow2(k) - 1 >= 0 && BitLength(Pow2(k) - 1) == k
  {
    if k > 0 {
      BitLengthOfPredecessor(k - 1);
      assert (Pow2(k) - 1) / 2 == Pow2(k - 1) - 1;
    }
  }

  lemma {:induction false} UpperBoundIsLog(n: nat)
    ensures LogBound(UpperBound(n))
  {
    if n <= 1 {
      assert Pow2(0) == 1;
    } else if n <= MAX / 2 {
      var k := BitLength(n - 1);
      BitLengthBounds(n - 1);
      FitsWord(n);
      Pow2At31();
      assert Pow2(32) == 2 * Pow2(31);
      if k > 31 { Pow2Monotone(32, k); assert false; }
    }
  }

  // -------------------------------------------------------------- placement

  ghost predicate SameBound(bins: seq<Bin>, i: nat, j: nat) {
    i < |bins| && j < |bins| && bins[i].bound == bins[j].bound
  }

  /** Bounds are pairwise distinct. */
  ghost predicate Distinct(bins: seq<Bin>) {
    forall i, j :: SameBound(bins, i, j) ==> i == j
  }

  /** The bins in use fit the array, their bounds are distinct, and the bin of the
      maximum is the last one. */
  ghost predicate HistInv(h: Hist) {
    && 0 < |h.bins| <= h.cap
    && h.bins[|h.bins| - 1].bound == MAX
    && Distinct(h.bins)
  }

  /** Index of the bin with bound `ub`, or the number of bins if there is none. */
  function IndexOf(bins: seq<Bin>, ub: Word): (i: nat)
    ensures i <= |bins|
    ensures i < |bins| ==> bins[i].bound == ub
    ensures bins != [] && bins[|bins| - 1].bound == ub ==> i < |bins|
  {
    if bins == [] || bins[0].bound == ub then 0 else 1 + IndexOf(bins[1..], ub)
  }

  lemma {:induction false} IndexOfFinds(bins: seq<Bin>, k: nat)
    requires k < |bins|
    ensures IndexOf(bins, bins[k].bound) <= k
  {
    if k > 0 && bins[0].bound != bins[k].bound { IndexOfFinds(bins[1..], k - 1); }
  }

  /** First index from `i` on whose bound exceeds `ub`. */
  function FirstAbove(bins: seq<Bin>, ub: Word, i: nat): (j: nat)
    requires i < |bins| && bins[|bins| - 1].bound > ub
    ensures i <= j < |bins| && bins[j].bound > ub
    decreases |bins| - i
  {
    if bins[i].bound > ub then i else FirstAbove(bins, ub, i + 1)
  }

  /** Where a new bin goes.  The search takes index 0 for "none yet", so it settles on
      the first larger bound behind the first bin, if there is more than one bin. */
  function InsertAt(bins: seq<Bin>, ub: Word): (j: nat)
    requires bins != [] && bins[|bins| - 1].bound > ub
    ensures j < |bins| && bins[j].bound > ub
  {
    if |bins| == 1 then 0 else FirstAbove(bins, ub, 1)
  }

  datatype Placed = Placed(hist: Hist, index: nat)

  /** The bin to count a value with bound `ub` in.  `growOk`: a larger array may be
      asked for, and is obtained if the limit is not reached yet. */
  function Place(h: Hist, ub: Word, growOk: bool): (p: Placed)
    requires HistInv(h)
    ensures p.index < |p.hist.bins|
  {
    var i := IndexOf(h.bins, ub);
    if i < |h.bins| then Placed(h, i)
    else
      var j := InsertAt(h.bins, ub);
      var bins := h.bins[..j] + [Bin(ub, 0)] + h.bins[j..];
      if |h.bins| < h.cap then Placed(h.(bins := bins), j)
      else if growOk && h.cap < BINS_MAX then
        Placed(Hist(bins, h.cap + Increment(h.cap), h.sum), j)
      else Placed(h, j)
  }

  function Increment(cap: nat): nat
    requires cap < BINS_MAX
  {
    if BINS_INCREMENT < BINS_MAX - cap then BINS_INCREMENT else BINS_MAX - cap
  }

  /** Adds to the count of bin `i`, as a `uint32_t`. */
  function AddTo(h: Hist, i: nat, d: nat): Hist
    requires i < |h.bins|
  {
    h.(bins := h.bins[i := Bin(h.bins[i].bound, Wrap32(h.bins[i].count + d))])
  }

  /** A histogram within the limits. */
  ghost predicate Ok(h: Hist) {
    HistInv(h) && h.cap <= BINS_MAX
  }

  function Record(h: Hist, n: nat, growOk: bool): (r: Hist)
    requires Ok(h)
  {
    var p := Place(h, UpperBound(n), growOk);
    AddTo(p.hist, p.index, 1).(sum := Wrap64(h.sum + n))
  }

  /** The bound of the bin in which a recorded value is counted. */
  function CountedIn(h: Hist, n: nat, growOk: bool): Word
    requires Ok(h)
  {
    var p := Place(h, UpperBound(n), growOk);
    p.hist.bins[p.index].bound
  }

  function NewHist(): Hist {
    Hist([Bin(MAX, 0)], BINS_INIT, 0)
  }

  lemma {:induction false} DistinctInsert(bins: seq<Bin>, j: nat, ub: Word)
    requires Distinct(bins) && j <= |bins| && IndexOf(bins, ub) == |bins|
    ensures Distinct(bins[..j] + [Bin(ub, 0)] + bins[j..])
  {
    var r := bins[..j] + [Bin(ub, 0)] + bins[j..];
    forall a: nat, b: nat | SameBound(r, a, b) ensures a == b {
      if a == j || b == j {
        var k := if a == j then b else a;
        if k != j { IndexOfFinds(bins, if k < j then k else k - 1); }
      } else {
        assert SameBound(bins, if a < j then a else a - 1, if b < j then b else b - 1);
      }
    }
  }

  /** Placement keeps the invariant, and the bin found has the bound asked for unless
      there was no room; then its bound is a larger one. */
  lemma {:induction false} PlaceInv(h: Hist, ub: Word, growOk: bool)
    requires Ok(h)
    ensures var p := Place(h, ub, growOk);
            && Ok(p.hist) && p.hist.sum == h.sum
            && p.hist.bins[p.index].bound >= ub
            && (p.hist.bins[p.index].bound == ub <==>
                IndexOf(h.bins, ub) < |h.bins| || |h.bins| < h.cap || (growOk && h.cap < BINS_MAX))
  {
    var i := IndexOf(h.bins, ub);
    if i == |h.bins| {
      var j := InsertAt(h.bins, ub);
      DistinctInsert(h.bins, j, ub);
    }
  }
}
