/** The histogram as it is updated in place: an array of bins, shifted to make room and
    reallocated to grow. */
module HistogramArray {
  import opened Bytes
  import opened Histogram
  import opened HistogramRuns
  import opened HistogramMerge

  /** The index that the search holds after `i` bins: it is replaced while it is zero. */
  ghost function SearchIndex(bins: seq<Bin>, ub: Word, i: nat): nat
    requires i <= |bins|
  {
    if i == 0 then 0
    else
      var j := SearchIndex(bins, ub, i - 1);
      if j == 0 && ub < bins[i - 1].bound then i - 1 else j
  }

  lemma {:induction false} SearchBefore(bins: seq<Bin>, ub: Word, from: nat, i: nat)
    requires 1 <= from <= i < |bins| && bins[|bins| - 1].bound > ub
    requires SearchIndex(bins, ub, from) == 0
    requires i <= FirstAbove(bins, ub, from)
    ensures SearchIndex(bins, ub, i) == 0
    decreases i - from
  {
    if from < i {
      assert SearchIndex(bins, ub, from + 1) == 0;
      SearchBefore(bins, ub, from + 1, i);
    }
  }

  lemma {:induction false} SearchAfter(bins: seq<Bin>, ub: Word, j: nat, i: nat)
    requires 0 < j < i <= |bins| && SearchIndex(bins, ub, j + 1) == j
    ensures SearchIndex(bins, ub, i) == j
    decreases i
  {
    if j + 1 < i { SearchAfter(bins, ub, j, i - 1); }
  }

  /** The search ends at the place for the new bin. */
  lemma {:induction false} SearchFinds(bins: seq<Bin>, ub: Word)
    requires bins != [] && bins[|bins| - 1].bound > ub
    ensures SearchIndex(bins, ub, |bins|) == InsertAt(bins, ub)
  {
    assert SearchIndex(bins, ub, 1) == 0 by { assert SearchIndex(bins, ub, 0) == 0; }
    if |bins| > 1 {
      var j := FirstAbove(bins, ub, 1);
      SearchBefore(bins, ub, 1, j);
      assert SearchIndex(bins, ub, j + 1) == j;
      SearchAfter(bins, ub, j, |bins|);
    }
  }

  lemma {:induction false} IndexOfAt(bins: seq<Bin>, ub: Word, i: nat)
    requires i < |bins| && bins[i].bound == ub
    requires forall k :: 0 <= k < i ==> bins[k].bound != ub
    ensures IndexOf(bins, ub) == i
  {
    IndexOfFinds(bins, i);
  }

  lemma {:induction false} Inserted(r: seq<Bin>, s: seq<Bin>, j: nat, b: Bin)
    requires j <= |s| && |r| == |s| + 1 && r[j] == b
    requires forall k :: 0 <= k < j ==> r[k] == s[k]
    requires forall k :: j < k < |r| ==> r[k] == s[k - 1]
    ensures r == s[..j] + [b] + s[j..]
  {
  }

  class HistogramSlot {
    var bins: array<Bin>
    var sum: nat
    ghost var used: nat

    ghost predicate Valid()
      reads this, bins
    {
      used <= bins.Length && Ok(Abs())
    }

    ghost function Abs(): (h: Hist)
      requires used <= bins.Length
      reads this, bins
    {
      Hist(bins[..used], bins.Length, sum)
    }

    /** A new slot, or an output buffer, with `cap` bins. */
    constructor (cap: nat)
      requires 0 < cap <= BINS_MAX
      ensures Valid() && fresh(bins) && Abs() == EmptyHist(cap)
    {
      bins := new Bin[cap](i => if i == 0 then Bin(MAX, 0) else Bin(0, 0));
      sum, used := 0, 1;
      new;
      assert bins[..1] == [Bin(MAX, 0)];
      assert forall i, j :: SameBound(bins[..1], i, j) ==> i == j;
    }

    /** The slot that holds histogram `h`. */
    constructor Load(h: Hist)
      requires Ok(h)
      ensures Valid() && fresh(bins) && Abs() == h
    {
      bins := new Bin[h.cap](i => if 0 <= i < |h.bins| then h.bins[i] else Bin(0, 0));
      sum, used := h.sum, |h.bins|;
      new;
      assert bins[..used] == h.bins;
    }

    /** The histogram in the slot: its bins end with the one of the maximum. */
    method Value() returns (h: Hist)
      requires Valid()
      ensures h == Abs()
    {
      var i := 0;
      while bins[i].bound != MAX
        invariant i < used
        invariant forall k :: 0 <= k < i ==> bins[k].bound != MAX
        decreases used - i
      {
        i := i + 1;
      }
      assert SameBound(bins[..used], i, used - 1);
      h := Hist(bins[..i + 1], bins.Length, sum);
    }

    /** Moves the bins to a larger array, if the limit and the allocator allow it. */
    method Grow(allocOk: bool) returns (ok: bool)
      requires Valid()
      modifies this
      ensures used == old(used) && sum == old(sum)
      ensures ok == (allocOk && old(bins.Length) < BINS_MAX)
      ensures !ok ==> bins == old(bins)
      ensures ok ==> fresh(bins) && bins.Length == old(bins.Length) + Increment(old(bins.Length))
                     && bins[..old(bins.Length)] == old(bins[..])
    {
      if bins.Length == BINS_MAX || !allocOk {
        return false;
      }
      var n := if BINS_INCREMENT < BINS_MAX - bins.Length then BINS_INCREMENT else BINS_MAX - bins.Length;
      var b := bins;
      var bigger := new Bin[b.Length + n](i => Bin(0, 0));
      forall i | 0 <= i < b.Length {
        bigger[i] := b[i];
      }
      bins := bigger;
      return true;
    }

    /** Moves the bins `j .. i` up by one, all at once, and puts a new bin at `j`. */
    method InsertBin(i: nat, j: nat, ub: Word, ghost s: seq<Bin>)
      requires j <= i < bins.Length && s == bins[..i]
      modifies bins
      ensures bins[..i + 1] == s[..j] + [Bin(ub, 0)] + s[j..]
    {
      forall k | j < k <= i {
        bins[k] := bins[k - 1];
      }
      bins[j] := Bin(ub, 0);
      Inserted(bins[..i + 1], s, j, Bin(ub, 0));
    }

    /** The scan over the bins in use. */
    method Scan(ub: Word) returns (i: nat, j: nat, found: bool)
      requires Valid()
      ensures found ==> i == IndexOf(bins[..used], ub) < used
      ensures !found ==> i == used && IndexOf(bins[..used], ub) == used && ub < MAX
                         && j == InsertAt(bins[..used], ub)
    {
      ghost var bs := bins[..used];
      i, j, found := 0, 0, false;
      while i < bins.Length
        invariant i < used && j == SearchIndex(bs, ub, i)
        invariant forall k :: 0 <= k < i ==> bs[k].bound != ub
        decreases bins.Length - i
      {
        var b := bins[i];
        assert b == bs[i];
        if j == 0 && ub < b.bound {
          j := i;
        }
        if b.bound == ub {
          IndexOfAt(bs, ub, i);
          found := true;
          return;
        }
        i := i + 1;
        if b.bound == MAX {
          assert SameBound(bs, i - 1, used - 1);
          break;
        }
      }
      assert i == used;
      SearchFinds(bs, ub);
    }

    /** The bin to count value `n` in.  `mayGrow` tells records from merges. */
    method Log2Bin(n: nat, mayGrow: bool, allocOk: bool, ghost h: Hist) returns (idx: nat)
      requires Valid() && Abs() == h
      modifies this, bins
      ensures bins == old(bins) || (mayGrow && fresh(bins))
      ensures used <= bins.Length
      ensures Abs() == Place(h, UpperBound(n), mayGrow && allocOk).hist
      ensures idx == Place(h, UpperBound(n), mayGrow && allocOk).index
    {
      var ub := BinLog2UpperBound(n);
      var i, j, found := Scan(ub);
      if found {
        return i;
      }
      if i == bins.Length {
        var grown := false;
        if mayGrow {
          grown := Grow(allocOk);
        }
        if !grown {
          return j;
        }
        assert bins[..i] == h.bins;
      }
      InsertBin(i, j, ub, h.bins);
      used := used + 1;
      return j;
    }

    method RecordValue(n: nat, allocOk: bool, ghost h: Hist)
      requires Valid() && Abs() == h
      modifies this, bins
      ensures bins == old(bins) || fresh(bins)
      ensures Valid() && Abs() == Record(h, n, allocOk)
    {
      hide Place, UpperBound, Ok;
      var idx := Log2Bin(n, true, allocOk, h);
      RecordOk(h, n, allocOk);
      PlaceInv(h, UpperBound(n), allocOk);
      AddCount(idx, 1, Abs());
      sum := Wrap64(sum + n);
    }

    /** Adds to the count of one bin. */
    method AddCount(idx: nat, d: nat, ghost h: Hist)
      requires used <= bins.Length && Abs() == h && idx < used
      modifies bins
      ensures Abs() == AddTo(h, idx, d)
    {
      bins[idx] := Bin(bins[idx].bound, Wrap32(bins[idx].count + d));
      assert bins[..used] == h.bins[idx := Bin(h.bins[idx].bound, Wrap32(h.bins[idx].count + d))];
    }

    /** Adds one bin of a worker. */
    method MergeBinInto(b: Bin, ghost h: Hist)
      requires Valid() && Abs() == h
      modifies this, bins
      ensures bins == old(bins)
      ensures Valid() && Abs() == MergeBin(h, b)
    {
      hide Place, UpperBound, Ok;
      var idx := Log2Bin(b.bound, false, false, h);
      MergeBinOk(h, b);
      AddCount(idx, b.count, Abs());
    }

    /** Adds all bins of one worker; the bin of the maximum is its last one. */
    method MergeOne(src: Hist, ghost h: Hist)
      requires Valid() && Abs() == h && Ok(src)
      modifies this, bins
      ensures bins == old(bins)
      ensures Valid() && Abs() == MergeBins(h, src.bins)
    {
      var j := 0;
      ghost var acc := h;
      assert src.bins[0..] == src.bins;
      while j < |src.bins|
        invariant 0 <= j <= |src.bins| && bins == old(bins)
        invariant Valid() && Abs() == acc
        invariant Ok(acc) && MergeBins(h, src.bins) == MergeBins(acc, src.bins[j..])
      {
        MergeBinsStep(acc, src.bins[j..]);
        assert src.bins[j..][1..] == src.bins[j + 1..];
        MergeBinInto(src.bins[j], acc);
        acc := MergeBin(acc, src.bins[j]);
        j := j + 1;
      }
    }

    /** Adds the bins and the sum of one worker. */
    method MergeWorker(src: Hist, ghost h: Hist)
      requires Valid() && Abs() == h && Ok(src)
      modifies this, bins
      ensures bins == old(bins)
      ensures Valid() && Abs() == MergeFirst(h, src)
    {
      MergeOne(src, h);
      MergeBinsOk(h, src.bins);
      MergeSumOk(MergeBins(h, src.bins), src.sum);
      sum := Wrap64(sum + src.sum);
    }

    /** Adds the histograms of all workers, one after the other. */
    method MergeAll(srcs: seq<Hist>, ghost h: Hist)
      requires Valid() && Abs() == h
      requires forall i :: 0 <= i < |srcs| ==> Ok(srcs[i])
      modifies this, bins
      ensures bins == old(bins)
      ensures Valid() && Abs() == Merge(h, srcs)
    {
      var i := 0;
      ghost var acc := h;
      assert srcs[0..] == srcs;
      while i < |srcs|
        invariant 0 <= i <= |srcs| && bins == old(bins)
        invariant Valid() && Abs() == acc
        invariant Ok(acc) && Merge(h, srcs) == Merge(acc, srcs[i..])
      {
        MergeStep(acc, srcs[i..]);
        assert srcs[i..][1..] == srcs[i + 1..];
        MergeWorker(srcs[i], acc);
        acc := MergeFirst(acc, srcs[i]);
        i := i + 1;
      }
    }
  }
}
