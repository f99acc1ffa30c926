/** Counting over the bins of a histogram. */
module HistogramMass {
  import opened Bytes
  import opened Histogram

  /** Total count of the bins whose bound satisfies `p`. */
  function Mass(bins: seq<Bin>, p: nat -> bool): nat {
    if bins == [] then 0
    else (if p(bins[0].bound) then bins[0].count else 0) + Mass(bins[1..], p)
  }

  function Any(): nat -> bool { b => true }
  function AtMost(t: nat): nat -> bool { b => b <= t }
  function Exactly(t: nat): nat -> bool { b => b == t }

  lemma {:induction false} MassAppend(a: seq<Bin>, b: seq<Bin>, p: nat -> bool)
    ensures Mass(a + b, p) == Mass(a, p) + Mass(b, p)
  {
    if a == [] {
      assert a + b == b;
    } else {
      MassAppend(a[1..], b, p);
      assert (a + b)[1..] == a[1..] + b;
    }
  }

  lemma {:induction false} MassInsert(bins: seq<Bin>, j: nat, ub: Word, p: nat -> bool)
    requires j <= |bins|
    ensures Mass(bins[..j] + [Bin(ub, 0)] + bins[j..], p) == Mass(bins, p)
  {
    assert bins == bins[..j] + bins[j..];
    MassAppend(bins[..j], bins[j..], p);
    MassAppend(bins[..j] + [Bin(ub, 0)], bins[j..], p);
    MassAppend(bins[..j], [Bin(ub, 0)], p);
    assert Mass([Bin(ub, 0)], p) == 0;
  }

  lemma {:induction false} MassUpdate(bins: seq<Bin>, i: nat, c: Word, p: nat -> bool)
    requires i < |bins|
    ensures var b := bins[i].bound;
            Mass(bins[i := Bin(b, c)], p) ==
            Mass(bins, p) + (if p(b) then c - bins[i].count else 0)
  {
    if i > 0 {
      MassUpdate(bins[1..], i - 1, c, p);
      assert bins[i := Bin(bins[i].bound, c)][1..] == bins[1..][i - 1 := Bin(bins[i].bound, c)];
    } else {
      assert bins[0 := Bin(bins[0].bound, c)][1..] == bins[1..];
    }
  }

  /** Placement moves no observation. */
  lemma {:induction false} PlaceMass(h: Hist, ub: Word, growOk: bool, p: nat -> bool)
    requires HistInv(h)
    ensures Mass(Place(h, ub, growOk).hist.bins, p) == Mass(h.bins, p)
  {
    var i := IndexOf(h.bins, ub);
    if i == |h.bins| {
      MassInsert(h.bins, InsertAt(h.bins, ub), ub, p);
    }
  }

  lemma {:induction false} MassCountBound(bins: seq<Bin>, i: nat, p: nat -> bool)
    requires i < |bins| && p(bins[i].bound)
    ensures bins[i].count <= Mass(bins, p)
  {
    if i > 0 { MassCountBound(bins[1..], i - 1, p); }
  }

  /** Adding to a bin adds to the mass as a 32-bit counter, and exactly if nothing overflows. */
  lemma {:induction false} AddToMass(h: Hist, i: nat, d: nat, p: nat -> bool)
    requires i < |h.bins|
    ensures var added := if p(h.bins[i].bound) then d else 0;
            && Wrap32(Mass(AddTo(h, i, d).bins, p)) == Wrap32(Mass(h.bins, p) + added)
            && (h.bins[i].count + d < U32 ==> Mass(AddTo(h, i, d).bins, p) == Mass(h.bins, p) + added)
  {
    var b := h.bins[i];
    MassUpdate(h.bins, i, Wrap32(b.count + d), p);
    if p(b.bound) {
      MassCountBound(h.bins, i, p);
      Wrap32Add(Mass(h.bins, p) - b.count, b.count + d);
    }
  }
}
