/** Size classes of the slab allocator, as the SLRU queues are indexed by them. */
module SlabClasses {

  function Pow2(k: nat): (r: nat)
    ensures r > 0
  {
    if k == 0 then 1 else 2 * Pow2(k - 1)
  }

  lemma {:induction false} Pow2Monotone(a: nat, b: nat)
    requires a <= b
    ensures Pow2(a) <= Pow2(b)
    decreases b
  {
    if a < b { Pow2Monotone(a, b - 1); }
  }

  /** Shifts of the smallest slot and of a page.  A slab pool has at least one slot. */
  datatype Pool = Pool(minShift: nat, pageShift: nat)

  predicate ValidPool(p: Pool) {
    p.minShift < p.pageShift
  }

  /** NGX_WASM_SLAB_SLOTS */
  function Slots(p: Pool): nat
    requires ValidPool(p)
  {
    p.pageShift - p.minShift
  }

  /** Bytes in a chunk of class `c`. */
  function ChunkSize(p: Pool, c: nat): (r: nat)
    ensures r > 0
  {
    Pow2(p.minShift + c)
  }

  /** The least class `r >= from` whose chunks hold `size` bytes; the class past the
      last slot takes everything larger. */
  function ClassFrom(p: Pool, size: nat, from: nat): (r: nat)
    requires ValidPool(p) && from <= Slots(p)
    ensures from <= r <= Slots(p)
    ensures r < Slots(p) ==> size <= ChunkSize(p, r)
    ensures forall c :: from <= c < r ==> ChunkSize(p, c) < size
    decreases Slots(p) - from
  {
    if from == Slots(p) || size <= ChunkSize(p, from) then from
    else ClassFrom(p, size, from + 1)
  }

  function SizeClass(p: Pool, size: nat): (r: nat)
    requires ValidPool(p)
    ensures r <= Slots(p)
  {
    ClassFrom(p, size, 0)
  }

  lemma {:induction false} SizeClassMonotone(p: Pool, s: nat, t: nat)
    requires ValidPool(p) && s <= t
    ensures SizeClass(p, s) <= SizeClass(p, t)
  {
    var c := SizeClass(p, t);
    assert c < Slots(p) ==> s <= ChunkSize(p, c);
  }

  /** A class that holds `size`, with none below it that does, is `SizeClass`. */
  lemma {:induction false} SizeClassUnique(p: Pool, size: nat, r: nat)
    requires ValidPool(p) && r <= Slots(p)
    requires r < Slots(p) ==> size <= ChunkSize(p, r)
    requires r > 0 ==> ChunkSize(p, r - 1) < size
    ensures SizeClass(p, size) == r
  {
    var c := SizeClass(p, size);
    assert r < Slots(p) ==> size <= ChunkSize(p, r);
    if c < r {
      Pow2Monotone(p.minShift + c, p.minShift + r - 1);
      assert false;
    }
  }

  /** Number of binary digits of `x`. */
  function BitLength(x: nat): nat {
    if x == 0 then 0 else 1 + BitLength(x / 2)
  }

  lemma {:induction false} BitLengthBounds(x: nat)
    ensures x < Pow2(BitLength(x))
    ensures x > 0 ==> BitLength(x) > 0 && Pow2(BitLength(x) - 1) <= x
  {
    if x > 0 {
      BitLengthBounds(x / 2);
      if x / 2 == 0 { assert BitLength(0) == 0 && Pow2(0) == 1; }
    }
  }

  lemma {:induction false} Pow2Reflects(a: nat, b: nat)
    requires Pow2(a) < Pow2(b)
    ensures a < b
  {
    if b <= a { Pow2Monotone(b, a); assert false; }
  }

  /** The shifting loop finds the least class that fits. */
  method SlruIndexForSize(p: Pool, size: nat) returns (r: nat)
    requires ValidPool(p)
    ensures r == SizeClass(p, size)
  {
    if size > Pow2(p.pageShift) / 2 {
      SizeClassUnique(p, size, Slots(p));
      return Slots(p);
    }
    if size > Pow2(p.minShift) {
      var shift := 1;
      var s := size - 1;
      while s / 2 != 0
        invariant s > 0 && shift + BitLength(s) == 1 + BitLength(size - 1)
      {
        s := s / 2;
        shift := shift + 1;
      }
      assert BitLength(s) == 1 by { assert s == 1; assert BitLength(s / 2) == 0; }
      BitLengthBounds(size - 1);
      assert Pow2(shift - 1) < size <= Pow2(shift);
      Pow2Reflects(p.minShift, shift);
      Pow2Reflects(shift - 1, p.pageShift - 1);
      SizeClassUnique(p, size, shift - p.minShift);
      return shift - p.minShift;
    }
    SizeClassUnique(p, size, 0);
    return 0;
  }
}
