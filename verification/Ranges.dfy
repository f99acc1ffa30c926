/** Runs of consecutive indices. */
module Ranges {
  function Range(a: nat, b: nat): seq<nat>
    decreases b - a
  {
    if a < b then [a] + Range(a + 1, b) else []
  }

  lemma {:induction false} RangeJoin(a: nat, b: nat, c: nat)
    requires a <= b <= c
    ensures Range(a, b) + Range(b, c) == Range(a, c)
    decreases b - a
  {
    if a < b {
      RangeJoin(a + 1, b, c);
      assert [a] + Range(a + 1, b) + Range(b, c) == [a] + (Range(a + 1, b) + Range(b, c));
    }
  }

  lemma {:induction false} RangeMember(a: nat, b: nat, k: nat)
    ensures k in Range(a, b) <==> a <= k < b
    decreases b - a
  {
    if a < b { RangeMember(a + 1, b, k); }
  }

  lemma {:induction false} EmptyRange(j: nat)
    ensures Range(j, j) == []
  {
  }

  lemma {:induction false} RangeAt(a: nat, b: nat, k: nat)
    requires a <= k < b
    ensures |Range(a, b)| == b - a && Range(a, b)[k - a] == k
    decreases k - a
  {
    RangeLength(a, b);
    if a < k { RangeAt(a + 1, b, k); }
  }

  lemma {:induction false} RangeLength(a: nat, b: nat)
    requires a <= b
    ensures |Range(a, b)| == b - a
    decreases b - a
  {
    if a < b { RangeLength(a + 1, b); }
  }
}
