/** Sequences of node addresses, as the eviction queues hold them: head first, the
    head being the newest. */
module Queues {

  type Addr = nat

  /** `ngx_queue_remove` */
  function Without(q: seq<Addr>, a: Addr): (r: seq<Addr>)
    ensures forall x :: x in r <==> x in q && x != a
    ensures |r| <= |q|
  {
    if q == [] then []
    else if q[0] == a then Without(q[1..], a)
    else [q[0]] + Without(q[1..], a)
  }

  predicate NoDup(q: seq<Addr>) {
    q == [] || (q[0] !in q[1..] && NoDup(q[1..]))
  }

  /** Every element was touched later than all elements behind it. */
  ghost predicate Newest(q: seq<Addr>, rank: map<Addr, int>) {
    q == [] ||
    (&& q[0] in rank
     && (forall x :: x in q[1..] ==> x in rank && rank[x] < rank[q[0]])
     && Newest(q[1..], rank))
  }

  /** The queue read from its tail. */
  function FromTail(q: seq<Addr>): (r: seq<Addr>)
    ensures |r| == |q|
    ensures forall x :: x in r <==> x in q
  {
    if q == [] then [] else
      var last := q[|q| - 1];
      assert forall x :: x in q <==> x == last || x in q[..|q| - 1];
      [last] + FromTail(q[..|q| - 1])
  }

  lemma {:induction false} WithoutAbsent(q: seq<Addr>, a: Addr)
    requires a !in q
    ensures Without(q, a) == q
  {
    if q != [] {
      WithoutAbsent(q[1..], a);
      assert q == [q[0]] + q[1..];
    }
  }

  lemma {:induction false} WithoutNoDup(q: seq<Addr>, a: Addr)
    requires NoDup(q)
    ensures NoDup(Without(q, a))
    ensures a in q ==> |Without(q, a)| == |q| - 1
  {
    if q != [] {
      WithoutNoDup(q[1..], a);
      var r := Without(q, a);
      if q[0] == a {
        WithoutAbsent(q[1..], a);
      } else {
        assert r[1..] == Without(q[1..], a);
      }
    }
  }

  lemma {:induction false} WithoutNewest(q: seq<Addr>, a: Addr, rank: map<Addr, int>, rank': map<Addr, int>)
    requires Newest(q, rank)
    requires forall x :: x in q && x != a ==> x in rank && x in rank' && rank'[x] == rank[x]
    ensures Newest(Without(q, a), rank')
  {
    if q != [] {
      WithoutNewest(q[1..], a, rank, rank');
      if q[0] != a {
        var r := Without(q, a);
        assert r[1..] == Without(q[1..], a);
        forall x | x in r[1..] ensures x in rank' && rank'[x] < rank'[r[0]] {
          assert x in q[1..];
        }
      }
    }
  }

  lemma {:induction false} NewestLast(q: seq<Addr>, rank: map<Addr, int>)
    requires Newest(q, rank) && q != []
    ensures forall x :: x in q ==> x in rank && rank[q[|q| - 1]] <= rank[x]
  {
    if |q| > 1 {
      NewestLast(q[1..], rank);
      assert q[1..][|q| - 2] == q[|q| - 1];
    }
  }

  /** Taking the tail off a queue without repetitions. */
  lemma {:induction false} WithoutLast(q: seq<Addr>)
    requires NoDup(q) && q != []
    ensures Without(q, q[|q| - 1]) == q[..|q| - 1]
  {
    var last := q[|q| - 1];
    if |q| == 1 {
      assert q[1..] == [];
    } else {
      assert q[1..][|q| - 2] == last;
      assert last in q[1..];
      WithoutLast(q[1..]);
      assert q[..|q| - 1] == [q[0]] + q[1..][..|q| - 2];
    }
  }

  lemma {:induction false} AppendNoDup(q: seq<Addr>, r: seq<Addr>)
    requires NoDup(q) && NoDup(r)
    requires forall x :: x in q ==> x !in r
    ensures NoDup(q + r)
  {
    if q == [] {
      assert q + r == r;
    } else {
      AppendNoDup(q[1..], r);
      assert (q + r)[1..] == q[1..] + r;
    }
  }

  lemma {:induction false} NoDupPrefix(q: seq<Addr>, n: nat)
    requires NoDup(q) && n <= |q|
    ensures NoDup(q[..n])
    ensures n < |q| ==> q[n] !in q[..n]
  {
    if n > 0 {
      NoDupPrefix(q[1..], n - 1);
      assert q[..n][1..] == q[1..][..n - 1];
      assert q[..n] == [q[0]] + q[1..][..n - 1];
      if n < |q| { assert q[n] == q[1..][n - 1] && q[n] in q[1..]; }
    }
  }

  lemma {:induction false} FromTailNoDup(q: seq<Addr>)
    requires NoDup(q)
    ensures NoDup(FromTail(q))
  {
    if q != [] {
      NoDupPrefix(q, |q| - 1);
      FromTailNoDup(q[..|q| - 1]);
      assert FromTail(q)[1..] == FromTail(q[..|q| - 1]);
    }
  }

  lemma {:induction false} NoDupCount(q: seq<Addr>, s: set<Addr>)
    requires NoDup(q)
    requires forall x :: x in q <==> x in s
    ensures |q| == |s|
  {
    if q == [] {
      assert s == {};
    } else {
      NoDupCount(q[1..], s - {q[0]});
    }
  }
}
