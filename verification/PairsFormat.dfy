/** The format of a marshalled map, byte by byte. */
module PairsFormat {
  import opened Bytes
  import opened Pairs

  /** Where the key of pair `i` begins; for the number of pairs, where the map ends. */
  function KeyOffset(ps: seq<Pair>, i: nat): nat
    requires i <= |ps|
  {
    if i == 0 then 4 + 8 * |ps| else KeyOffset(ps, i - 1) + |ps[i - 1].key| + 1 + |ps[i - 1].value| + 1
  }

  lemma {:induction false} LensJoin(a: seq<Pair>, b: seq<Pair>)
    requires forall i :: 0 <= i < |a| ==> |a[i].key| < U32 && |a[i].value| < U32
    requires forall i :: 0 <= i < |b| ==> |b[i].key| < U32 && |b[i].value| < U32
    ensures Lens(a + b) == Lens(a) + Lens(b)
  {
    hide LensOf;
    if a == [] {
      assert a + b == b;
    } else {
      LensJoin(a[1..], b);
      assert (a + b)[1..] == a[1..] + b && (a + b)[0] == a[0];
      assert Lens(a) + Lens(b) == LensOf(a[0]) + (Lens(a[1..]) + Lens(b));
    }
  }

  lemma {:induction false} BodiesJoin(a: seq<Pair>, b: seq<Pair>)
    ensures Bodies(a + b) == Bodies(a) + Bodies(b)
  {
    hide BodyOf;
    if a == [] {
      assert a + b == b;
    } else {
      BodiesJoin(a[1..], b);
      assert (a + b)[1..] == a[1..] + b && (a + b)[0] == a[0];
      assert Bodies(a) + Bodies(b) == BodyOf(a[0]) + (Bodies(a[1..]) + Bodies(b));
    }
  }

  lemma {:induction false} BodiesUnfold(ps: seq<Pair>)
    requires ps != []
    ensures Bodies(ps) == BodyOf(ps[0]) + Bodies(ps[1..])
  {
  }

  lemma {:induction false} BodySize(p: Pair)
    ensures |BodyOf(p)| == |p.key| + 1 + |p.value| + 1
  {
  }

  lemma {:induction false} BodiesOne(p: Pair)
    ensures Bodies([p]) == BodyOf(p)
  {
    assert [p][1..] == [];
  }

  lemma {:induction false} NoneEncoded()
    ensures Bodies([]) == []
  {
  }

  lemma {:induction false} OffsetIs(ps: seq<Pair>, i: nat)
    requires i <= |ps|
    ensures KeyOffset(ps, i) == 4 + 8 * |ps| + |Bodies(ps[..i])|
  {
    hide Bodies, BodyOf;
    if i > 0 {
      OffsetIs(ps, i - 1);
      assert ps[..i] == ps[..i - 1] + [ps[i - 1]];
      BodiesJoin(ps[..i - 1], [ps[i - 1]]);
      BodiesOne(ps[i - 1]);
      BodySize(ps[i - 1]);
    } else {
      assert ps[..0] == [];
      NoneEncoded();
    }
  }

  lemma {:induction false} Regroup(a: Bytes, b: Bytes, c: Bytes, d: Bytes)
    ensures a + (b + (c + d)) == (a + b) + c + d
  {
  }

  /** The lengths of the pairs, in front of the pairs themselves. */
  lemma {:induction false} LensAt(ps: seq<Pair>, i: nat)
    requires Fits(ps) && i < |ps|
    ensures var s, at := Encode(ps), 4 + 8 * i;
            && at + 8 <= |s|
            && s[at..at + 4] == LE32(|ps[i].key|) && s[at + 4..at + 8] == LE32(|ps[i].value|)
  {
    hide Lens, Bodies, LE32;
    var pre, k, v := LE32(|ps|) + Lens(ps[..i]), LE32(|ps[i].key|), LE32(|ps[i].value|);
    assert ps == ps[..i] + ps[i..] && ps[i..][1..] == ps[i + 1..];
    LensJoin(ps[..i], ps[i..]);
    LensRead([], ps[..i], []);
    LE32Length(|ps|);
    var rest := Lens(ps[i + 1..]) + Bodies(ps);
    LensUnfold(ps[i..]);
    assert Encode(ps) == pre + k + (v + rest);
    SliceAt(pre, k, v + rest);
    assert Encode(ps) == (pre + k) + v + rest;
    SliceAt(pre + k, v, rest);
    LE32Length(|ps[i].key|);
    LE32Length(|ps[i].value|);
  }

  lemma {:induction false} LensUnfold(ps: seq<Pair>)
    requires ps != [] && forall i :: 0 <= i < |ps| ==> |ps[i].key| < U32 && |ps[i].value| < U32
    ensures Lens(ps) == LE32(|ps[0].key|) + LE32(|ps[0].value|) + Lens(ps[1..])
  {
  }

  /** A pair among the others. */
  lemma {:induction false} BodyPlace(ps: seq<Pair>, i: nat) returns (pre: Bytes, post: Bytes)
    requires Fits(ps) && i < |ps|
    ensures Encode(ps) == pre + BodyOf(ps[i]) + post && |pre| == KeyOffset(ps, i)
  {
    hide Bodies, BodyOf, LE32, Lens;
    OffsetIs(ps, i);
    assert ps == ps[..i] + ps[i..] && ps[i..][1..] == ps[i + 1..];
    BodiesJoin(ps[..i], ps[i..]);
    BodiesUnfold(ps[i..]);
    var head := LE32(|ps|) + Lens(ps);
    LE32Length(|ps|);
    LensRead([], ps, []);
    pre, post := head + Bodies(ps[..i]), Bodies(ps[i + 1..]);
    Regroup(head, Bodies(ps[..i]), BodyOf(ps[i]), post);
  }

  lemma {:induction false} BodyBytes(pre: Bytes, p: Pair, post: Bytes)
    ensures var s, at, k, v := pre + BodyOf(p) + post, |pre|, |p.key|, |p.value|;
            && at + k + 1 + v + 1 <= |s|
            && s[at..at + k] == p.key && s[at + k] == 0
            && s[at + k + 1..at + k + 1 + v] == p.value && s[at + k + 1 + v] == 0
  {
    BodyAt(pre, p, post);
  }

  /** The number of pairs comes first, and the map ends behind the last pair. */
  lemma {:induction false} MapEnds(ps: seq<Pair>)
    requires Fits(ps)
    ensures |Encode(ps)| == KeyOffset(ps, |ps|) && 4 <= |Encode(ps)| && NumberAt(Encode(ps), 0) == |ps|
  {
    hide Lens, Bodies, LE32, NumberAt;
    OffsetIs(ps, |ps|);
    assert ps[..|ps|] == ps;
    LensRead([], ps, []);
    LE32Length(|ps|);
    assert Encode(ps) == [] + LE32(|ps|) + (Lens(ps) + Bodies(ps));
    SliceAt([], LE32(|ps|), Lens(ps) + Bodies(ps));
    NumberOfSlice(Encode(ps), 0, |ps|);
  }

  /** The format of pair `i`: behind the number of pairs, the lengths of its key and of its
      value, after those of the pairs before it; and then, right behind the pair before
      it, the key, a zero byte, the value and a zero byte. */
  lemma {:induction false} PairFormat(ps: seq<Pair>, i: nat)
    requires Fits(ps) && i < |ps|
    ensures var s, at, k, v := Encode(ps), KeyOffset(ps, i), |ps[i].key|, |ps[i].value|;
            && 4 + 8 * i + 8 <= at <= at + k + 1 + v + 1 <= |s|
            && NumberAt(s, 4 + 8 * i) == k && NumberAt(s, 4 + 8 * i + 4) == v
            && s[at..at + k] == ps[i].key && s[at + k] == 0
            && s[at + k + 1..at + k + 1 + v] == ps[i].value && s[at + k + 1 + v] == 0
  {
    hide LE32, Lens, Bodies, BodyOf, NumberAt;
    var s := Encode(ps);
    var pre, post := BodyPlace(ps, i);
    BodyBytes(pre, ps[i], post);
    OffsetIs(ps, i);
    LensAt(ps, i);
    NumberOfSlice(s, 4 + 8 * i, |ps[i].key|);
    NumberOfSlice(s, 4 + 8 * i + 4, |ps[i].value|);
  }
}
