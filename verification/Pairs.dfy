/** Maps of key and value pairs as they are passed to filters: the number of pairs, the
    lengths of all keys and values, then their bytes, each followed by a zero byte. */
module Pairs {
  import opened Wrappers
  import opened Bytes

  datatype Pair = Pair(key: Bytes, value: Bytes)

  /** Lengths are 32-bit numbers in the map. */
  ghost predicate Fits(ps: seq<Pair>) {
    |ps| < U32 && forall i :: 0 <= i < |ps| ==> |ps[i].key| < U32 && |ps[i].value| < U32
  }

  // ----------------------------------------------------------------- encoding

  ghost function LensOf(p: Pair): Bytes
    requires |p.key| < U32 && |p.value| < U32
  {
    LE32(|p.key|) + LE32(|p.value|)
  }

  ghost function BodyOf(p: Pair): Bytes {
    p.key + [0] + p.value + [0]
  }

  ghost function Lens(ps: seq<Pair>): Bytes
    requires forall i :: 0 <= i < |ps| ==> |ps[i].key| < U32 && |ps[i].value| < U32
  {
    if ps == [] then [] else LensOf(ps[0]) + Lens(ps[1..])
  }

  ghost function Bodies(ps: seq<Pair>): Bytes {
    if ps == [] then [] else BodyOf(ps[0]) + Bodies(ps[1..])
  }

  ghost function Encode(ps: seq<Pair>): Bytes
    requires Fits(ps)
  {
    LE32(|ps|) + Lens(ps) + Bodies(ps)
  }

  // ----------------------------------------------------------------- decoding

  function Read32(s: Bytes, at: nat): nat
    requires at + 4 <= |s|
  {
    FromLE32(s[at..at + 4])
  }

  /** Reads `count` pairs of lengths. */
  function ReadLens(s: Bytes, at: nat, count: nat): Option<seq<(nat, nat)>>
    decreases count
  {
    if count == 0 then Some([])
    else if at + 8 > |s| then None
    else match ReadLens(s, at + 8, count - 1)
      case None => None
      case Some(rest) => Some([(Read32(s, at), Read32(s, at + 4))] + rest)
  }

  /** Reads the bytes of pairs with lengths `lens`. */
  function ReadBodies(s: Bytes, at: nat, lens: seq<(nat, nat)>): Option<seq<Pair>>
    decreases |lens|
  {
    if lens == [] then Some([])
    else
      var (k, v) := lens[0];
      if at + k + 1 + v + 1 > |s| then None
      else match ReadBodies(s, at + k + 1 + v + 1, lens[1..])
        case None => None
        case Some(rest) => Some([Pair(s[at..at + k], s[at + k + 1..at + k + 1 + v])] + rest)
  }

  /** `None` stands for a map whose numbers lead past its end. */
  function Decode(s: Bytes): Option<seq<Pair>> {
    if s == [] then Some([])
    else if |s| < 4 then None
    else
      var count := Read32(s, 0);
      match ReadLens(s, 4, count)
      case None => None
      case Some(lens) => ReadBodies(s, 4 + 8 * count, lens)
  }

  // --------------------------------------------------------------- round trip

  ghost function LengthsOf(ps: seq<Pair>): seq<(nat, nat)> {
    if ps == [] then [] else [(|ps[0].key|, |ps[0].value|)] + LengthsOf(ps[1..])
  }

  lemma {:induction false} Read32At(pre: Bytes, n: nat, post: Bytes)
    requires n < U32
    ensures Read32(pre + LE32(n) + post, |pre|) == n
  {
    var s := pre + LE32(n) + post;
    assert s[|pre|..|pre| + 4] == LE32(n);
    LE32RoundTrip(n, []);
    assert LE32(n) + [] == LE32(n);
  }

  lemma {:induction false} LensCons(pre: Bytes, ps: seq<Pair>, post: Bytes)
    requires ps != [] && forall i :: 0 <= i < |ps| ==> |ps[i].key| < U32 && |ps[i].value| < U32
    ensures var k, v, rest := LE32(|ps[0].key|), LE32(|ps[0].value|), Lens(ps[1..]);
            var s := pre + Lens(ps) + post;
            && s == pre + k + v + rest + post
            && s == pre + k + (v + rest + post)
            && s == pre + k + v + (rest + post)
            && |Lens(ps)| == 8 + |rest|
  {
    hide LittleEndian;
  }

  lemma {:induction false} ReadLensStep(s: Bytes, at: nat, count: nat, k: nat, v: nat, rest: seq<(nat, nat)>)
    requires at + 8 <= |s| && Read32(s, at) == k && Read32(s, at + 4) == v
    requires ReadLens(s, at + 8, count) == Some(rest)
    ensures ReadLens(s, at, count + 1) == Some([(k, v)] + rest)
  {
  }

  lemma {:induction false} NoLens(pre: Bytes, post: Bytes)
    ensures Lens([]) == [] && ReadLens(pre + Lens([]) + post, |pre|, 0) == Some(LengthsOf([]))
  {
  }

  lemma {:induction false} LengthsUnfold(ps: seq<Pair>)
    requires ps != []
    ensures LengthsOf(ps) == [(|ps[0].key|, |ps[0].value|)] + LengthsOf(ps[1..])
  {
  }

  lemma {:induction false} LensRead(pre: Bytes, ps: seq<Pair>, post: Bytes)
    requires forall i :: 0 <= i < |ps| ==> |ps[i].key| < U32 && |ps[i].value| < U32
    ensures |Lens(ps)| == 8 * |ps|
    ensures ReadLens(pre + Lens(ps) + post, |pre|, |ps|) == Some(LengthsOf(ps))
    decreases |ps|
  {
    hide LE32, Read32, Lens, ReadLens, LengthsOf, LittleEndian;
    if ps == [] {
      NoLens(pre, post);
    } else {
      var k, v, rest := LE32(|ps[0].key|), LE32(|ps[0].value|), Lens(ps[1..]);
      LensCons(pre, ps, post);
      LensRead(pre + k + v, ps[1..], post);
      Read32At(pre, |ps[0].key|, v + rest + post);
      Read32At(pre + k, |ps[0].value|, rest + post);
      LengthsUnfold(ps);
      ReadLensStep(pre + Lens(ps) + post, |pre|, |ps| - 1, |ps[0].key|, |ps[0].value|, LengthsOf(ps[1..]));
    }
  }

  lemma {:induction false} SliceAt(pre: Bytes, mid: Bytes, post: Bytes)
    ensures (pre + mid + post)[|pre|..|pre| + |mid|] == mid
  {
  }

  lemma {:induction false} BodyAt(pre: Bytes, p: Pair, post: Bytes)
    ensures var s, at := pre + BodyOf(p) + post, |pre|;
            && at + |p.key| + 1 + |p.value| + 1 == |pre + BodyOf(p)| <= |s|
            && s[at..at + |p.key|] == p.key
            && s[at + |p.key| + 1..at + |p.key| + 1 + |p.value|] == p.value
  {
    var s := pre + BodyOf(p) + post;
    assert s == pre + p.key + ([0] + p.value + [0] + post);
    SliceAt(pre, p.key, [0] + p.value + [0] + post);
    assert s == (pre + p.key + [0]) + p.value + ([0] + post);
    SliceAt(pre + p.key + [0], p.value, [0] + post);
  }

  lemma {:induction false} BodiesCons(pre: Bytes, ps: seq<Pair>, post: Bytes)
    requires ps != []
    ensures pre + Bodies(ps) + post == pre + BodyOf(ps[0]) + Bodies(ps[1..]) + post
    ensures pre + Bodies(ps) + post == pre + BodyOf(ps[0]) + (Bodies(ps[1..]) + post)
  {
    hide BodyOf;
  }

  lemma {:induction false} ReadBodiesStep(s: Bytes, at: nat, lens: seq<(nat, nat)>, p: Pair, rest: seq<Pair>)
    requires lens != [] && lens[0] == (|p.key|, |p.value|)
    requires at + |p.key| + 1 + |p.value| + 1 <= |s|
    requires s[at..at + |p.key|] == p.key
    requires s[at + |p.key| + 1..at + |p.key| + 1 + |p.value|] == p.value
    requires ReadBodies(s, at + |p.key| + 1 + |p.value| + 1, lens[1..]) == Some(rest)
    ensures ReadBodies(s, at, lens) == Some([p] + rest)
  {
  }

  lemma {:induction false} LengthsCons(ps: seq<Pair>)
    requires ps != []
    ensures LengthsOf(ps) != [] && LengthsOf(ps)[0] == (|ps[0].key|, |ps[0].value|)
    ensures LengthsOf(ps)[1..] == LengthsOf(ps[1..]) && ps == [ps[0]] + ps[1..]
  {
  }

  lemma {:induction false} NoBodies(pre: Bytes, post: Bytes)
    ensures ReadBodies(pre + Bodies([]) + post, |pre|, LengthsOf([])) == Some([])
  {
  }

  lemma {:induction false} BodiesRead(pre: Bytes, ps: seq<Pair>, post: Bytes)
    ensures ReadBodies(pre + Bodies(ps) + post, |pre|, LengthsOf(ps)) == Some(ps)
    decreases |ps|
  {
    hide *;
    if ps == [] {
      NoBodies(pre, post);
    } else {
      var p, rest := ps[0], Bodies(ps[1..]);
      BodiesRead(pre + BodyOf(p), ps[1..], post);
      BodiesCons(pre, ps, post);
      BodyAt(pre, p, rest + post);
      LengthsCons(ps);
      ReadBodiesStep(pre + Bodies(ps) + post, |pre|, LengthsOf(ps), p, ps[1..]);
    }
  }

  /** Decoding what was encoded gives back the pairs, whatever follows them. */
  lemma {:induction false} RoundTrip(ps: seq<Pair>, post: Bytes)
    requires Fits(ps)
    ensures Decode(Encode(ps) + post) == Some(ps)
  {
    hide LE32, Read32, ReadLens, ReadBodies, Lens, Bodies;
    var s := Encode(ps) + post;
    assert s == [] + LE32(|ps|) + (Lens(ps) + Bodies(ps) + post);
    Read32At([], |ps|, Lens(ps) + Bodies(ps) + post);
    assert s == LE32(|ps|) + Lens(ps) + (Bodies(ps) + post);
    LensRead(LE32(|ps|), ps, Bodies(ps) + post);
    assert s == LE32(|ps|) + Lens(ps) + Bodies(ps) + post;
    BodiesRead(LE32(|ps|) + Lens(ps), ps, post);
    LE32Length(|ps|);
  }

  // --------------------------------------------------------------------- lists

  /** An entry of a table; its hash is zero once it is removed. */
  datatype Elt = Elt(hash: nat, key: Bytes, value: Bytes)

  /** A list is made of parts, of which only the first may be empty. */
  type List = seq<seq<Elt>>

  predicate ListOk(list: List) {
    list != [] && forall p :: 0 < p < |list| ==> list[p] != []
  }

  function PairOf(e: Elt): Pair {
    Pair(e.key, e.value)
  }

  ghost function Live(es: seq<Elt>): seq<Pair> {
    if es == [] then []
    else (if es[0].hash != 0 then [PairOf(es[0])] else []) + Live(es[1..])
  }

  ghost function LiveIn(list: List): seq<Pair> {
    if list == [] then [] else Live(list[0]) + LiveIn(list[1..])
  }

  ghost function AllPairs(es: seq<Elt>): seq<Pair> {
    seq(|es|, i requires 0 <= i < |es| => PairOf(es[i]))
  }

  /** The pairs that are passed: extras first, and no more than `max` unless it is zero. */
  ghost function Selected(list: List, extras: seq<Elt>, max: nat): seq<Pair> {
    var all := AllPairs(extras) + LiveIn(list);
    if max != 0 && |all| > max then all[..max] else all
  }

  /** The number of live entries among the first `i`. */
  function LiveBefore(es: seq<Elt>, i: nat): nat
    requires i <= |es|
  {
    if i == 0 then 0 else LiveBefore(es, i - 1) + if es[i - 1].hash != 0 then 1 else 0
  }

  lemma {:induction false} LiveJoin(a: seq<Elt>, b: seq<Elt>)
    ensures Live(a + b) == Live(a) + Live(b)
  {
    if a == [] {
      assert a + b == b;
    } else {
      LiveJoin(a[1..], b);
      assert (a + b)[1..] == a[1..] + b && (a + b)[0] == a[0];
      var one: seq<Pair> := if a[0].hash != 0 then [PairOf(a[0])] else [];
      assert one + (Live(a[1..]) + Live(b)) == one + Live(a[1..]) + Live(b);
    }
  }

  lemma {:induction false} LiveOne(e: Elt)
    ensures Live([e]) == if e.hash != 0 then [Pair(e.key, e.value)] else []
  {
    assert [e][1..] == [];
  }

  lemma {:induction false} LiveCount(es: seq<Elt>, i: nat)
    requires i <= |es|
    ensures |Live(es[..i])| == LiveBefore(es, i)
  {
    hide Live;
    if i > 0 {
      LiveCount(es, i - 1);
      assert es[..i] == es[..i - 1] + [es[i - 1]];
      LiveJoin(es[..i - 1], [es[i - 1]]);
      LiveOne(es[i - 1]);
    } else {
      NoneLive();
      assert es[..0] == [];
    }
  }

  lemma {:induction false} NoneLive()
    ensures Live([]) == []
  {
  }

  /** The entries of a part that were not removed are passed, in their order, and no others
      are. */
  lemma {:induction false} LiveAt(es: seq<Elt>, i: nat)
    requires i < |es|
    ensures |Live(es)| == LiveBefore(es, |es|)
    ensures es[i].hash != 0 ==>
              LiveBefore(es, i) < |Live(es)| && Live(es)[LiveBefore(es, i)] == Pair(es[i].key, es[i].value)
  {
    hide Live;
    LiveCount(es, |es|);
    assert es[..|es|] == es;
    LiveCount(es, i);
    var rest := es[i + 1..];
    assert es == es[..i] + ([es[i]] + rest);
    LiveJoin(es[..i], [es[i]] + rest);
    LiveJoin([es[i]], rest);
    LiveOne(es[i]);
  }

  lemma {:induction false} LiveInJoin(list: List, p: nat)
    requires p <= |list|
    ensures LiveIn(list) == LiveIn(list[..p]) + LiveIn(list[p..])
  {
    if p == 0 {
      assert list[..0] == [] && list[0..] == list;
    } else {
      LiveInJoin(list[1..], p - 1);
      assert list[..p][1..] == list[1..][..p - 1] && list[1..][p - 1..] == list[p..];
      var rest := list[1..];
      assert Live(list[0]) + (LiveIn(rest[..p - 1]) + LiveIn(rest[p - 1..]))
          == Live(list[0]) + LiveIn(rest[..p - 1]) + LiveIn(rest[p - 1..]);
    }
  }

  /** The parts of a table follow one another. */
  lemma {:induction false} PartsInOrder(list: List, p: nat)
    requires p < |list|
    ensures LiveIn(list) == LiveIn(list[..p]) + Live(list[p]) + LiveIn(list[p + 1..])
  {
    LiveInJoin(list, p);
    assert list[p..][0] == list[p] && list[p..][1..] == list[p + 1..];
    var before, here, rest := LiveIn(list[..p]), Live(list[p]), LiveIn(list[p + 1..]);
    assert before + (here + rest) == before + here + rest;
  }

  /** The pairs that are passed, one by one: first all extras, be they live or not, and then
      the live entries; the first `max` of them, or all if `max` is zero. */
  lemma {:induction false} SelectedAt(list: List, extras: seq<Elt>, max: nat, i: nat)
    ensures var ps, n := Selected(list, extras, max), |extras| + |LiveIn(list)|;
            && |ps| == (if max != 0 && n > max then max else n)
            && (i < |ps| && i < |extras| ==> ps[i] == Pair(extras[i].key, extras[i].value))
            && (i < |ps| && i >= |extras| ==> ps[i] == LiveIn(list)[i - |extras|])
  {
  }

  /** A marshalled table reads back as the first pairs of the extras and the live entries. */
  lemma {:induction false} MarshalRoundTrip(list: List, extras: seq<Elt>, max: nat)
    requires Fits(Selected(list, extras, max))
    ensures Decode(Encode(Selected(list, extras, max))) == Some(Selected(list, extras, max))
  {
    var ps := Selected(list, extras, max);
    RoundTrip(ps, []);
    assert Encode(ps) + [] == Encode(ps);
  }

  ghost function SizeOf(ps: seq<Pair>): nat {
    if ps == [] then 0 else 8 + |ps[0].key| + 1 + |ps[0].value| + 1 + SizeOf(ps[1..])
  }

  /** The bytes of an encoded map. */
  lemma {:induction false} EncodedSize(ps: seq<Pair>)
    requires Fits(ps)
    ensures |Encode(ps)| == 4 + SizeOf(ps)
  {
    LensRead([], ps, []);
    BodiesSize(ps);
    LE32Length(|ps|);
  }

  lemma {:induction false} BodiesSize(ps: seq<Pair>)
    ensures |Bodies(ps)| + 8 * |ps| == SizeOf(ps)
  {
    if ps != [] { BodiesSize(ps[1..]); }
  }

  lemma {:induction false} SizeJoin(a: seq<Pair>, b: seq<Pair>)
    ensures SizeOf(a + b) == SizeOf(a) + SizeOf(b)
  {
    if a == [] {
      assert a + b == b;
    } else {
      SizeJoin(a[1..], b);
      assert (a + b)[1..] == a[1..] + b;
    }
  }
}
