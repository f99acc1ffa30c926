/** The loops that count, measure, write and read a map of pairs. */
module PairsMarshal {
  import opened Wrappers
  import opened Bytes
  import opened Pairs

  // ------------------------------------------------------- walking over a list

  /** The live entries from position `i` of a part on. */
  ghost function Rest(list: List, part: nat, i: nat): seq<Pair>
    requires part < |list| && i <= |list[part]|
  {
    Live(list[part][i..]) + LiveIn(list[part + 1..])
  }

  lemma {:induction false} RestAtStart(list: List)
    requires list != []
    ensures Rest(list, 0, 0) == LiveIn(list)
  {
    assert list[0][0..] == list[0];
  }

  lemma {:induction false} RestNextPart(list: List, part: nat)
    requires part < |list|
    ensures part + 1 < |list| ==> Rest(list, part, |list[part]|) == Rest(list, part + 1, 0)
    ensures part + 1 == |list| ==> Rest(list, part, |list[part]|) == []
  {
    assert list[part][|list[part]|..] == [];
    if part + 1 < |list| {
      assert list[part + 1..][0] == list[part + 1] && list[part + 1..][1..] == list[part + 2..];
      assert list[part + 1][0..] == list[part + 1];
    }
  }

  lemma {:induction false} RestNext(list: List, part: nat, i: nat)
    requires part < |list| && i < |list[part]|
    ensures var e := list[part][i];
            Rest(list, part, i) == (if e.hash != 0 then [PairOf(e)] else []) + Rest(list, part, i + 1)
  {
    var es := list[part][i..];
    assert es[0] == list[part][i] && es[1..] == list[part][i + 1..];
    var e: seq<Pair> := if es[0].hash != 0 then [PairOf(es[0])] else [];
    assert e + Live(es[1..]) + LiveIn(list[part + 1..]) == e + (Live(es[1..]) + LiveIn(list[part + 1..]));
  }

  /** The next live entry, if any. */
  method NextLive(list: List, part0: nat, i0: nat) returns (found: bool, p: Pair, part: nat, i: nat)
    requires ListOk(list) && part0 < |list| && i0 <= |list[part0]|
    ensures part < |list| && i <= |list[part]|
    ensures found ==> Rest(list, part0, i0) == [p] + Rest(list, part, i)
    ensures !found ==> Rest(list, part0, i0) == []
  {
    hide Rest;
    part, i, p := part0, i0, Pair([], []);
    while true
      invariant part < |list| && i <= |list[part]|
      invariant Rest(list, part0, i0) == Rest(list, part, i)
      decreases |list| - part, |list[part]| - i
    {
      if i >= |list[part]| {
        RestNextPart(list, part);
        if part + 1 == |list| {
          return false, p, part, i;
        }
        part, i := part + 1, 0;
      }
      RestNext(list, part, i);
      var e := list[part][i];
      i := i + 1;
      if e.hash == 0 {
        assert [] + Rest(list, part, i) == Rest(list, part, i);
        continue;
      }
      return true, PairOf(e), part, i;
    }
  }

  method PairsCount(list: List) returns (c: nat)
    requires ListOk(list)
    ensures c == |LiveIn(list)|
  {
    RestAtStart(list);
    c := 0;
    var part: nat, i: nat, found, p := 0, 0, true, Pair([], []);
    ghost var rest := LiveIn(list);
    while found
      invariant part < |list| && 0 <= i <= |list[part]|
      invariant found ==> rest == Rest(list, part, i)
      invariant !found ==> rest == []
      invariant c + |rest| == |LiveIn(list)|
      decreases found, |rest|
    {
      found, p, part, i := NextLive(list, part, i);
      if found {
        c := c + 1;
        rest := rest[1..];
      }
    }
  }

  function EntrySize(p: Pair): nat {
    8 + |p.key| + 1 + |p.value| + 1
  }

  /** Every pair passes the limit, or there is none. */
  ghost predicate Untruncated(list: List, extras: seq<Elt>, max: nat) {
    max == 0 || |extras| + |LiveIn(list)| <= max
  }

  /** The numbers of live entries and of extras that the size is computed over. */
  function LiveCounted(live: nat, max: nat): nat {
    if max != 0 && live > max then max else live
  }

  function ExtrasCounted(live: nat, extras: nat, max: nat): nat {
    var free := max - LiveCounted(live, max) + 1;
    if max != 0 && extras > free then free else extras
  }

  /** The pairs that the size is computed over: live entries first, then extras. */
  ghost function Counted(list: List, extras: seq<Elt>, max: nat): seq<Pair> {
    var live := LiveIn(list);
    live[..LiveCounted(|live|, max)] + AllPairs(extras[..ExtrasCounted(|live|, |extras|, max)])
  }

  method LiveSize(list: List, max: nat, ghost live: seq<Pair>) returns (size: nat, n: nat)
    requires ListOk(list) && live == LiveIn(list)
    ensures n == LiveCounted(|live|, max) && size == SizeOf(live[..n])
  {
    RestAtStart(list);
    size, n := 0, 0;
    var part: nat, i: nat, found, p := 0, 0, true, Pair([], []);
    assert live[0..] == live;
    while found
      invariant part < |list| && 0 <= i <= |list[part]| && n <= |live|
      invariant found ==> live[n..] == Rest(list, part, i) && (max == 0 || n < max)
      invariant !found ==> n == |live|
      invariant max == 0 || n <= max
      invariant size == SizeOf(live[..n])
      decreases found, |live| - n
    {
      found, p, part, i := NextLive(list, part, i);
      if found {
        assert live[n..][0] == live[n] == p && live[n..][1..] == live[n + 1..];
        assert live[..n + 1] == live[..n] + [p] && [p][1..] == [];
        SizeJoin(live[..n], [p]);
        size := size + EntrySize(p);
        n := n + 1;
        if max != 0 && n >= max {
          break;
        }
      }
    }
  }

  /** The size that is allocated. */
  method PairsSize(list: List, extras: seq<Elt>, max: nat) returns (size: nat)
    requires ListOk(list)
    ensures size == 4 + SizeOf(Counted(list, extras, max))
  {
    ghost var live := LiveIn(list);
    var n;
    size, n := LiveSize(list, max, live);
    size := size + 4;
    ghost var n0, size0 := n, size;
    var j := 0;
    while j < |extras|
      invariant 0 <= j <= |extras| && n == n0 + j && (max != 0 && j > 0 ==> n <= max)
      invariant size == size0 + SizeOf(AllPairs(extras[..j]))
    {
      SizeSnoc(extras, j);
      size := size + EntrySize(PairOf(extras[j]));
      j := j + 1;
      if max != 0 && n >= max {
        break;
      }
      n := n + 1;
    }
    assert j == ExtrasCounted(|live|, |extras|, max);
    SizeJoin(live[..n0], AllPairs(extras[..j]));
  }

  lemma {:induction false} SizeSnoc(extras: seq<Elt>, j: nat)
    requires j < |extras|
    ensures SizeOf(AllPairs(extras[..j + 1])) == SizeOf(AllPairs(extras[..j])) + EntrySize(PairOf(extras[j]))
  {
    assert AllPairs(extras[..j + 1]) == AllPairs(extras[..j]) + [PairOf(extras[j])];
    SizeJoin(AllPairs(extras[..j]), [PairOf(extras[j])]);
    assert [PairOf(extras[j])][1..] == [];
  }

  // ------------------------------------------------------ when the size suffices

  lemma {:induction false} SizeSplit(ps: seq<Pair>, i: nat, j: nat)
    requires i <= j <= |ps|
    ensures SizeOf(ps[..j]) == SizeOf(ps[..i]) + SizeOf(ps[i..j])
  {
    assert ps[..j] == ps[..i] + ps[i..j];
    SizeJoin(ps[..i], ps[i..j]);
  }

  lemma {:induction false} AllPairsPrefix(es: seq<Elt>, n: nat)
    requires n <= |es|
    ensures AllPairs(es[..n]) == AllPairs(es)[..n]
  {
  }

  /** The pairs that are written, when some are left out: all extras that fit, then live
      entries. */
  lemma {:induction false} SelectedIs(list: List, extras: seq<Elt>, max: nat)
    requires !Untruncated(list, extras, max)
    ensures var e := Min(|extras|, max);
            max - e <= |LiveIn(list)| && Selected(list, extras, max) == AllPairs(extras)[..e] + LiveIn(list)[..max - e]
  {
    var ex, live := AllPairs(extras), LiveIn(list);
    assert |ex| == |extras|;
  }

  /** The size that is allocated suffices for what is written if no pair is left out; and
      otherwise if and only if the extras that are written but not counted take no more
      than the live entries that are counted but not written. */
  lemma {:induction false} SizeSufficesIff(list: List, extras: seq<Elt>, max: nat)
    requires Fits(Selected(list, extras, max))
    ensures Untruncated(list, extras, max) ==>
              |Encode(Selected(list, extras, max))| == 4 + SizeOf(Counted(list, extras, max))
    ensures !Untruncated(list, extras, max) ==>
              var live, e := LiveIn(list), Min(|extras|, max);
              var m := Min(ExtrasCounted(|live|, |extras|, max), e);
              && max - e <= LiveCounted(|live|, max)
              && (|Encode(Selected(list, extras, max))| <= 4 + SizeOf(Counted(list, extras, max)) <==>
                  SizeOf(AllPairs(extras)[m..e]) <= SizeOf(live[max - e..LiveCounted(|live|, max)]))
  {
    EncodedSize(Selected(list, extras, max));
    var ex, live := AllPairs(extras), LiveIn(list);
    var n, c := LiveCounted(|live|, max), ExtrasCounted(|live|, |extras|, max);
    AllPairsPrefix(extras, c);
    SizeJoin(live[..n], ex[..c]);
    if Untruncated(list, extras, max) {
      assert live[..n] == live && ex[..c] == ex;
      SizeJoin(ex, live);
    } else {
      var e := Min(|extras|, max);
      var m := Min(c, e);
      SelectedIs(list, extras, max);
      SizeJoin(ex[..e], live[..max - e]);
      SizeSplit(ex, m, e);
      SizeSplit(ex, m, c);
      SizeSplit(live, max - e, n);
      if c > e { assert ex[m..e] == []; } else { assert ex[m..c] == []; }
    }
  }

  /** The limit that filters have: with as many live entries, only the first extra counts,
      and the size suffices if and only if the other extras take no more than the live
      entries that they push out. */
  const MAX_PAIRS := 100

  lemma {:induction false} SufficesAtLimitIff(list: List, extras: seq<Elt>)
    requires |LiveIn(list)| >= MAX_PAIRS && 0 < |extras| <= MAX_PAIRS
    requires Fits(Selected(list, extras, MAX_PAIRS))
    ensures |Encode(Selected(list, extras, MAX_PAIRS))| <= 4 + SizeOf(Counted(list, extras, MAX_PAIRS)) <==>
            SizeOf(AllPairs(extras)[1..]) <= SizeOf(LiveIn(list)[MAX_PAIRS - |extras|..MAX_PAIRS])
  {
    hide SizeOf, Encode, Selected, Counted, LiveIn;
    SizeSufficesIff(list, extras, MAX_PAIRS);
    assert AllPairs(extras)[1..|extras|] == AllPairs(extras)[1..];
  }

  lemma {:induction false} LiveOfAll(es: seq<Elt>)
    requires forall i :: 0 <= i < |es| ==> es[i].hash != 0
    ensures Live(es) == AllPairs(es)
  {
    if es != [] { LiveOfAll(es[1..]); }
  }

  lemma {:induction false} SizeOfTwo(ps: seq<Pair>)
    requires |ps| == 2
    ensures SizeOf(ps) == EntrySize(ps[0]) + EntrySize(ps[1])
  {
    assert ps[1..][1..] == [];
    assert SizeOf(ps[1..]) == EntrySize(ps[1]);
  }

  /** It does not suffice for a hundred empty live entries and two extras, of which the
      second one has a key of eleven bytes. */
  lemma {:induction false} SizeFallsShort(es: seq<Elt>, extras: seq<Elt>)
    requires |es| == MAX_PAIRS && forall i :: 0 <= i < |es| ==> es[i] == Elt(1, [], [])
    requires |extras| == 2 && extras[0] == Elt(1, [], []) && |extras[1].key| == 11 && extras[1].value == []
    ensures Fits(Selected([es], extras, MAX_PAIRS))
    ensures |Encode(Selected([es], extras, MAX_PAIRS))| > 4 + SizeOf(Counted([es], extras, MAX_PAIRS))
  {
    hide SizeOf, Encode, Counted;
    var live, ex := LiveIn([es]), AllPairs(extras);
    LiveOfAll(es);
    assert [es][1..] == [] && LiveIn([]) == [];
    assert live == AllPairs(es) + [] == AllPairs(es);
    SufficesAtLimitIff([es], extras);
    SizeOfTwo(live[MAX_PAIRS - 2..MAX_PAIRS]);
    SizeOfOne(ex[1..]);
  }

  lemma {:induction false} SizeOfOne(ps: seq<Pair>)
    requires |ps| == 1
    ensures SizeOf(ps) == EntrySize(ps[0])
  {
    assert ps[1..] == [];
  }

  // ------------------------------------------------------------------ writing

  method PutBytes(buf: array<byte>, pos: nat, bytes: Bytes) returns (end: nat)
    requires pos + |bytes| <= buf.Length
    modifies buf
    ensures end == pos + |bytes| && buf[..end] == old(buf[..pos]) + bytes
  {
    forall k | 0 <= k < |bytes| {
      buf[pos + k] := bytes[k];
    }
    end := pos + |bytes|;
  }

  method PutLens(buf: array<byte>, pos: nat, p: Pair, ghost pre: Bytes) returns (end: nat)
    requires |p.key| < U32 && |p.value| < U32 && pos + 8 <= buf.Length && buf[..pos] == pre
    modifies buf
    ensures end == pos + 8 && buf[..end] == pre + LensOf(p)
  {
    end := PutBytes(buf, pos, LE32(|p.key|));
    end := PutBytes(buf, end, LE32(|p.value|));
  }

  method PutBody(buf: array<byte>, pos: nat, p: Pair, ghost pre: Bytes) returns (end: nat)
    requires pos + |BodyOf(p)| <= buf.Length && buf[..pos] == pre
    modifies buf
    ensures end == pos + |BodyOf(p)| && buf[..end] == pre + BodyOf(p)
  {
    end := PutBytes(buf, pos, p.key);
    end := PutBytes(buf, end, [0]);
    end := PutBytes(buf, end, p.value);
    end := PutBytes(buf, end, [0]);
    assert pre + p.key + [0] + p.value + [0] == pre + (p.key + [0] + p.value + [0]);
  }

  lemma {:induction false} LensSnoc(ps: seq<Pair>, n: nat)
    requires n < |ps| && Fits(ps)
    ensures Fits(ps[..n]) && Fits(ps[..n + 1]) && Lens(ps[..n + 1]) == Lens(ps[..n]) + LensOf(ps[n])
    ensures |Lens(ps[..n])| == 8 * n
    decreases n
  {
    hide LensOf;
    LensRead([], ps[..n], []);
    if n > 0 {
      LensSnoc(ps[1..], n - 1);
      assert ps[..n + 1][1..] == ps[1..][..n] && ps[..n][1..] == ps[1..][..n - 1];
    } else {
      assert ps[..1] == [ps[0]] && [ps[0]][1..] == [];
      assert LensOf(ps[0]) + [] == LensOf(ps[0]);
    }
  }

  lemma {:induction false} BodiesSnoc(ps: seq<Pair>, n: nat)
    requires n < |ps|
    ensures Bodies(ps[..n + 1]) == Bodies(ps[..n]) + BodyOf(ps[n])
    ensures |Bodies(ps[..n + 1])| <= |Bodies(ps)|
    decreases n
  {
    hide BodyOf;
    if n > 0 {
      BodiesSnoc(ps[1..], n - 1);
      assert ps[..n + 1][1..] == ps[1..][..n] && ps[..n][1..] == ps[1..][..n - 1];
    } else {
      assert ps[..1] == [ps[0]] && [ps[0]][1..] == [];
      assert BodyOf(ps[0]) + [] == BodyOf(ps[0]);
    }
  }

  lemma {:induction false} BodiesOfNone()
    ensures Bodies([]) == []
  {
  }

  /** The walk over extras and list stands before pair `n` of `all`. */
  ghost predicate At(list: List, extras: seq<Elt>, all: seq<Pair>, n: nat, part: nat, i: nat) {
    && part < |list| && i <= |list[part]| && n <= |all|
    && all == AllPairs(extras) + LiveIn(list)
    && if n < |extras| then part == i == 0 else all[n..] == Rest(list, part, i)
  }

  /** The next pair: an extra one, or a live entry of the list. */
  method NextPair(list: List, extras: seq<Elt>, n: nat, part0: nat, i0: nat, ghost all: seq<Pair>)
    returns (p: Pair, part: nat, i: nat)
    requires ListOk(list) && At(list, extras, all, n, part0, i0) && n < |all|
    ensures At(list, extras, all, n + 1, part, i) && p == all[n]
  {
    if n < |extras| {
      p, part, i := PairOf(extras[n]), part0, i0;
      if n + 1 == |extras| {
        RestAtStart(list);
        assert all[n + 1..] == LiveIn(list);
      }
    } else {
      var found;
      found, p, part, i := NextLive(list, part0, i0);
      assert all[n..][0] == all[n] && all[n..][1..] == all[n + 1..];
    }
  }

  lemma {:induction false} StartsAt(list: List, extras: seq<Elt>, all: seq<Pair>)
    requires list != [] && all == AllPairs(extras) + LiveIn(list)
    ensures At(list, extras, all, 0, 0, 0)
  {
    RestAtStart(list);
    if extras == [] { assert all[0..] == LiveIn(list); }
  }

  /** The first pass: the lengths. */
  method MarshalLens(list: List, extras: seq<Elt>, buf: array<byte>, pos: nat, count: nat,
                     ghost all: seq<Pair>, ghost pre: Bytes)
    returns (end: nat)
    requires ListOk(list) && all == AllPairs(extras) + LiveIn(list) && count <= |all| && Fits(all[..count])
    requires pos + 8 * count <= buf.Length && buf[..pos] == pre
    modifies buf
    ensures end == pos + 8 * count <= buf.Length && buf[..end] == pre + Lens(all[..count])
  {
    hide Lens, LensOf, At, LE32;
    StartsAt(list, extras, all);
    ghost var ps := all[..count];
    var n: nat, part: nat, i: nat, p := 0, 0, 0, Pair([], []);
    end := pos;
    NoLens([], []);
    assert ps[..0] == [] && pre + Lens([]) == pre;
    while n < count
      invariant 0 <= n <= count && At(list, extras, all, n, part, i)
      invariant end == pos + 8 * n && Fits(ps[..n]) && buf[..end] == pre + Lens(ps[..n])
    {
      LensSnoc(ps, n);
      p, part, i := NextPair(list, extras, n, part, i, all);
      assert p == ps[n];
      end := PutLens(buf, end, p, buf[..end]);
      assert pre + Lens(ps[..n]) + LensOf(p) == pre + (Lens(ps[..n]) + LensOf(p));
      n := n + 1;
    }
    assert ps[..count] == ps;
  }

  /** The second pass: the bytes. */
  method MarshalBodies(list: List, extras: seq<Elt>, buf: array<byte>, pos: nat, count: nat,
                       ghost all: seq<Pair>, ghost pre: Bytes)
    returns (end: nat)
    requires ListOk(list) && all == AllPairs(extras) + LiveIn(list) && count <= |all|
    requires pos + |Bodies(all[..count])| <= buf.Length && buf[..pos] == pre
    modifies buf
    ensures end == pos + |Bodies(all[..count])| <= buf.Length && buf[..end] == pre + Bodies(all[..count])
  {
    hide Bodies, BodyOf, At;
    StartsAt(list, extras, all);
    ghost var ps := all[..count];
    var n: nat, part: nat, i: nat, p := 0, 0, 0, Pair([], []);
    end := pos;
    BodiesOfNone();
    assert ps[..0] == [] && pre + Bodies([]) == pre;
    while n < count
      invariant 0 <= n <= count && At(list, extras, all, n, part, i)
      invariant end == pos + |Bodies(ps[..n])| && end <= buf.Length && buf[..end] == pre + Bodies(ps[..n])
    {
      BodiesSnoc(ps, n);
      p, part, i := NextPair(list, extras, n, part, i, all);
      assert p == ps[n];
      end := PutBody(buf, end, p, buf[..end]);
      assert pre + Bodies(ps[..n]) + BodyOf(p) == pre + (Bodies(ps[..n]) + BodyOf(p));
      n := n + 1;
    }
    assert ps[..count] == ps;
  }

  /** Writes the map.  `truncated` is the number of pairs when some are left out. */
  method Marshal(list: List, extras: seq<Elt>, buf: array<byte>, max: nat)
    returns (end: nat, truncated: Option<nat>)
    requires ListOk(list) && Fits(Selected(list, extras, max))
    requires |Encode(Selected(list, extras, max))| <= buf.Length
    modifies buf
    ensures end <= buf.Length && buf[..end] == Encode(Selected(list, extras, max))
    ensures truncated == if Untruncated(list, extras, max) then None else Some(max)
  {
    hide Lens, Bodies, LE32;
    ghost var all := AllPairs(extras) + LiveIn(list);
    var count := PairsCount(list);
    count := count + |extras|;
    truncated := None;
    if max != 0 && count > max {
      count := max;
      truncated := Some(count);
    }
    ghost var ps := Selected(list, extras, max);
    assert ps == all[..count];
    LensRead([], ps, []);
    LE32Length(count);
    end := PutBytes(buf, 0, LE32(count));
    assert buf[..end] == LE32(count);
    end := MarshalLens(list, extras, buf, end, count, all, LE32(count));
    end := MarshalBodies(list, extras, buf, end, count, all, buf[..end]);
  }

  // ------------------------------------------------------------------ reading

  ghost function After<T>(done: seq<T>, o: Option<seq<T>>): Option<seq<T>> {
    if o.None? then None else Some(done + o.value)
  }

  lemma {:induction false} LensStep(s: Bytes, at: nat, count: nat, done: seq<(nat, nat)>)
    requires count > 0
    ensures at + 8 > |s| ==> After(done, ReadLens(s, at, count)) == None
    ensures at + 8 <= |s| ==>
              After(done, ReadLens(s, at, count))
              == After(done + [(Read32(s, at), Read32(s, at + 4))], ReadLens(s, at + 8, count - 1))
  {
    hide Read32;
    if at + 8 <= |s| {
      var o, one := ReadLens(s, at + 8, count - 1), (Read32(s, at), Read32(s, at + 4));
      if o.Some? { assert done + ([one] + o.value) == done + [one] + o.value; }
    }
  }

  lemma {:induction false} BodiesStep(s: Bytes, at: nat, lens: seq<(nat, nat)>, done: seq<Pair>)
    requires lens != []
    ensures var (k, v) := lens[0]; var end := at + k + 1 + v + 1;
            && (end > |s| ==> After(done, ReadBodies(s, at, lens)) == None)
            && (end <= |s| ==>
                  After(done, ReadBodies(s, at, lens))
                  == After(done + [Pair(s[at..at + k], s[at + k + 1..at + k + 1 + v])], ReadBodies(s, end, lens[1..])))
  {
    var (k, v) := lens[0];
    var end := at + k + 1 + v + 1;
    if end <= |s| {
      var o, one := ReadBodies(s, end, lens[1..]), Pair(s[at..at + k], s[at + k + 1..at + k + 1 + v]);
      if o.Some? { assert done + ([one] + o.value) == done + [one] + o.value; }
    }
  }

  method UnmarshalLens(s: Bytes, count: nat) returns (r: Option<seq<(nat, nat)>>)
    ensures r == ReadLens(s, 4, count)
  {
    hide ReadLens, Read32;
    var at: nat, i: nat, lens: seq<(nat, nat)> := 4, 0, [];
    ghost var goal := ReadLens(s, 4, count);
    assert goal.Some? ==> [] + goal.value == goal.value;
    while i < count
      invariant 0 <= i <= count && goal == After(lens, ReadLens(s, at, count - i))
    {
      LensStep(s, at, count - i, lens);
      if at + 8 > |s| {
        return None;
      }
      lens := lens + [(Read32(s, at), Read32(s, at + 4))];
      at, i := at + 8, i + 1;
    }
    ReadNothing(s, at);
    assert lens + [] == lens;
    return Some(lens);
  }

  lemma {:induction false} ReadNothing(s: Bytes, at: nat)
    ensures ReadLens(s, at, 0) == Some([]) && ReadBodies(s, at, []) == Some([])
  {
  }

  method UnmarshalBodies(s: Bytes, start: nat, lens: seq<(nat, nat)>) returns (r: Option<seq<Pair>>)
    ensures r == ReadBodies(s, start, lens)
  {
    hide ReadBodies;
    var at: nat, i: nat, ps: seq<Pair> := start, 0, [];
    ghost var goal := ReadBodies(s, start, lens);
    assert (goal.Some? ==> [] + goal.value == goal.value) && lens[0..] == lens;
    while i < |lens|
      invariant 0 <= i <= |lens| && goal == After(ps, ReadBodies(s, at, lens[i..]))
    {
      assert lens[i..][0] == lens[i] && lens[i..][1..] == lens[i + 1..];
      BodiesStep(s, at, lens[i..], ps);
      var (k, v) := lens[i];
      if at + k + 1 + v + 1 > |s| {
        return None;
      }
      ps := ps + [Pair(s[at..at + k], s[at + k + 1..at + k + 1 + v])];
      at, i := at + k + 1 + v + 1, i + 1;
    }
    ReadNothing(s, at);
    assert lens[|lens|..] == [] && ps + [] == ps;
    return Some(ps);
  }

  /** Reads a map, in two passes. */
  method Unmarshal(s: Bytes) returns (r: Option<seq<Pair>>)
    ensures r == Decode(s)
  {
    if |s| == 0 {
      return Some([]);
    }
    if |s| < 4 {
      return None;
    }
    var count := Read32(s, 0);
    var lens := UnmarshalLens(s, count);
    if lens.None? {
      return None;
    }
    r := UnmarshalBodies(s, 4 + 8 * count, lens.value);
  }
}
