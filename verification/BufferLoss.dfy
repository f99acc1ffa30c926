/** When appending to a chain loses bytes: the exact condition on the chain. */
module BufferLoss {
  import opened Bytes
  import opened BufferChain
  import opened BufferAppend
  import opened BufferOps

  // ------------------------------------------------------- the condition, plainly

  /** Some non-empty link comes right after an empty link of the same owner. */
  ghost predicate Gap(bufs: Bufs, ls: seq<Ptr>, tag: nat)
    requires HaveBufs(bufs, ls)
  {
    exists j :: 0 < j < |ls| && bufs[ls[j]].data != [] && OwnEmpty(bufs, ls, j - 1, tag)
  }

  ghost predicate OwnEmpty(bufs: Bufs, ls: seq<Ptr>, i: int, tag: nat)
    requires HaveBufs(bufs, ls)
  {
    0 <= i < |ls| && bufs[ls[i]].data == [] && bufs[ls[i]].tag == tag
  }

  lemma {:induction false} GapCons(bufs: Bufs, ls: seq<Ptr>, tag: nat)
    requires HaveBufs(bufs, ls) && ls != []
    ensures Gap(bufs, ls, tag) <==>
            || Gap(bufs, ls[1..], tag)
            || (|ls| > 1 && bufs[ls[1]].data != [] && OwnEmpty(bufs, ls, 0, tag))
  {
    var rest := ls[1..];
    if Gap(bufs, rest, tag) {
      var j :| 0 < j < |rest| && bufs[rest[j]].data != [] && OwnEmpty(bufs, rest, j - 1, tag);
      assert bufs[ls[j + 1]].data != [] && OwnEmpty(bufs, ls, j, tag);
    }
    if Gap(bufs, ls, tag) {
      var j :| 0 < j < |ls| && bufs[ls[j]].data != [] && OwnEmpty(bufs, ls, j - 1, tag);
      if j > 1 {
        assert bufs[rest[j - 1]].data != [] && OwnEmpty(bufs, rest, j - 2, tag);
      }
    }
  }

  lemma {:induction false} GoodAfterSome(bufs: Bufs, ls: seq<Ptr>, tag: nat, linked: bool)
    requires HaveBufs(bufs, ls)
    ensures Good(bufs, ls, tag, true, linked) <==>
            (ls == [] || bufs[ls[0]].data == [] || linked) && !Gap(bufs, ls, tag)
    decreases |ls|
  {
    hide Gap;
    if ls != [] {
      GapCons(bufs, ls, tag);
      GoodAfterSome(bufs, ls[1..], tag, true);
      GoodAfterSome(bufs, ls[1..], tag, false);
    } else {
      NoGap(bufs, tag);
    }
  }

  lemma {:induction false} NoGap(bufs: Bufs, tag: nat)
    ensures !Gap(bufs, [], tag)
  {
  }

  lemma {:induction false} GoodUnlinked(bufs: Bufs, ls: seq<Ptr>, tag: nat)
    requires HaveBufs(bufs, ls)
    ensures Good(bufs, ls, tag, false, false) <==> NonEmpty(bufs, ls) == []
    decreases |ls|
  {
    if ls != [] { GoodUnlinked(bufs, ls[1..], tag); }
  }

  /** The search keeps every non-empty link exactly when there is none, or the first
      link is one and none comes right after an empty link of the same owner. */
  lemma {:induction false} GoodIff(bufs: Bufs, ls: seq<Ptr>, tag: nat)
    requires HaveBufs(bufs, ls)
    ensures Good(bufs, ls, tag, false, true) <==>
            || NonEmpty(bufs, ls) == []
            || (bufs[ls[0]].data != [] && !Gap(bufs, ls, tag))
  {
    hide Gap;
    if ls != [] {
      GapCons(bufs, ls, tag);
      GoodAfterSome(bufs, ls[1..], tag, true);
      GoodUnlinked(bufs, ls[1..], tag);
    }
  }

  /** In particular when the non-empty links come first. */
  lemma {:induction false} PrefixIsGood(bufs: Bufs, ls: seq<Ptr>, tag: nat, k: nat)
    requires HaveBufs(bufs, ls) && k <= |ls|
    requires forall i :: 0 <= i < |ls| ==> (bufs[ls[i]].data != [] <==> i < k)
    ensures Good(bufs, ls, tag, false, true)
  {
    GoodIff(bufs, ls, tag);
    if k == 0 && NonEmpty(bufs, ls) != [] {
      var p := NonEmpty(bufs, ls)[0];
      NonEmptyMember(bufs, ls, p);
      assert false;
    }
  }

  // -------------------------------------------------------- what is lost otherwise

  /** From a link of `r`, other than `skip`, only links of `r` are reached. */
  ghost predicate Closed(next: Links, r: set<Ptr>, skip: Ptr) {
    && NULL !in r
    && forall p :: p in r && p != skip ==> p in next && (next[p] == NULL || next[p] in r)
  }

  ghost predicate Avoids(r: set<Ptr>, ls: seq<Ptr>) {
    forall p :: p in ls ==> p !in r && p != NULL
  }

  ghost predicate Within(p: Ptr, r: set<Ptr>) {
    p == NULL || p in r
  }

  lemma {:induction false} StaysWithin(next: Links, r: set<Ptr>, p: Ptr, ls: seq<Ptr>, d: Ptr)
    requires Closed(next, r, NULL) && Within(p, r) && d !in r
    requires Path(next, p, ls, NULL)
    ensures d !in ls
    decreases |ls|
  {
    if ls != [] { StaysWithin(next, r, next[p], ls[1..], d); }
  }

  /** A non-empty link `d` has become unreachable from the first link. */
  ghost predicate Broken(next: Links, first: Ptr, ls: seq<Ptr>, ll: Ptr, free: Ptr, r: set<Ptr>, d: Ptr) {
    && Closed(next, r, NULL) && Within(first, r) && Within(free, r)
    && d !in r && ll !in r && ll != NULL && ll in next
    && Avoids(r, ls) && Distinct(ls) && (forall p :: p in ls ==> p in next)
  }

  lemma {:induction false} BrokenVisit(next: Links, bufs: Bufs, first: Ptr, ls: seq<Ptr>, ll: Ptr, free: Ptr,
                                       r: set<Ptr>, d: Ptr, tag: nat)
    returns (r': set<Ptr>)
    requires ls != [] && Broken(next, first, ls, ll, free, r, d) && HaveBufs(bufs, ls)
    requires d in bufs && bufs[d].data != [] && (ll in bufs && bufs[ll].data != [])
    ensures var s := Visit(next, bufs, ls[0], ll, free, tag);
            Broken(s.next, first, ls[1..], s.ll, s.free, r', d) && s.ll in bufs && bufs[s.ll].data != []
  {
    var own := bufs[ls[0]].data == [] && bufs[ls[0]].tag == tag;
    r' := if own then r + {ls[0]} else r;
  }

  lemma {:induction false} BrokenScan(next: Links, bufs: Bufs, first: Ptr, ls: seq<Ptr>, ll: Ptr, free: Ptr,
                                      r: set<Ptr>, d: Ptr, tag: nat)
    returns (r': set<Ptr>)
    requires Broken(next, first, ls, ll, free, r, d) && HaveBufs(bufs, ls)
    requires forall p :: p in ls ==> p in next
    requires d in bufs && bufs[d].data != [] && (ll in bufs && bufs[ll].data != [])
    ensures var s := ScanTail(next, bufs, ls, ll, free, tag);
            Broken(s.next, first, [], s.ll, s.free, r', d)
    decreases |ls|
  {
    hide Visit, Closed;
    r' := r;
    if ls != [] {
      r' := BrokenVisit(next, bufs, first, ls, ll, free, r, d, tag);
      var s := Visit(next, bufs, ls[0], ll, free, tag);
      r' := BrokenScan(s.next, bufs, first, ls[1..], s.ll, s.free, r', d, tag);
    }
  }

  /** Before anything is lost: `x` is where the last kept link, or else the chain itself,
      leads to. */
  ghost predicate Intact(next: Links, first: Ptr, x: Ptr, ls: seq<Ptr>, ll: Ptr, free: Ptr, r: set<Ptr>) {
    && Closed(next, r, ll) && Within(free, r) && Avoids(r, ls) && Distinct(ls)
    && (forall p :: p in ls ==> p in next) && Path(next, Head(ls), ls, NULL)
    && (if ll == NULL then first == x else ll in r && ll in next && next[ll] == x && first in r)
    && (x == Head(ls) || Within(x, r))
  }

  lemma {:induction false} IntactVisit(next: Links, bufs: Bufs, first: Ptr, x: Ptr, ls: seq<Ptr>, ll: Ptr,
                                       free: Ptr, r: set<Ptr>, tag: nat)
    returns (x': Ptr, r': set<Ptr>)
    requires ls != [] && Intact(next, first, x, ls, ll, free, r) && HaveBufs(bufs, ls)
    requires !Stops(bufs, ls[0], ll, tag) && (bufs[ls[0]].data != [] ==> x == ls[0])
    ensures var s := Visit(next, bufs, ls[0], ll, free, tag);
            && Intact(s.next, first, x', ls[1..], s.ll, s.free, r')
            && (bufs[ls[0]].data != [] || bufs[ls[0]].tag != tag ==> x' == Head(ls[1..]))
            && (bufs[ls[0]].data == [] && bufs[ls[0]].tag == tag ==> (x' != Head(ls[1..]) || ls[1..] == []))
            && (s.ll != NULL <==> ll != NULL || bufs[ls[0]].data != [])
  {
    PathHead(next, ls[0], ls);
    var cl, rest := ls[0], ls[1..];
    var s := Visit(next, bufs, cl, ll, free, tag);
    PathFrame(next, s.next, Head(rest), rest, NULL);
    PathHead(s.next, Head(rest), rest);
    if bufs[cl].data != [] {
      x', r' := Head(rest), r + {cl};
    } else if bufs[cl].tag != tag {
      x', r' := Head(rest), r;
    } else {
      x', r' := x, r + {cl};
    }
  }

  /** At a link that cannot be kept, the chain breaks. */
  lemma {:induction false} IntactBreaks(next: Links, bufs: Bufs, first: Ptr, x: Ptr, ls: seq<Ptr>, ll: Ptr,
                                        free: Ptr, r: set<Ptr>)
    requires ls != [] && Intact(next, first, x, ls, ll, free, r) && HaveBufs(bufs, ls)
    requires bufs[ls[0]].data != [] && x != ls[0]
    ensures Broken(next, first, ls[1..], ls[0], free, r, ls[0])
  {
  }

  /** What a search that loses a link leaves: link `d` is out of reach. */
  ghost predicate Lost(s: Scan, first: Ptr, r: set<Ptr>, d: Ptr) {
    && d !in r && Within(s.free, r) && Closed(s.next, r, NULL)
    && (s.ll != NULL ==> Broken(s.next, first, [], s.ll, s.free, r, d))
  }

  lemma {:induction false} StopLoses(next: Links, bufs: Bufs, first: Ptr, x: Ptr, ls: seq<Ptr>, free: Ptr, r: set<Ptr>)
    returns (d: Ptr)
    requires Intact(next, first, x, ls, NULL, free, r) && HaveBufs(bufs, ls) && NonEmpty(bufs, ls) != []
    ensures d in ls && bufs[d].data != [] && Lost(Scan(next, NULL, free), first, r, d)
  {
    d := NonEmpty(bufs, ls)[0];
    NonEmptyMember(bufs, ls, d);
  }

  lemma {:induction false} ScanLoses(next: Links, bufs: Bufs, first: Ptr, x: Ptr, ls: seq<Ptr>, ll: Ptr,
                                     free: Ptr, r: set<Ptr>, tag: nat)
    returns (r': set<Ptr>, d: Ptr)
    requires Intact(next, first, x, ls, ll, free, r) && HaveBufs(bufs, ls)
    requires !Good(bufs, ls, tag, ll != NULL, x == Head(ls))
    requires forall p :: p in ls ==> p in next
    ensures d in ls && bufs[d].data != []
    ensures Lost(ScanTail(next, bufs, ls, ll, free, tag), first, r', d)
    decreases |ls|
  {
    hide Visit, Intact, Lost, Broken;
    assert ls != [];
    if Stops(bufs, ls[0], ll, tag) {
      r' := r;
      d := StopLoses(next, bufs, first, x, ls, free, r);
    } else if bufs[ls[0]].data != [] && x != ls[0] {
      d := ls[0];
      IntactBreaks(next, bufs, first, x, ls, ll, free, r);
      KeepUnfolds(next, bufs, ls, ll, free, tag);
      r' := BrokenScan(next, bufs, first, ls[1..], ls[0], free, r, d, tag);
      BrokenIsLost(ScanTail(next, bufs, ls, ll, free, tag), first, r', d);
    } else {
      var x1, r1 := IntactVisit(next, bufs, first, x, ls, ll, free, r, tag);
      var s := Visit(next, bufs, ls[0], ll, free, tag);
      IntactKeys(s.next, first, x1, ls[1..], s.ll, s.free, r1);
      r', d := ScanLoses(s.next, bufs, first, x1, ls[1..], s.ll, s.free, r1, tag);
    }
  }

  lemma {:induction false} KeepUnfolds(next: Links, bufs: Bufs, ls: seq<Ptr>, ll: Ptr, free: Ptr, tag: nat)
    requires ls != [] && forall p :: p in ls ==> p in bufs && p in next
    requires bufs[ls[0]].data != []
    ensures ScanTail(next, bufs, ls, ll, free, tag) == ScanTail(next, bufs, ls[1..], ls[0], free, tag)
  {
  }

  lemma {:induction false} BrokenIsLost(s: Scan, first: Ptr, r: set<Ptr>, d: Ptr)
    requires Broken(s.next, first, [], s.ll, s.free, r, d)
    ensures Lost(s, first, r, d)
  {
  }

  lemma {:induction false} IntactKeys(next: Links, first: Ptr, x: Ptr, ls: seq<Ptr>, ll: Ptr, free: Ptr, r: set<Ptr>)
    requires Intact(next, first, x, ls, ll, free, r)
    ensures forall p :: p in ls ==> p in next
  {
  }

  lemma {:induction false} PathClosed(next: Links, p: Ptr, ls: seq<Ptr>)
    requires Path(next, p, ls, NULL)
    ensures forall q :: q in ls ==> q != NULL && q in next && (next[q] == NULL || next[q] in ls)
    decreases |ls|
  {
    if ls != [] {
      PathClosed(next, next[p], ls[1..]);
      PathHead(next, p, ls);
      assert ls == [p] + ls[1..];
      assert ls[1..] != [] ==> next[p] == ls[1..][0];
      forall q | q in ls ensures q != NULL && q in next && (next[q] == NULL || next[q] in ls) {
        if q != p { assert q in ls[1..]; }
      }
    }
  }

  lemma {:induction false} StartsIntact(next: Links, bufs: Bufs, first: Ptr, ls: seq<Ptr>, free: Ptr, fs: seq<Ptr>)
    returns (r: set<Ptr>)
    requires ChainOk(next, bufs, first, ls, free, fs)
    ensures Intact(next, first, first, ls, NULL, free, r) && first == Head(ls)
  {
    PathHead(next, first, ls);
    PathHead(next, free, fs);
    PathClosed(next, first, ls);
    PathClosed(next, free, fs);
    r := set p | p in fs;
  }

  lemma {:induction false} ScanLast(next: Links, bufs: Bufs, ls: seq<Ptr>, ll: Ptr, free: Ptr, tag: nat)
    requires forall p :: p in ls ==> p in bufs && p in next
    ensures var s := ScanTail(next, bufs, ls, ll, free, tag);
            s.ll == ll || (s.ll in ls && bufs[s.ll].data != [])
    decreases |ls|
  {
    if ls != [] && !Stops(bufs, ls[0], ll, tag) {
      var s := Visit(next, bufs, ls[0], ll, free, tag);
      ScanLast(s.next, bufs, ls[1..], s.ll, s.free, tag);
    }
  }

  /** The new link does not bring the lost one back. */
  lemma {:induction false} AttachLoses(s: Scan, bufs: Bufs, first: Ptr, r: set<Ptr>, d: Ptr, len: nat, tag: nat,
                                       alloc: Ptr, memOk: bool, path: seq<Ptr>)
    requires Lost(s, first, r, d) && alloc != d && (alloc != NULL ==> alloc != s.ll)
    requires s.free != NULL ==> s.free in s.next && s.free in bufs
    requires var g := GetFree(s.next, bufs, s.free, len, tag, true, alloc, memOk);
             && g.link != NULL
             && Path(if s.ll != NULL then g.next[s.ll := g.link] else g.next,
                     if s.ll != NULL then first else g.link, path, NULL)
    ensures d !in path
  {
    var g := GetFree(s.next, bufs, s.free, len, tag, true, alloc, memOk);
    var next' := if s.ll != NULL then g.next[s.ll := g.link] else g.next;
    var r' := r + {g.link};
    assert Closed(next', r', NULL);
    StaysWithin(next', r', if s.ll != NULL then first else g.link, path, d);
  }

  /** Otherwise append loses bytes: some non-empty link is not in the chain any more. */
  lemma {:induction false} AppendLoses(next: Links, bufs: Bufs, first: Ptr, ls: seq<Ptr>, at: nat, str: Bytes,
                                       free: Ptr, fs: seq<Ptr>, tag: nat, alloc: Ptr, memOk: bool, path: seq<Ptr>)
    returns (d: Ptr)
    requires ChainOk(next, bufs, first, ls, free, fs)
    requires NotInUse(alloc, NonEmpty(ClearFrom(bufs, ls, 0, at).0, ls))
    requires !Good(ClearFrom(bufs, ls, 0, at).0, ls, tag, false, true)
    requires Ready(next, bufs, ls, at, free, tag)
    requires var c := Append(next, bufs, first, ls, at, str, free, tag, alloc, memOk);
             c.ok && Path(c.next, c.first, path, NULL)
    ensures d in ls && ClearFrom(bufs, ls, 0, at).0[d].data != [] && d !in path
  {
    hide GetFree, ScanTail, Lost, Good, Closed, Path;
    var bufs1 := ClearFrom(bufs, ls, 0, at).0;
    var r := StartsIntact(next, bufs, first, ls, free, fs);
    var r';
    r', d := ScanLoses(next, bufs1, first, first, ls, NULL, free, r, tag);
    var s := ScanTail(next, bufs1, ls, NULL, free, tag);
    ScanLast(next, bufs1, ls, NULL, free, tag);
    NonEmptyMember(bufs1, ls, d);
    NonEmptyMember(bufs1, ls, s.ll);
    AttachLoses(s, bufs1, first, r', d, |str|, tag, alloc, memOk, path);
  }

  /** A chain with an empty link of another owner, such as one that only flushes, before a
      link with data, and no free links. */
  ghost predicate FlushThenData(next: Links, bufs: Bufs, tag: nat) {
    && next == map[1 := 2, 2 := NULL] && bufs.Keys == {1, 2}
    && bufs[1].data == [] && bufs[1].tag != tag && bufs[2].data != []
  }

  lemma {:induction false} FlushIsAChain(next: Links, bufs: Bufs, tag: nat)
    requires FlushThenData(next, bufs, tag)
    ensures ChainOk(next, bufs, 1, [1, 2], NULL, [])
  {
    assert [1, 2][1..] == [2] && [2][1..] == [];
    assert Path(next, NULL, [], NULL) && Path(next, 2, [2], NULL);
  }

  lemma {:induction false} FlushKeeps(bufs: Bufs, tag: nat, at: nat)
    requires bufs.Keys == {1, 2} && bufs[1].data == [] && bufs[1].tag != tag && bufs[2].data != [] && at > 0
    ensures var bufs' := ClearFrom(bufs, [1, 2], 0, at).0;
            bufs'.Keys == {1, 2} && bufs'[1].data == [] && bufs'[1].tag != tag && bufs'[2].data != []
  {
    var (b1, p1) := ClearBuf(bufs[1], 0, at);
    assert b1.data == [] && p1 == 0;
    var (b2, p2) := ClearBuf(bufs[2], 0, at);
    assert [1, 2][1..] == [2] && [2][1..] == [];
    var bufs1 := bufs[1 := b1];
    assert ClearFrom(bufs1, [2], 0, at) == ClearFrom(bufs1[2 := b2], [], p2, at);
  }

  /** Such chains lose bytes: an append at any offset past the start leaves the link with
      the data out of the chain, which then holds the new bytes alone. */
  lemma {:induction false} LossHappens(next: Links, bufs: Bufs, tag: nat, at: nat, str: Bytes, path: seq<Ptr>)
    requires FlushThenData(next, bufs, tag) && at > 0
    ensures Ready(next, bufs, [1, 2], at, NULL, tag)
    ensures var c := Append(next, bufs, 1, [1, 2], at, str, NULL, tag, 3, true);
            && c.ok && Path(c.next, c.first, [3], NULL) && HaveBufs(c.bufs, [3]) && Content(c.bufs, [3]) == str
            && (Path(c.next, c.first, path, NULL) ==> 2 !in path)
  {
    hide ClearFrom;
    var ls := [1, 2];
    var bufs1 := ClearFrom(bufs, ls, 0, at).0;
    FlushIsAChain(next, bufs, tag);
    FlushKeeps(bufs, tag, at);
    assert Stops(bufs1, 1, NULL, tag);
    assert ScanTail(next, bufs1, ls, NULL, NULL, tag) == Scan(next, NULL, NULL);
    NonEmptyMember(bufs1, ls, 2);
    NonEmptyMember(bufs1, ls, 3);
    assert !Good(bufs1, ls, tag, false, true);
    var c := Append(next, bufs, 1, ls, at, str, NULL, tag, 3, true);
    assert [3][1..] == [] && Path(c.next, NULL, [], NULL);
    assert c.bufs[3].data == str && str + [] == str;
    if Path(c.next, c.first, path, NULL) {
      var d := AppendLoses(next, bufs, 1, ls, at, str, NULL, [], tag, 3, true, path);
      assert d == 2;
    }
  }
}
