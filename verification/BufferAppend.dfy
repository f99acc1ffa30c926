/** Appending to a chain: empty links are unlinked or freed while the tail is searched,
    then a link with the new bytes is attached. */
module BufferAppend {
  import opened BufferChain

  function Head(ls: seq<Ptr>): Ptr {
    if ls == [] then NULL else ls[0]
  }

  function Last(ls: seq<Ptr>): Ptr {
    if ls == [] then NULL else ls[|ls| - 1]
  }

  // -------------------------------------------------------------- the tail

  /** `ll` is the last link that is not empty. */
  datatype Scan = Scan(next: Links, ll: Ptr, free: Ptr)

  /** An empty link of another owner ends the search before any non-empty one. */
  predicate Stops(bufs: Bufs, cl: Ptr, ll: Ptr, tag: nat)
    requires cl in bufs
  {
    bufs[cl].data == [] && bufs[cl].tag != tag && ll == NULL
  }

  /** The search visits link `cl`. */
  function Visit(next: Links, bufs: Bufs, cl: Ptr, ll: Ptr, free: Ptr, tag: nat): Scan
    requires cl in bufs && cl in next
  {
    if bufs[cl].data != [] then Scan(next, cl, free)
    else if bufs[cl].tag != tag then Scan(next[ll := next[cl]], ll, free)
    else Scan(next[cl := free], ll, if free != NULL then cl else NULL)
  }

  /** The search for the tail, over the links `ls` still to visit. */
  function ScanTail(next: Links, bufs: Bufs, ls: seq<Ptr>, ll: Ptr, free: Ptr, tag: nat): Scan
    requires forall p :: p in ls ==> p in bufs && p in next
    decreases |ls|
  {
    if ls == [] || Stops(bufs, ls[0], ll, tag) then Scan(next, ll, free)
    else
      var s := Visit(next, bufs, ls[0], ll, free, tag);
      ScanTail(s.next, bufs, ls[1..], s.ll, s.free, tag)
  }

  function IfNonEmpty(bufs: Bufs, p: Ptr): seq<Ptr>
    requires p in bufs
  {
    if bufs[p].data != [] then [p] else []
  }

  function NonEmpty(bufs: Bufs, ls: seq<Ptr>): seq<Ptr>
    requires forall p :: p in ls ==> p in bufs
  {
    if ls == [] then [] else IfNonEmpty(bufs, ls[0]) + NonEmpty(bufs, ls[1..])
  }

  /** The search loses no bytes: `some` tells whether a non-empty link was seen, and
      `linked` whether the link to the next one is up to date. */
  ghost predicate Good(bufs: Bufs, ls: seq<Ptr>, tag: nat, some: bool, linked: bool)
    requires HaveBufs(bufs, ls)
    decreases |ls|
  {
    if ls == [] then true
    else if bufs[ls[0]].data != [] then linked && Good(bufs, ls[1..], tag, true, true)
    else if bufs[ls[0]].tag == tag then Good(bufs, ls[1..], tag, some, false)
    else if some then Good(bufs, ls[1..], tag, true, true)
    else NonEmpty(bufs, ls) == []
  }

  /** The empty links of owner `tag` that the search comes to, the last one first. */
  ghost function Freed(bufs: Bufs, ls: seq<Ptr>, tag: nat, some: bool): seq<Ptr>
    requires HaveBufs(bufs, ls)
    decreases |ls|
  {
    if ls == [] then []
    else if bufs[ls[0]].data != [] then Freed(bufs, ls[1..], tag, true)
    else if bufs[ls[0]].tag == tag then Freed(bufs, ls[1..], tag, some) + [ls[0]]
    else if some then Freed(bufs, ls[1..], tag, some)
    else []
  }

  lemma {:induction false} FreedUnfolds(bufs: Bufs, ls: seq<Ptr>, tag: nat, ks: seq<Ptr>, ll: Ptr)
    requires HaveBufs(bufs, ls) && ls != [] && (ll == NULL <==> ks == [])
    ensures Stops(bufs, ls[0], ll, tag) ==> Freed(bufs, ls, tag, ks != []) == []
    ensures !Stops(bufs, ls[0], ll, tag) ==>
              var own := bufs[ls[0]].data == [] && bufs[ls[0]].tag == tag;
              Freed(bufs, ls, tag, ks != [])
              == Freed(bufs, ls[1..], tag, ks + IfNonEmpty(bufs, ls[0]) != []) + (if own then [ls[0]] else [])
  {
  }

  /** The free list after the search.  To an empty list, no link is added. */
  ghost function FreeAfter(fs: seq<Ptr>, freed: seq<Ptr>): seq<Ptr> {
    if fs == [] then [] else freed + fs
  }

  lemma {:induction false} FreeAfterStep(fs: seq<Ptr>, one: seq<Ptr>, freed: seq<Ptr>)
    ensures FreeAfter(FreeAfter(fs, one), freed) == FreeAfter(fs, freed + one)
    ensures FreeAfter(fs, []) == fs && freed + [] == freed
  {
    if fs != [] { assert freed + (one + fs) == (freed + one) + fs; }
  }

  /** The situation in the middle of the search: links `ks` are kept and lead to `x`,
      `ls` are to be visited and `fs` are free. */
  ghost predicate Scanning(next: Links, bufs: Bufs, first: Ptr, ks: seq<Ptr>, x: Ptr, ls: seq<Ptr>,
                           ll: Ptr, free: Ptr, fs: seq<Ptr>) {
    && Path(next, first, ks, x) && Path(next, Head(ls), ls, NULL) && Path(next, free, fs, NULL)
    && Distinct(ks) && Distinct(ls) && Distinct(fs)
    && Disjoint(ks, ls) && Disjoint(ks, fs) && Disjoint(ls, fs)
    && ll == Last(ks) && HaveBufs(bufs, ls)
    && (forall p :: p in ls ==> p in next)
  }

  lemma {:induction false} PathHead(next: Links, p: Ptr, ls: seq<Ptr>)
    requires Path(next, p, ls, NULL)
    ensures p == Head(ls) && (p == NULL <==> ls == [])
    ensures ls != [] ==> Path(next, next[p], ls[1..], NULL) && next[p] == Head(ls[1..])
  {
  }

  lemma {:induction false} DistinctSnoc(ks: seq<Ptr>, p: Ptr)
    requires Distinct(ks) && p !in ks
    ensures Distinct(ks + [p])
  {
    if ks != [] {
      DistinctSnoc(ks[1..], p);
      assert (ks + [p])[1..] == ks[1..] + [p] && (ks + [p])[0] == ks[0];
    } else {
      assert [p][1..] == [];
    }
  }

  lemma {:induction false} KeepStep(next: Links, bufs: Bufs, first: Ptr, ks: seq<Ptr>, ls: seq<Ptr>,
                                    ll: Ptr, free: Ptr, fs: seq<Ptr>)
    requires ls != [] && Scanning(next, bufs, first, ks, ls[0], ls, ll, free, fs)
    ensures Scanning(next, bufs, first, ks + [ls[0]], Head(ls[1..]), ls[1..], ls[0], free, fs)
  {
    PathHead(next, ls[0], ls);
    DistinctSnoc(ks, ls[0]);
    assert Path(next, ls[0], [ls[0]], next[ls[0]]) by { assert [ls[0]][1..] == []; }
    PathJoin(next, first, ks, ls[0], [ls[0]], Head(ls[1..]));
  }

  lemma {:induction false} FreeStep(next: Links, bufs: Bufs, first: Ptr, ks: seq<Ptr>, x: Ptr, ls: seq<Ptr>,
                                    ll: Ptr, free: Ptr, fs: seq<Ptr>)
    requires ls != [] && Scanning(next, bufs, first, ks, x, ls, ll, free, fs)
    ensures Scanning(next[ls[0] := free], bufs, first, ks, x, ls[1..], ll,
                     if free != NULL then ls[0] else NULL, if fs != [] then [ls[0]] + fs else [])
  {
    var cl, next' := ls[0], next[ls[0] := free];
    PathHead(next, cl, ls);
    PathHead(next, free, fs);
    PathFrame(next, next', first, ks, x);
    PathFrame(next, next', Head(ls[1..]), ls[1..], NULL);
    PathFrame(next, next', free, fs, NULL);
    if fs != [] {
      assert ([cl] + fs)[1..] == fs;
    }
  }

  lemma {:induction false} UnlinkStep(next: Links, bufs: Bufs, first: Ptr, ks: seq<Ptr>, x: Ptr, ls: seq<Ptr>,
                                      ll: Ptr, free: Ptr, fs: seq<Ptr>)
    requires ls != [] && ks != [] && Scanning(next, bufs, first, ks, x, ls, ll, free, fs)
    ensures Scanning(next[ll := next[ls[0]]], bufs, first, ks, Head(ls[1..]), ls[1..], ll, free, fs)
  {
    var next' := next[ll := next[ls[0]]];
    assert ll in ks;
    PathHead(next, ls[0], ls);
    PathRedirect(next, first, ks, x, Head(ls[1..]));
    PathFrame(next, next', Head(ls[1..]), ls[1..], NULL);
    PathFrame(next, next', free, fs, NULL);
  }

  lemma {:induction false} VisitKeeps(next: Links, bufs: Bufs, first: Ptr, ks: seq<Ptr>, x: Ptr, ls: seq<Ptr>,
                                      ll: Ptr, free: Ptr, fs: seq<Ptr>, tag: nat)
    returns (x': Ptr, fs': seq<Ptr>)
    requires Scanning(next, bufs, first, ks, x, ls, ll, free, fs)
    requires Good(bufs, ls, tag, ks != [], x == Head(ls))
    requires ls != [] && !Stops(bufs, ls[0], ll, tag)
    ensures var s, ks' := Visit(next, bufs, ls[0], ll, free, tag), ks + IfNonEmpty(bufs, ls[0]);
            && Scanning(s.next, bufs, first, ks', x', ls[1..], s.ll, s.free, fs')
            && Good(bufs, ls[1..], tag, ks' != [], x' == Head(ls[1..]))
            && fs' == FreeAfter(fs, if bufs[ls[0]].data == [] && bufs[ls[0]].tag == tag then [ls[0]] else [])
  {
    hide Scanning, Path;
    Visits(next, bufs, first, ks, x, ls, ll, free, fs);
    var cl := ls[0];
    if bufs[cl].data != [] {
      KeepStep(next, bufs, first, ks, ls, ll, free, fs);
      x', fs' := Head(ls[1..]), fs;
    } else if bufs[cl].tag == tag {
      assert ks + [] == ks;
      FreeStep(next, bufs, first, ks, x, ls, ll, free, fs);
      GoodWeaken(bufs, ls[1..], tag, ks != [], x == Head(ls[1..]));
      x', fs' := x, FreeAfter(fs, [cl]);
    } else {
      assert ks + [] == ks;
      UnlinkStep(next, bufs, first, ks, x, ls, ll, free, fs);
      x', fs' := Head(ls[1..]), fs;
    }
  }

  lemma {:induction false} ScanEnds(next: Links, bufs: Bufs, first: Ptr, ks: seq<Ptr>, x: Ptr, ls: seq<Ptr>,
                                    ll: Ptr, free: Ptr, fs: seq<Ptr>, tag: nat)
    requires Scanning(next, bufs, first, ks, x, ls, ll, free, fs)
    requires Good(bufs, ls, tag, ks != [], x == Head(ls))
    requires ls == [] || Stops(bufs, ls[0], ll, tag)
    ensures Scanning(next, bufs, first, ks + NonEmpty(bufs, ls), x, [], ll, free, fs)
  {
    if ls != [] { Visits(next, bufs, first, ks, x, ls, ll, free, fs); }
    assert ks + NonEmpty(bufs, ls) == ks;
  }

  /** What the search leaves: the non-empty links, and before the free links the empty ones
      of this owner that it came to. */
  lemma {:induction false} ScanKeeps(next: Links, bufs: Bufs, first: Ptr, ks: seq<Ptr>, x: Ptr, ls: seq<Ptr>,
                                     ll: Ptr, free: Ptr, fs: seq<Ptr>, tag: nat)
    returns (x': Ptr, fs': seq<Ptr>)
    requires Scanning(next, bufs, first, ks, x, ls, ll, free, fs)
    requires Good(bufs, ls, tag, ks != [], x == Head(ls))
    ensures var s := ScanTail(next, bufs, ls, ll, free, tag);
            && Scanning(s.next, bufs, first, ks + NonEmpty(bufs, ls), x', [], s.ll, s.free, fs')
            && HaveBufs(bufs, ls) && fs' == FreeAfter(fs, Freed(bufs, ls, tag, ks != []))
    decreases |ls|
  {
    hide Scanning, Path, Good, IfNonEmpty, Visit, Head, Last, FreeAfter;
    if ls != [] {
      Visits(next, bufs, first, ks, x, ls, ll, free, fs);
      FreedUnfolds(bufs, ls, tag, ks, ll);
    }
    if ls == [] || Stops(bufs, ls[0], ll, tag) {
      ScanEnds(next, bufs, first, ks, x, ls, ll, free, fs, tag);
      x', fs' := x, fs;
      FreeAfterStep(fs, [], []);
    } else {
      var s, one, rest := Visit(next, bufs, ls[0], ll, free, tag), IfNonEmpty(bufs, ls[0]), NonEmpty(bufs, ls[1..]);
      var x1, fs1 := VisitKeeps(next, bufs, first, ks, x, ls, ll, free, fs, tag);
      x', fs' := ScanKeeps(s.next, bufs, first, ks + one, x1, ls[1..], s.ll, s.free, fs1, tag);
      assert ks + one + rest == ks + (one + rest);
      var freed: seq<Ptr> := if bufs[ls[0]].data == [] && bufs[ls[0]].tag == tag then [ls[0]] else [];
      FreeAfterStep(fs, freed, Freed(bufs, ls[1..], tag, ks + one != []));
    }
  }

  lemma {:induction false} Visits(next: Links, bufs: Bufs, first: Ptr, ks: seq<Ptr>, x: Ptr, ls: seq<Ptr>,
                                  ll: Ptr, free: Ptr, fs: seq<Ptr>)
    requires ls != [] && Scanning(next, bufs, first, ks, x, ls, ll, free, fs)
    ensures ls[0] in next && ls[0] in bufs && (ll == NULL <==> ks == []) && ll == Last(ks)
    ensures forall p :: p in ls ==> p in next
    ensures HaveBufs(bufs, ls) && HaveBufs(bufs, ls[1..]) && Head(ls) != Head(ls[1..])
    ensures free == NULL <==> fs == []
  {
    PathHead(next, free, fs);
    PathHead(next, Head(ls), ls);
    PathHead(next, Head(ls[1..]), ls[1..]);
    if ks != [] { LastNonNull(next, first, ks, x); }
  }

  lemma {:induction false} LastNonNull(next: Links, p: Ptr, ks: seq<Ptr>, x: Ptr)
    requires ks != [] && Path(next, p, ks, x)
    ensures Last(ks) != NULL
    decreases |ks|
  {
    if |ks| > 1 { LastNonNull(next, next[p], ks[1..], x); }
  }

  lemma {:induction false} GoodWeaken(bufs: Bufs, ls: seq<Ptr>, tag: nat, some: bool, linked: bool)
    requires HaveBufs(bufs, ls) && Good(bufs, ls, tag, some, false)
    ensures Good(bufs, ls, tag, some, linked)
    decreases |ls|
  {
    if ls != [] && bufs[ls[0]].data == [] && bufs[ls[0]].tag == tag {
      GoodWeaken(bufs, ls[1..], tag, some, false);
    }
  }

  // ------------------------------------------------------------- a free link

  datatype Got = Got(link: Ptr, next: Links, bufs: Bufs, free: Ptr)

  /** A link with room for `len` bytes: the first free one, with new memory if its own is
      too small, or a new one.  `alloc` is the address of a new link, if there is memory
      for it, and `memOk` tells whether there is memory for the bytes. */
  function GetFree(next: Links, bufs: Bufs, free: Ptr, len: nat, tag: nat, reuse: bool, alloc: Ptr, memOk: bool): Got
    requires free != NULL ==> free in next && free in bufs
  {
    if reuse && free != NULL then
      var b, next', free' := bufs[free], next[free := NULL], next[free];
      if b.hasMem && b.cap >= len then Got(free, next', bufs[free := EmptyBuf(true, b.cap, tag)], free')
      else if len == 0 then Got(free, next', bufs[free := EmptyBuf(false, 0, 0)], free')
      else if !memOk then Got(NULL, next', bufs[free := EmptyBuf(false, 0, 0)], free')
      else Got(free, next', bufs[free := EmptyBuf(true, len, tag)], free')
    else if alloc == NULL || !memOk then Got(NULL, next, bufs, free)
    else Got(alloc, next[alloc := NULL], bufs[alloc := EmptyBuf(len > 0, len, tag)], free)
  }

  /** A path `ks` to `x`, and a free list `fs` that shares no link with it. */
  ghost predicate Listed(next: Links, bufs: Bufs, first: Ptr, ks: seq<Ptr>, x: Ptr, free: Ptr, fs: seq<Ptr>) {
    && Path(next, first, ks, x) && Path(next, free, fs, NULL)
    && Distinct(ks) && Distinct(fs) && Disjoint(ks, fs)
    && HaveBufs(bufs, ks) && HaveBufs(bufs, fs)
    && (forall p :: p in ks ==> p in next) && (forall p :: p in fs ==> p in next)
  }

  ghost predicate ChainOk(next: Links, bufs: Bufs, first: Ptr, ls: seq<Ptr>, free: Ptr, fs: seq<Ptr>) {
    Listed(next, bufs, first, ls, NULL, free, fs)
  }

  /** A link apart from both. */
  ghost predicate Apart(next: Links, bufs: Bufs, first: Ptr, ks: seq<Ptr>, x: Ptr, nl: Ptr, free: Ptr, fs: seq<Ptr>) {
    && Listed(next, bufs, first, ks, x, free, fs)
    && nl != NULL && nl !in ks && nl !in fs
    && nl in next && nl in bufs && next[nl] == NULL
  }

  /** The allocator does not hand out a link that is in use.  It may hand out one that was
      freed before. */
  ghost predicate NotInUse(alloc: Ptr, ks: seq<Ptr>) {
    alloc != NULL ==> alloc !in ks
  }

  /** The link that was found is free, empty, and has room; nothing else changed. */
  lemma {:induction false} GetFreeApart(next: Links, bufs: Bufs, first: Ptr, ks: seq<Ptr>, x: Ptr, free: Ptr,
                                        fs: seq<Ptr>, len: nat, tag: nat, reuse: bool, alloc: Ptr, memOk: bool)
    returns (fs': seq<Ptr>)
    requires Listed(next, bufs, first, ks, x, free, fs) && NotInUse(alloc, ks) && (reuse || NotInUse(alloc, fs))
    requires free != NULL ==> free in next && free in bufs
    ensures var g := GetFree(next, bufs, free, len, tag, reuse, alloc, memOk);
            g.link != NULL ==>
              && Apart(g.next, g.bufs, first, ks, x, g.link, g.free, fs')
              && g.bufs == bufs[g.link := g.bufs[g.link]]
              && g.bufs[g.link] == EmptyBuf(g.bufs[g.link].hasMem, g.bufs[g.link].cap, g.bufs[g.link].tag)
              && len <= g.bufs[g.link].cap
              && fs' == if reuse && fs != [] then fs[1..] else fs
  {
    var g := GetFree(next, bufs, free, len, tag, reuse, alloc, memOk);
    PathHead(next, free, fs);
    fs' := if reuse && fs != [] then fs[1..] else fs;
    if g.link != NULL {
      PathFrame(next, g.next, first, ks, x);
      PathFrame(next, g.next, g.free, fs', NULL);
    }
  }

  /** Exactly when a link is found, and what its memory is: a free link is taken if there is
      one, with its own memory if that is large enough, and without any for an empty
      string; all others need new memory of the size asked for. */
  lemma {:induction false} GetFreeIff(next: Links, bufs: Bufs, free: Ptr, len: nat, tag: nat, reuse: bool, alloc: Ptr,
                                      memOk: bool)
    requires free != NULL ==> free in next && free in bufs
    ensures var g, taken := GetFree(next, bufs, free, len, tag, reuse, alloc, memOk), reuse && free != NULL;
            var kept := taken && bufs[free].hasMem && bufs[free].cap >= len;
            && (g.link != NULL <==> kept || (taken && len == 0) || (memOk && (taken || alloc != NULL)))
            && (g.link != NULL ==> g.link == if taken then free else alloc)
            && g.free == (if taken then next[free] else free)
            && (g.link != NULL ==> g.bufs[g.link].cap == if kept then bufs[free].cap else len)
            && (g.link != NULL ==> (g.bufs[g.link].hasMem <==> kept || len > 0))
            && (g.link != NULL ==> g.bufs[g.link].tag == if taken && !kept && len == 0 then 0 else tag)
  {
  }

  /** Attaching the new link makes a chain. */
  lemma {:induction false} Attach(next: Links, bufs: Bufs, first: Ptr, ks: seq<Ptr>, x: Ptr, nl: Ptr, free: Ptr,
                                  fs: seq<Ptr>)
    requires Apart(next, bufs, first, ks, x, nl, free, fs)
    ensures var next' := if ks != [] then next[Last(ks) := nl] else next;
            ChainOk(next', bufs, if ks != [] then first else nl, ks + [nl], free, fs)
  {
    var next' := if ks != [] then next[Last(ks) := nl] else next;
    DistinctSnoc(ks, nl);
    assert [nl][1..] == [];
    if ks != [] {
      assert Last(ks) in ks;
      PathRedirect(next, first, ks, x, nl);
      PathFrame(next, next', free, fs, NULL);
      assert Path(next', nl, [nl], NULL);
      PathJoin(next', first, ks, nl, [nl], NULL);
    } else {
      assert ks + [nl] == [nl];
    }
  }
}
