/** Append and prepend on chains of buffers, and the request body they are used for. */
module BufferOps {
  import opened Bytes
  import opened BufferChain
  import opened BufferAppend

  datatype Chains = Chains(ok: bool, next: Links, bufs: Bufs, first: Ptr, free: Ptr)

  /** All pointers that are followed lead to links. */
  predicate Ready(next: Links, bufs: Bufs, ls: seq<Ptr>, at: nat, free: Ptr, tag: nat) {
    && (forall p :: p in ls ==> p in bufs && p in next)
    && var s := ScanTail(next, ClearFrom(bufs, ls, 0, at).0, ls, NULL, free, tag);
       s.free != NULL ==> s.free in s.next && s.free in bufs
  }

  /** Puts `str` in place of all bytes of the chain from offset `at` on. */
  function Append(next: Links, bufs: Bufs, first: Ptr, ls: seq<Ptr>, at: nat, str: Bytes, free: Ptr,
                  tag: nat, alloc: Ptr, memOk: bool): Chains
    requires Ready(next, bufs, ls, at, free, tag)
  {
    var bufs1 := ClearFrom(bufs, ls, 0, at).0;
    var s := ScanTail(next, bufs1, ls, NULL, free, tag);
    var g := GetFree(s.next, bufs1, s.free, |str|, tag, true, alloc, memOk);
    if g.link == NULL then Chains(false, g.next, g.bufs, first, g.free)
    else
      var b := g.bufs[g.link].(data := str, flush := AnyFlush(bufs, ls),
                               lastBuf := AnyEof(bufs, ls), lastInChain := AnyEof(bufs, ls));
      if s.ll != NULL then Chains(true, g.next[s.ll := g.link], g.bufs[g.link := b], first, g.free)
      else Chains(true, g.next, g.bufs[g.link := b], g.link, g.free)
  }

  lemma {:induction false} NonEmptyMember(bufs: Bufs, ls: seq<Ptr>, p: Ptr)
    requires HaveBufs(bufs, ls)
    ensures p in NonEmpty(bufs, ls) <==> p in ls && bufs[p].data != []
  {
    if ls != [] { NonEmptyMember(bufs, ls[1..], p); }
  }

  lemma {:induction false} NonEmptyBufs(bufs: Bufs, ls: seq<Ptr>)
    requires HaveBufs(bufs, ls)
    ensures HaveBufs(bufs, NonEmpty(bufs, ls))
  {
    forall p | p in NonEmpty(bufs, ls) ensures p in bufs { NonEmptyMember(bufs, ls, p); }
  }

  lemma {:induction false} NonEmptyContent(bufs: Bufs, ls: seq<Ptr>)
    requires HaveBufs(bufs, ls)
    ensures HaveBufs(bufs, NonEmpty(bufs, ls))
    ensures Content(bufs, NonEmpty(bufs, ls)) == Content(bufs, ls)
  {
    NonEmptyBufs(bufs, ls);
    if ls != [] {
      NonEmptyContent(bufs, ls[1..]);
      var rest := NonEmpty(bufs, ls[1..]);
      if bufs[ls[0]].data != [] {
        assert NonEmpty(bufs, ls) == [ls[0]] + rest && NonEmpty(bufs, ls)[1..] == rest;
      } else {
        assert NonEmpty(bufs, ls) == [] + rest == rest;
      }
    }
  }

  /** The search starts in a chain. */
  lemma {:induction false} ScanStarts(next: Links, bufs: Bufs, first: Ptr, ls: seq<Ptr>, free: Ptr, fs: seq<Ptr>)
    requires ChainOk(next, bufs, first, ls, free, fs)
    ensures Scanning(next, bufs, first, [], first, ls, NULL, free, fs) && first == Head(ls)
  {
    PathHead(next, first, ls);
  }

  lemma {:induction false} ScanListed(next: Links, bufs: Bufs, first: Ptr, ks: seq<Ptr>, x: Ptr, ll: Ptr,
                                      free: Ptr, fs: seq<Ptr>)
    requires Scanning(next, bufs, first, ks, x, [], ll, free, fs)
    requires HaveBufs(bufs, ks) && HaveBufs(bufs, fs)
    ensures Listed(next, bufs, first, ks, x, free, fs) && ll == Last(ks)
    ensures free != NULL ==> free in next && free in bufs
  {
    PathKeys(next, first, ks, x);
    PathKeys(next, free, fs, NULL);
    PathHead(next, free, fs);
  }

  lemma {:induction false} PathKeys(next: Links, p: Ptr, ls: seq<Ptr>, q: Ptr)
    requires Path(next, p, ls, q)
    ensures forall x :: x in ls ==> x in next
    decreases |ls|
  {
    if ls != [] { PathKeys(next, next[p], ls[1..], q); }
  }

  /** Clearing and searching, together: the kept links hold the bytes before the offset
      and no flags. */
  lemma {:induction false} ClearAndScan(next: Links, bufs: Bufs, first: Ptr, ls: seq<Ptr>, at: nat, free: Ptr,
                                        fs: seq<Ptr>, tag: nat)
    returns (x: Ptr, fs': seq<Ptr>)
    requires ChainOk(next, bufs, first, ls, free, fs)
    requires Good(ClearFrom(bufs, ls, 0, at).0, ls, tag, false, true)
    ensures var bufs1 := ClearFrom(bufs, ls, 0, at).0;
            var s, ks := ScanTail(next, bufs1, ls, NULL, free, tag), NonEmpty(bufs1, ls);
            && HaveBufs(bufs1, ks) && s.ll == Last(ks)
            && Listed(s.next, bufs1, first, ks, x, s.free, fs')
            && (s.free != NULL ==> s.free in s.next && s.free in bufs1)
            && Content(bufs1, ks) == Content(bufs, ls)[..Min(at, |Content(bufs, ls)|)]
            && (forall p :: p in ks ==> !Eof(bufs1[p]) && !bufs1[p].flush)
            && HaveBufs(bufs1, ls) && fs' == FreeAfter(fs, Freed(bufs1, ls, tag, false))
  {
    hide ScanTail, Scanning, Good, Listed, NonEmpty, Freed, FreeAfter, ClearFrom, Content, ChainOk, Distinct;
    LinksKnown(next, bufs, first, ls, free, fs);
    var bufs1 := ClearFrom(bufs, ls, 0, at).0;
    ChainFrame(next, bufs, bufs1, first, ls, free, fs);
    ScanStarts(next, bufs1, first, ls, free, fs);
    x, fs' := ScanKeeps(next, bufs1, first, [], first, ls, NULL, free, fs, tag);
    var ks := NonEmpty(bufs1, ls);
    assert [] + ks == ks;
    NonEmptyContent(bufs1, ls);
    ClearKeepsPrefix(bufs, ls, 0, at);
    KeptUnflagged(bufs, ls, at);
    var s := ScanTail(next, bufs1, ls, NULL, free, tag);
    FreeHaveBufs(bufs1, fs, ls, tag);
    ScanListed(s.next, bufs1, first, ks, x, s.ll, s.free, fs');
  }

  lemma {:induction false} KeptUnflagged(bufs: Bufs, ls: seq<Ptr>, at: nat)
    requires HaveBufs(bufs, ls) && Distinct(ls)
    ensures var bufs1 := ClearFrom(bufs, ls, 0, at).0;
            && HaveBufs(bufs1, ls)
            && forall p :: p in NonEmpty(bufs1, ls) ==> p in bufs1 && !Eof(bufs1[p]) && !bufs1[p].flush
  {
    hide ClearFrom, NonEmpty;
    var bufs1 := ClearFrom(bufs, ls, 0, at).0;
    forall p | p in NonEmpty(bufs1, ls) ensures p in bufs1 && !Eof(bufs1[p]) && !bufs1[p].flush {
      NonEmptyMember(bufs1, ls, p);
      ClearOne(bufs, ls, 0, at, p);
    }
  }

  lemma {:induction false} FreeHaveBufs(bufs: Bufs, fs: seq<Ptr>, ls: seq<Ptr>, tag: nat)
    requires HaveBufs(bufs, fs) && HaveBufs(bufs, ls)
    ensures HaveBufs(bufs, FreeAfter(fs, Freed(bufs, ls, tag, false)))
  {
    FreedVisited(bufs, ls, tag, false);
  }

  lemma {:induction false} FreedVisited(bufs: Bufs, ls: seq<Ptr>, tag: nat, some: bool)
    requires HaveBufs(bufs, ls)
    ensures forall p :: p in Freed(bufs, ls, tag, some) ==> p in ls
    decreases |ls|
  {
    if ls != [] {
      FreedVisited(bufs, ls[1..], tag, some);
      FreedVisited(bufs, ls[1..], tag, true);
    }
  }

  lemma {:induction false} LinksKnown(next: Links, bufs: Bufs, first: Ptr, ls: seq<Ptr>, free: Ptr, fs: seq<Ptr>)
    requires ChainOk(next, bufs, first, ls, free, fs)
    ensures HaveBufs(bufs, ls) && HaveBufs(bufs, fs) && Distinct(ls)
    ensures forall p :: p in ls ==> p in next
  {
  }

  lemma {:induction false} ChainFrame(next: Links, bufs: Bufs, bufs': Bufs, first: Ptr, ls: seq<Ptr>, free: Ptr,
                                      fs: seq<Ptr>)
    requires ChainOk(next, bufs, first, ls, free, fs) && bufs'.Keys == bufs.Keys
    ensures ChainOk(next, bufs', first, ls, free, fs)
  {
  }

  /** End of stream and flush are told by the last link, and by no other. */
  ghost predicate FlagsOnLast(bufs: Bufs, ls: seq<Ptr>, eof: bool, flush: bool)
    requires HaveBufs(bufs, ls)
  {
    && ls != []
    && (forall p :: p in ls && p != Last(ls) ==> !Eof(bufs[p]) && !bufs[p].flush)
    && bufs[Last(ls)].lastBuf == bufs[Last(ls)].lastInChain == eof && bufs[Last(ls)].flush == flush
  }

  /** The new link after the kept ones. */
  lemma {:induction false} AttachContent(bufs: Bufs, ks: seq<Ptr>, nl: Ptr, b: Buf)
    requires HaveBufs(bufs, ks) && nl !in ks
    requires forall p :: p in ks ==> !Eof(bufs[p]) && !bufs[p].flush
    ensures var bufs' := bufs[nl := b];
            && HaveBufs(bufs', ks + [nl])
            && Content(bufs', ks + [nl]) == Content(bufs, ks) + b.data
            && (b.lastBuf == b.lastInChain ==> FlagsOnLast(bufs', ks + [nl], b.lastBuf, b.flush))
  {
    var bufs' := bufs[nl := b];
    ContentFrame(bufs, bufs', ks);
    ContentJoin(bufs', ks, [nl]);
    assert [nl][1..] == [];
    assert b.data + [] == b.data;
  }

  /** The free list, the chain and the new link after `GetFree`. */
  lemma {:induction false} Taken(next: Links, bufs: Bufs, first: Ptr, ks: seq<Ptr>, x: Ptr, free: Ptr,
                                 fs: seq<Ptr>, str: Bytes, tag: nat, alloc: Ptr, memOk: bool, eof: bool, flush: bool)
    returns (fs': seq<Ptr>)
    requires Listed(next, bufs, first, ks, x, free, fs) && NotInUse(alloc, ks)
    requires free != NULL ==> free in next && free in bufs
    requires forall p :: p in ks ==> p in bufs && !Eof(bufs[p]) && !bufs[p].flush
    ensures var g := GetFree(next, bufs, free, |str|, tag, true, alloc, memOk);
            g.link != NULL ==>
              var b := g.bufs[g.link].(data := str, flush := flush, lastBuf := eof, lastInChain := eof);
              var bufs' := g.bufs[g.link := b];
              && Apart(g.next, bufs', first, ks, x, g.link, g.free, fs')
              && HaveBufs(bufs', ks + [g.link])
              && Content(bufs', ks + [g.link]) == Content(bufs, ks) + str
              && FlagsOnLast(bufs', ks + [g.link], eof, flush)
              && |str| <= b.cap
  {
    hide Listed, Path, GetFree;
    fs' := GetFreeApart(next, bufs, first, ks, x, free, fs, |str|, tag, true, alloc, memOk);
    var g := GetFree(next, bufs, free, |str|, tag, true, alloc, memOk);
    if g.link != NULL {
      var b := g.bufs[g.link].(data := str, flush := flush, lastBuf := eof, lastInChain := eof);
      ListedFrame(g.next, g.bufs, g.bufs[g.link := b], first, ks, x, g.free, fs');
      ContentFrame(bufs, g.bufs, ks);
      AttachContent(g.bufs, ks, g.link, b);
    }
  }

  lemma {:induction false} ListedFrame(next: Links, bufs: Bufs, bufs': Bufs, first: Ptr, ks: seq<Ptr>, x: Ptr,
                                       free: Ptr, fs: seq<Ptr>)
    requires Listed(next, bufs, first, ks, x, free, fs) && bufs'.Keys == bufs.Keys
    ensures Listed(next, bufs', first, ks, x, free, fs)
  {
  }

  /** Append yields the first bytes of the chain, up to `at`, followed by the string, in a
      chain whose last link alone holds the string, within its memory, and all flags;
      the chain and the free list stay disjoint. */
  lemma {:induction false} AppendSpec(next: Links, bufs: Bufs, first: Ptr, ls: seq<Ptr>, at: nat, str: Bytes,
                                      free: Ptr, fs: seq<Ptr>, tag: nat, alloc: Ptr, memOk: bool)
    returns (ls': seq<Ptr>, fs': seq<Ptr>)
    requires ChainOk(next, bufs, first, ls, free, fs)
    requires NotInUse(alloc, NonEmpty(ClearFrom(bufs, ls, 0, at).0, ls))
    requires Good(ClearFrom(bufs, ls, 0, at).0, ls, tag, false, true)
    ensures Ready(next, bufs, ls, at, free, tag)
    ensures var c := Append(next, bufs, first, ls, at, str, free, tag, alloc, memOk);
            var was := Content(bufs, ls);
            c.ok ==>
              && ChainOk(c.next, c.bufs, c.first, ls', c.free, fs')
              && HaveBufs(c.bufs, ls') && ls' != []
              && Content(c.bufs, ls') == was[..Min(at, |was|)] + str
              && FlagsOnLast(c.bufs, ls', AnyEof(bufs, ls), AnyFlush(bufs, ls))
              && c.bufs[Last(ls')].data == str && |str| <= c.bufs[Last(ls')].cap
  {
    hide ScanTail, GetFree, Listed, Path, NonEmpty, Good, ClearFrom, Content, FlagsOnLast, Apart;
    LinksKnown(next, bufs, first, ls, free, fs);
    var x, fs1 := ClearAndScan(next, bufs, first, ls, at, free, fs, tag);
    var bufs1 := ClearFrom(bufs, ls, 0, at).0;
    var s, ks := ScanTail(next, bufs1, ls, NULL, free, tag), NonEmpty(bufs1, ls);
    fs' := Taken(s.next, bufs1, first, ks, x, s.free, fs1, str, tag, alloc, memOk,
                 AnyEof(bufs, ls), AnyFlush(bufs, ls));
    var g := GetFree(s.next, bufs1, s.free, |str|, tag, true, alloc, memOk);
    ls' := ks + [g.link];
    if g.link != NULL {
      var c := Append(next, bufs, first, ls, at, str, free, tag, alloc, memOk);
      Attach(g.next, c.bufs, first, ks, x, g.link, g.free, fs');
      LastIsNull(s.next, bufs1, first, ks, x, s.free, fs1);
    }
  }

  /** A link for `len` bytes is found: the first free one, if there is one, with new memory unless
      its own is large enough or none is needed; or else a new one. */
  predicate MayTake(bufs: Bufs, fs: seq<Ptr>, len: nat, alloc: Ptr, memOk: bool) {
    if fs == [] then memOk && alloc != NULL
    else memOk || len == 0 || (fs[0] in bufs && bufs[fs[0]].hasMem && bufs[fs[0]].cap >= len)
  }

  /** Exactly when an append succeeds.  The link that is taken is the last empty one of this
      owner in the cleared chain, or else the first free one, if the free list is not
      empty. */
  lemma {:induction false} AppendOkIff(next: Links, bufs: Bufs, first: Ptr, ls: seq<Ptr>, at: nat, str: Bytes,
                                       free: Ptr, fs: seq<Ptr>, tag: nat, alloc: Ptr, memOk: bool)
    requires ChainOk(next, bufs, first, ls, free, fs)
    requires Good(ClearFrom(bufs, ls, 0, at).0, ls, tag, false, true)
    ensures Ready(next, bufs, ls, at, free, tag)
    ensures var bufs1 := ClearFrom(bufs, ls, 0, at).0;
            Append(next, bufs, first, ls, at, str, free, tag, alloc, memOk).ok <==>
            MayTake(bufs, FreeAfter(fs, Freed(bufs1, ls, tag, false)), |str|, alloc, memOk)
  {
    hide ScanTail, GetFree, Listed, Path, NonEmpty, Good, ClearFrom, Content, FlagsOnLast, Apart, Freed, FreeAfter;
    LinksKnown(next, bufs, first, ls, free, fs);
    var x, fs1 := ClearAndScan(next, bufs, first, ls, at, free, fs, tag);
    var bufs1 := ClearFrom(bufs, ls, 0, at).0;
    var s := ScanTail(next, bufs1, ls, NULL, free, tag);
    GetFreeIff(s.next, bufs1, s.free, |str|, tag, true, alloc, memOk);
    FreeHead(s.next, bufs1, first, NonEmpty(bufs1, ls), x, s.free, fs1);
    if fs1 != [] { MemoryKept(bufs, ls, at, fs1[0]); }
  }

  lemma {:induction false} FreeHead(next: Links, bufs: Bufs, first: Ptr, ks: seq<Ptr>, x: Ptr, free: Ptr, fs: seq<Ptr>)
    requires Listed(next, bufs, first, ks, x, free, fs)
    ensures (free == NULL <==> fs == []) && (fs != [] ==> free == fs[0] && free in bufs)
  {
    PathHead(next, free, fs);
  }

  lemma {:induction false} MemoryKept(bufs: Bufs, ls: seq<Ptr>, at: nat, p: Ptr)
    requires HaveBufs(bufs, ls) && Distinct(ls) && p in bufs
    ensures ClearFrom(bufs, ls, 0, at).0[p].hasMem == bufs[p].hasMem
    ensures ClearFrom(bufs, ls, 0, at).0[p].cap == bufs[p].cap
  {
    if p in ls { ClearOne(bufs, ls, 0, at, p); } else { ClearFrame(bufs, ls, 0, at, p); }
  }

  /** What a failed append leaves: the chain starts with the links that hold the bytes
      before the offset.  Their flags are gone, and where the last of them leads is not
      told. */
  lemma {:induction false} AppendFails(next: Links, bufs: Bufs, first: Ptr, ls: seq<Ptr>, at: nat, str: Bytes,
                                       free: Ptr, fs: seq<Ptr>, tag: nat, alloc: Ptr, memOk: bool)
    returns (ks: seq<Ptr>, x: Ptr)
    requires ChainOk(next, bufs, first, ls, free, fs)
    requires Good(ClearFrom(bufs, ls, 0, at).0, ls, tag, false, true)
    requires Ready(next, bufs, ls, at, free, tag)
    ensures var c := Append(next, bufs, first, ls, at, str, free, tag, alloc, memOk);
            var was := Content(bufs, ls);
            !c.ok ==> c.first == first && Kept(c.next, c.bufs, first, ks, x, was[..Min(at, |was|)])
  {
    hide ScanTail, Path, NonEmpty, Good, ClearFrom, Content;
    LinksKnown(next, bufs, first, ls, free, fs);
    var fs1;
    x, fs1 := ClearAndScan(next, bufs, first, ls, at, free, fs, tag);
    var bufs1 := ClearFrom(bufs, ls, 0, at).0;
    var s := ScanTail(next, bufs1, ls, NULL, free, tag);
    ks := NonEmpty(bufs1, ls);
    var g := GetFree(s.next, bufs1, s.free, |str|, tag, true, alloc, memOk);
    if g.link == NULL {
      PathHead(s.next, s.free, fs1);
      PathFrame(s.next, g.next, first, ks, x);
      ContentFrame(bufs1, g.bufs, ks);
    }
  }

  /** A chain that starts with links `ks`, which hold `bytes` and no flags. */
  ghost predicate Kept(next: Links, bufs: Bufs, first: Ptr, ks: seq<Ptr>, x: Ptr, bytes: Bytes) {
    && Path(next, first, ks, x) && HaveBufs(bufs, ks) && Content(bufs, ks) == bytes
    && forall p :: p in ks ==> !Eof(bufs[p]) && !bufs[p].flush
  }

  lemma {:induction false} LastIsNull(next: Links, bufs: Bufs, first: Ptr, ks: seq<Ptr>, x: Ptr, free: Ptr,
                                      fs: seq<Ptr>)
    requires Listed(next, bufs, first, ks, x, free, fs)
    ensures Last(ks) == NULL <==> ks == []
  {
    if ks != [] { LastNonNull(next, first, ks, x); }
  }

  // ----------------------------------------------------------------- prepend

  function Prepend(next: Links, bufs: Bufs, first: Ptr, str: Bytes, free: Ptr, tag: nat, alloc: Ptr,
                   memOk: bool): Chains
    requires free != NULL ==> free in next && free in bufs
  {
    var g := GetFree(next, bufs, free, |str|, tag, true, alloc, memOk);
    if g.link == NULL then Chains(false, g.next, g.bufs, first, g.free)
    else
      Chains(true, g.next[g.link := first], g.bufs[g.link := g.bufs[g.link].(data := str)], g.link, g.free)
  }

  /** Prepend puts a link with the string, within its memory, before the chain; all other
      links of the chain keep their bytes and flags. */
  lemma {:induction false} PrependSpec(next: Links, bufs: Bufs, first: Ptr, ls: seq<Ptr>, str: Bytes, free: Ptr,
                                       fs: seq<Ptr>, tag: nat, alloc: Ptr, memOk: bool)
    returns (fs': seq<Ptr>)
    requires ChainOk(next, bufs, first, ls, free, fs) && NotInUse(alloc, ls)
    ensures free != NULL ==> free in next && free in bufs
    ensures var c := Prepend(next, bufs, first, str, free, tag, alloc, memOk);
            c.ok ==>
              && ChainOk(c.next, c.bufs, c.first, [c.first] + ls, c.free, fs')
              && HaveBufs(c.bufs, [c.first] + ls)
              && Content(c.bufs, [c.first] + ls) == str + Content(bufs, ls)
              && (forall p :: p in ls ==> c.bufs[p] == bufs[p])
              && c.bufs[c.first].data == str && |str| <= c.bufs[c.first].cap
              && !Eof(c.bufs[c.first]) && !c.bufs[c.first].flush
  {
    hide GetFree;
    PathHead(next, free, fs);
    fs' := GetFreeApart(next, bufs, first, ls, NULL, free, fs, |str|, tag, true, alloc, memOk);
    var g := GetFree(next, bufs, free, |str|, tag, true, alloc, memOk);
    if g.link != NULL {
      var c := Prepend(next, bufs, first, str, free, tag, alloc, memOk);
      PathFrame(g.next, c.next, first, ls, NULL);
      PathFrame(g.next, c.next, g.free, fs', NULL);
      ContentFrame(bufs, c.bufs, ls);
      assert ([g.link] + ls)[1..] == ls;
    }
  }

  /** Exactly when a prepend succeeds. */
  lemma {:induction false} PrependOkIff(next: Links, bufs: Bufs, first: Ptr, ls: seq<Ptr>, str: Bytes, free: Ptr,
                                        fs: seq<Ptr>, tag: nat, alloc: Ptr, memOk: bool)
    requires ChainOk(next, bufs, first, ls, free, fs)
    ensures free != NULL ==> free in next && free in bufs
    ensures Prepend(next, bufs, first, str, free, tag, alloc, memOk).ok <==> MayTake(bufs, fs, |str|, alloc, memOk)
  {
    hide GetFree;
    FreeHead(next, bufs, first, ls, NULL, free, fs);
    GetFreeIff(next, bufs, free, |str|, tag, true, alloc, memOk);
  }

  /** A failed prepend leaves the chain as it was; the free link that it took is lost. */
  lemma {:induction false} PrependFails(next: Links, bufs: Bufs, first: Ptr, ls: seq<Ptr>, str: Bytes, free: Ptr,
                                        fs: seq<Ptr>, tag: nat, alloc: Ptr, memOk: bool)
    returns (fs': seq<Ptr>)
    requires ChainOk(next, bufs, first, ls, free, fs)
    ensures free != NULL ==> free in next && free in bufs
    ensures var c := Prepend(next, bufs, first, str, free, tag, alloc, memOk);
            !c.ok ==>
              && c.first == first && ChainOk(c.next, c.bufs, first, ls, c.free, fs')
              && HaveBufs(c.bufs, ls) && Content(c.bufs, ls) == Content(bufs, ls)
              && (forall p :: p in ls ==> c.bufs[p] == bufs[p])
  {
    PathHead(next, free, fs);
    var c := Prepend(next, bufs, first, str, free, tag, alloc, memOk);
    fs' := if fs != [] then fs[1..] else fs;
    if !c.ok {
      PathFrame(next, c.next, first, ls, NULL);
      PathFrame(next, c.next, c.free, fs', NULL);
      ContentFrame(bufs, c.bufs, ls);
    }
  }

  // ------------------------------------------------------------------ length

  /** The bytes up to the link that ends the stream. */
  function ChainLen(bufs: Bufs, ls: seq<Ptr>): nat
    requires HaveBufs(bufs, ls)
  {
    if ls == [] then 0
    else |bufs[ls[0]].data| + if Eof(bufs[ls[0]]) then 0 else ChainLen(bufs, ls[1..])
  }

  /** The length is that of the whole chain exactly when no byte comes after the first
      link that ends the stream. */
  lemma {:induction false} ChainLenIff(bufs: Bufs, ls: seq<Ptr>)
    requires HaveBufs(bufs, ls)
    ensures ChainLen(bufs, ls) == |Content(bufs, ls)| <==> NothingAfterEof(bufs, ls)
    ensures ChainLen(bufs, ls) <= |Content(bufs, ls)|
  {
    if ls != [] { ChainLenIff(bufs, ls[1..]); }
  }

  /** The bytes that are counted: those up to the first link that ends the stream, and of that
      link. */
  lemma {:induction false} ChainLenIs(bufs: Bufs, a: seq<Ptr>, p: Ptr, b: seq<Ptr>)
    requires HaveBufs(bufs, a) && p in bufs && HaveBufs(bufs, b)
    requires bufs[p].lastBuf || bufs[p].lastInChain
    requires forall q :: q in a ==> !bufs[q].lastBuf && !bufs[q].lastInChain
    ensures HaveBufs(bufs, a + [p] + b)
    ensures ChainLen(bufs, a + [p] + b) == |Content(bufs, a)| + |bufs[p].data|
  {
    if a == [] {
      assert a + [p] + b == [p] + b;
    } else {
      ChainLenIs(bufs, a[1..], p, b);
      assert (a + [p] + b)[1..] == a[1..] + [p] + b;
    }
  }

  ghost predicate NothingAfterEof(bufs: Bufs, ls: seq<Ptr>)
    requires HaveBufs(bufs, ls)
  {
    ls != [] ==> if Eof(bufs[ls[0]]) then Content(bufs, ls[1..]) == [] else NothingAfterEof(bufs, ls[1..])
  }

  lemma {:induction false} FlagsOnLastLen(bufs: Bufs, ls: seq<Ptr>)
    requires HaveBufs(bufs, ls) && ls != [] && Distinct(ls)
    requires forall p :: p in ls && p != Last(ls) ==> !Eof(bufs[p])
    ensures ChainLen(bufs, ls) == |Content(bufs, ls)|
  {
    if |ls| > 1 {
      assert Last(ls[1..]) == Last(ls) && Last(ls) in ls[1..];
      FlagsOnLastLen(bufs, ls[1..]);
    } else {
      assert ls[1..] == [];
    }
  }
}
