/** Chains of buffers: links in memory, each with a buffer, and a list of free links.
    A chain means a byte sequence, an end-of-stream flag and a flush flag. */
module BufferChain {
  import opened Bytes

  type Ptr = nat

  const NULL: Ptr := 0

  type Links = map<Ptr, Ptr>

  /** `cap` is the size of the memory of the buffer, of which `data` is in use. */
  datatype Buf = Buf(data: Bytes, hasMem: bool, cap: nat, tag: nat, flush: bool, lastBuf: bool, lastInChain: bool)

  type Bufs = map<Ptr, Buf>

  function EmptyBuf(hasMem: bool, cap: nat, tag: nat): Buf {
    Buf([], hasMem, cap, tag, false, false, false)
  }

  // ------------------------------------------------------------------ chains

  /** Following `next` from `p` visits `ls` and ends at `q`. */
  ghost predicate Path(next: Links, p: Ptr, ls: seq<Ptr>, q: Ptr)
    decreases |ls|
  {
    if ls == [] then p == q
    else p == ls[0] && p != NULL && p in next && Path(next, next[p], ls[1..], q)
  }

  ghost predicate Distinct(ls: seq<Ptr>) {
    ls == [] || (ls[0] !in ls[1..] && Distinct(ls[1..]))
  }

  ghost predicate Disjoint(a: seq<Ptr>, b: seq<Ptr>) {
    forall p :: p in a ==> p !in b
  }

  predicate HaveBufs(bufs: Bufs, ls: seq<Ptr>) {
    forall p :: p in ls ==> p in bufs
  }

  ghost function Content(bufs: Bufs, ls: seq<Ptr>): Bytes
    requires HaveBufs(bufs, ls)
  {
    if ls == [] then [] else bufs[ls[0]].data + Content(bufs, ls[1..])
  }

  predicate Eof(b: Buf) {
    b.lastBuf || b.lastInChain
  }

  predicate AnyEof(bufs: Bufs, ls: seq<Ptr>)
    requires HaveBufs(bufs, ls)
  {
    exists p :: p in ls && Eof(bufs[p])
  }

  predicate AnyFlush(bufs: Bufs, ls: seq<Ptr>)
    requires HaveBufs(bufs, ls)
  {
    exists p :: p in ls && bufs[p].flush
  }

  lemma {:induction false} PathFrame(next: Links, next': Links, p: Ptr, ls: seq<Ptr>, q: Ptr)
    requires Path(next, p, ls, q)
    requires forall x :: x in ls && x in next ==> x in next' && next'[x] == next[x]
    ensures Path(next', p, ls, q)
    decreases |ls|
  {
    if ls != [] { PathFrame(next, next', next[p], ls[1..], q); }
  }

  lemma {:induction false} PathJoin(next: Links, p: Ptr, a: seq<Ptr>, q: Ptr, b: seq<Ptr>, r: Ptr)
    requires Path(next, p, a, q) && Path(next, q, b, r)
    ensures Path(next, p, a + b, r)
    decreases |a|
  {
    if a == [] {
      assert a + b == b;
    } else {
      PathJoin(next, next[p], a[1..], q, b, r);
      assert (a + b)[1..] == a[1..] + b;
    }
  }

  /** Redirecting the last link of a path. */
  lemma {:induction false} PathRedirect(next: Links, p: Ptr, ls: seq<Ptr>, q: Ptr, q': Ptr)
    requires ls != [] && Path(next, p, ls, q) && Distinct(ls)
    ensures Path(next[ls[|ls| - 1] := q'], p, ls, q')
    decreases |ls|
  {
    var last := ls[|ls| - 1];
    if |ls| > 1 {
      assert ls[1..][|ls| - 2] == last;
      PathRedirect(next, next[p], ls[1..], q, q');
    } else {
      assert ls[1..] == [];
    }
  }

  lemma {:induction false} ContentFrame(bufs: Bufs, bufs': Bufs, ls: seq<Ptr>)
    requires HaveBufs(bufs, ls) && HaveBufs(bufs', ls)
    requires forall p :: p in ls ==> bufs'[p].data == bufs[p].data
    ensures Content(bufs', ls) == Content(bufs, ls)
  {
    if ls != [] { ContentFrame(bufs, bufs', ls[1..]); }
  }

  lemma {:induction false} ContentJoin(bufs: Bufs, a: seq<Ptr>, b: seq<Ptr>)
    requires HaveBufs(bufs, a) && HaveBufs(bufs, b)
    ensures HaveBufs(bufs, a + b) && Content(bufs, a + b) == Content(bufs, a) + Content(bufs, b)
  {
    hide Content, HaveBufs;
    BufsJoin(bufs, a, b);
    if a == [] {
      assert a + b == b;
      NoContent(bufs);
      assert [] + Content(bufs, b) == Content(bufs, b);
    } else {
      ContentJoin(bufs, a[1..], b);
      assert (a + b)[1..] == a[1..] + b && (a + b)[0] == a[0];
      ContentUnfolds(bufs, a);
      ContentUnfolds(bufs, a + b);
      Regroup(bufs[a[0]].data, Content(bufs, a[1..]), Content(bufs, b));
    }
  }

  lemma {:induction false} BufsJoin(bufs: Bufs, a: seq<Ptr>, b: seq<Ptr>)
    requires HaveBufs(bufs, a) && HaveBufs(bufs, b)
    ensures HaveBufs(bufs, a + b) && HaveBufs(bufs, []) && (a != [] ==> a[0] in bufs && HaveBufs(bufs, a[1..]))
  {
  }

  lemma {:induction false} ContentUnfolds(bufs: Bufs, ls: seq<Ptr>)
    requires HaveBufs(bufs, ls) && ls != []
    ensures ls[0] in bufs && HaveBufs(bufs, ls[1..])
    ensures Content(bufs, ls) == bufs[ls[0]].data + Content(bufs, ls[1..])
  {
  }

  lemma {:induction false} NoContent(bufs: Bufs)
    ensures HaveBufs(bufs, []) && Content(bufs, []) == []
  {
  }

  lemma {:induction false} Regroup(a: Bytes, b: Bytes, c: Bytes)
    ensures a + (b + c) == a + b + c
  {
  }

  // ---------------------------------------------------------------- clearing

  /** The buffer of a link, with `pos` bytes before it, when all from `offset` on is
      cleared. */
  function ClearBuf(b: Buf, pos: nat, offset: nat): (r: (Buf, nat))
    requires pos <= offset
    ensures pos <= r.1 <= offset
  {
    var n := |b.data|;
    var (d, pos') :=
      if offset != 0 && pos + n > offset then (b.data[..offset - pos], offset)
      else if pos == offset then ([], pos)
      else (b.data, pos + n);
    (b.(data := d, flush := false, lastBuf := false, lastInChain := false), pos')
  }

  function ClearFrom(bufs: Bufs, ls: seq<Ptr>, pos: nat, offset: nat): (r: (Bufs, nat))
    requires pos <= offset && forall p :: p in ls ==> p in bufs
    ensures pos <= r.1 <= offset && r.0.Keys == bufs.Keys
    decreases |ls|
  {
    if ls == [] then (bufs, pos)
    else
      var (b, pos') := ClearBuf(bufs[ls[0]], pos, offset);
      ClearFrom(bufs[ls[0] := b], ls[1..], pos', offset)
  }

  lemma {:induction false} ClearFrame(bufs: Bufs, ls: seq<Ptr>, pos: nat, offset: nat, p: Ptr)
    requires pos <= offset && HaveBufs(bufs, ls) && p in bufs && p !in ls
    ensures ClearFrom(bufs, ls, pos, offset).0[p] == bufs[p]
    decreases |ls|
  {
    if ls != [] {
      var (b, pos') := ClearBuf(bufs[ls[0]], pos, offset);
      ClearFrame(bufs[ls[0] := b], ls[1..], pos', offset, p);
    }
  }

  /** What clearing leaves of a link: neither its memory nor its tag change, and no flag
      remains. */
  ghost predicate Cleared(b: Buf, was: Buf) {
    && b.hasMem == was.hasMem && b.cap == was.cap && b.tag == was.tag
    && !b.flush && !Eof(b) && b.data <= was.data
  }

  lemma {:induction false} ClearOne(bufs: Bufs, ls: seq<Ptr>, pos: nat, offset: nat, p: Ptr)
    requires pos <= offset && HaveBufs(bufs, ls) && Distinct(ls) && p in ls
    ensures Cleared(ClearFrom(bufs, ls, pos, offset).0[p], bufs[p])
    decreases |ls|
  {
    var (b, pos') := ClearBuf(bufs[ls[0]], pos, offset);
    if p == ls[0] {
      ClearFrame(bufs[ls[0] := b], ls[1..], pos', offset, p);
    } else {
      ClearOne(bufs[ls[0] := b], ls[1..], pos', offset, p);
    }
  }

  lemma {:induction false} ClearHead(b: Buf, rest: Bytes, pos: nat, offset: nat)
    requires pos <= offset
    ensures var (b', pos') := ClearBuf(b, pos, offset);
            && b'.data + rest[..Min(offset - pos', |rest|)] == (b.data + rest)[..Min(offset - pos, |b.data + rest|)]
            && pos' + Min(offset - pos', |rest|) == pos + Min(offset - pos, |b.data + rest|)
  {
  }

  /** Clearing keeps exactly the bytes before the offset. */
  lemma {:induction false} ClearKeepsPrefix(bufs: Bufs, ls: seq<Ptr>, pos: nat, offset: nat)
    requires pos <= offset && HaveBufs(bufs, ls) && Distinct(ls)
    ensures var (bufs', end) := ClearFrom(bufs, ls, pos, offset);
            var old_ := Content(bufs, ls);
            && HaveBufs(bufs', ls)
            && Content(bufs', ls) == old_[..Min(offset - pos, |old_|)]
            && end == pos + Min(offset - pos, |old_|)
    decreases |ls|
  {
    if ls != [] {
      var (b, pos') := ClearBuf(bufs[ls[0]], pos, offset);
      var bufs1 := bufs[ls[0] := b];
      ContentFrame(bufs, bufs1, ls[1..]);
      ClearKeepsPrefix(bufs1, ls[1..], pos', offset);
      ClearFrame(bufs1, ls[1..], pos', offset, ls[0]);
      ClearHead(bufs[ls[0]], Content(bufs, ls[1..]), pos, offset);
    }
  }
}
