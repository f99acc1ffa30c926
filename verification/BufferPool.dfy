/** Buffer chains as they are updated in place, and the body of a request. */
module BufferPool {
  import opened Bytes
  import opened BufferChain
  import opened BufferAppend
  import opened BufferOps

  lemma {:induction false} AnyCons(bufs: Bufs, ls: seq<Ptr>)
    requires ls != [] && HaveBufs(bufs, ls)
    ensures AnyEof(bufs, ls) <==> Eof(bufs[ls[0]]) || AnyEof(bufs, ls[1..])
    ensures AnyFlush(bufs, ls) <==> bufs[ls[0]].flush || AnyFlush(bufs, ls[1..])
  {
    assert ls == [ls[0]] + ls[1..];
    assert AnyEof(bufs, ls[1..]) ==> AnyEof(bufs, ls) by {
      if AnyEof(bufs, ls[1..]) {
        var p :| p in ls[1..] && Eof(bufs[p]);
        assert p in ls;
      }
    }
    assert AnyFlush(bufs, ls[1..]) ==> AnyFlush(bufs, ls) by {
      if AnyFlush(bufs, ls[1..]) {
        var p :| p in ls[1..] && bufs[p].flush;
        assert p in ls;
      }
    }
  }

  /** What is left of a clear, at some point of its loop. */
  ghost predicate Clearing(was: Bufs, all: seq<Ptr>, offset: nat, bufs: Bufs, rest: seq<Ptr>, pos: nat,
                           eof: bool, flush: bool) {
    && HaveBufs(was, all) && HaveBufs(bufs, rest) && pos <= offset && Distinct(rest)
    && ClearFrom(was, all, 0, offset) == ClearFrom(bufs, rest, pos, offset)
    && (AnyEof(was, all) <==> eof || AnyEof(bufs, rest))
    && (AnyFlush(was, all) <==> flush || AnyFlush(bufs, rest))
  }

  lemma {:induction false} ClearingStep(was: Bufs, all: seq<Ptr>, offset: nat, bufs: Bufs, rest: seq<Ptr>, pos: nat,
                                        eof: bool, flush: bool)
    requires rest != [] && Clearing(was, all, offset, bufs, rest, pos, eof, flush)
    ensures var (b, pos') := ClearBuf(bufs[rest[0]], pos, offset);
            Clearing(was, all, offset, bufs[rest[0] := b], rest[1..], pos',
                     eof || Eof(bufs[rest[0]]), flush || bufs[rest[0]].flush)
  {
    AnyCons(bufs, rest);
    var (b, pos') := ClearBuf(bufs[rest[0]], pos, offset);
    var bufs' := bufs[rest[0] := b];
    assert forall p :: p in rest[1..] ==> bufs'[p] == bufs[p];
  }

  class Pool {
    var next: Links
    var bufs: Bufs

    method ChainLength(first: Ptr, ghost ls: seq<Ptr>) returns (len: nat, eof: bool)
      requires Path(next, first, ls, NULL) && HaveBufs(bufs, ls)
      ensures len == ChainLen(bufs, ls) && (eof <==> AnyEof(bufs, ls))
    {
      len, eof := 0, false;
      var cl := first;
      ghost var rest := ls;
      while cl != NULL
        invariant Path(next, cl, rest, NULL) && HaveBufs(bufs, rest)
        invariant ChainLen(bufs, ls) == len + ChainLen(bufs, rest)
        invariant AnyEof(bufs, ls) <==> AnyEof(bufs, rest)
        decreases |rest|
      {
        AnyCons(bufs, rest);
        len := len + |bufs[cl].data|;
        if Eof(bufs[cl]) {
          eof := true;
          return;
        }
        cl := next[cl];
        rest := rest[1..];
      }
    }

    method ChainClear(first: Ptr, offset: nat, ghost ls: seq<Ptr>, ghost was: Bufs)
      returns (fill: nat, eof: bool, flush: bool)
      requires Path(next, first, ls, NULL) && HaveBufs(bufs, ls) && Distinct(ls) && bufs == was
      modifies this`bufs
      ensures (bufs, offset - fill) == ClearFrom(was, ls, 0, offset)
      ensures (eof <==> AnyEof(was, ls)) && (flush <==> AnyFlush(was, ls))
    {
      hide ClearFrom, ClearBuf;
      var pos: nat := 0;
      eof, flush := false, false;
      var cl := first;
      ghost var rest := ls;
      while cl != NULL
        invariant Path(next, cl, rest, NULL)
        invariant Clearing(was, ls, offset, bufs, rest, pos, eof, flush)
        decreases |rest|
      {
        ClearingStep(was, ls, offset, bufs, rest, pos, eof, flush);
        var b := bufs[cl];
        if Eof(b) {
          eof := true;
        }
        if b.flush {
          flush := true;
        }
        pos := ClearOneBuf(cl, pos, offset);
        cl := next[cl];
        rest := rest[1..];
      }
      ClearNothing(bufs, pos, offset);
      fill := if pos < offset then offset - pos else 0;
    }

    method ClearOneBuf(cl: Ptr, pos: nat, offset: nat) returns (end: nat)
      requires cl in bufs && pos <= offset
      modifies this`bufs
      ensures bufs == old(bufs)[cl := ClearBuf(old(bufs)[cl], pos, offset).0]
      ensures end == ClearBuf(old(bufs)[cl], pos, offset).1
    {
      var b := bufs[cl];
      var len := |b.data|;
      end := pos;
      if offset != 0 && pos + len > offset {
        var n := len - ((pos + len) - offset);
        end := pos + n;
        b := b.(data := b.data[..n]);
      } else if pos == offset {
        b := b.(data := []);
      } else {
        end := pos + len;
      }
      bufs := bufs[cl := b.(flush := false, lastBuf := false, lastInChain := false)];
    }

    method GetFreeBuf(free: Ptr, len: nat, tag: nat, reuse: bool, alloc: Ptr, memOk: bool,
                      ghost n: Links, ghost b: Bufs)
      returns (cl: Ptr, free': Ptr)
      requires next == n && bufs == b
      requires free != NULL ==> free in next && free in bufs
      modifies this
      ensures cl != NULL ==> cl in next && cl in bufs
      ensures Got(cl, next, bufs, free') == GetFree(n, b, free, len, tag, reuse, alloc, memOk)
    {
      free' := free;
      if reuse && free != NULL {
        cl := free;
        free' := next[cl];
        next := next[cl := NULL];
        var buf := bufs[cl];
        if buf.hasMem && buf.cap >= len {
          bufs := bufs[cl := EmptyBuf(true, buf.cap, tag)];
          return;
        }
        bufs := bufs[cl := EmptyBuf(false, 0, 0)];
        if len == 0 {
          return;
        }
        if !memOk {
          return NULL, free';
        }
        bufs := bufs[cl := EmptyBuf(true, len, tag)];
        return;
      }
      if alloc == NULL || !memOk {
        return NULL, free';
      }
      cl := alloc;
      next := next[cl := NULL];
      bufs := bufs[cl := EmptyBuf(len > 0, len, tag)];
    }

    /** The loop of append: drops empty links and finds the last other one. */
    method FindTail(first: Ptr, free: Ptr, tag: nat, ghost ls: seq<Ptr>, ghost n: Links)
      returns (ll: Ptr, free': Ptr)
      requires next == n && Path(n, first, ls, NULL) && Distinct(ls)
      requires forall p :: p in ls ==> p in bufs && p in n
      modifies this`next
      ensures Scan(next, ll, free') == ScanTail(n, bufs, ls, NULL, free, tag)
      ensures next.Keys == n.Keys
    {
      ll, free' := NULL, free;
      var cl := first;
      ghost var rest := ls;
      while cl != NULL
        invariant next.Keys == n.Keys
        invariant Visiting(next, bufs, cl, rest, ll)
        invariant ScanTail(n, bufs, ls, NULL, free, tag) == ScanTail(next, bufs, rest, ll, free', tag)
        decreases |rest|
      {
        ghost var s := Scan(next, ll, free');
        VisitingStep(next, bufs, cl, rest, ll, free', tag);
        if bufs[cl].data != [] {
          ll := cl;
          cl := next[cl];
        } else if bufs[cl].tag != tag {
          if ll == NULL {
            return;
          }
          next := next[ll := next[cl]];
          cl := next[ll];
        } else {
          var nl := cl;
          cl := next[cl];
          next := next[nl := free'];
          if free' != NULL {
            free' := nl;
          }
        }
        rest := rest[1..];
      }
    }

    method AppendTo(first: Ptr, at: nat, str: Bytes, free: Ptr, tag: nat, alloc: Ptr, memOk: bool,
                    ghost ls: seq<Ptr>, ghost n: Links, ghost b: Bufs)
      returns (ok: bool, first': Ptr, free': Ptr)
      requires next == n && bufs == b && Path(n, first, ls, NULL) && Distinct(ls)
      requires Ready(n, b, ls, at, free, tag)
      modifies this
      ensures Chains(ok, next, bufs, first', free') == Append(n, b, first, ls, at, str, free, tag, alloc, memOk)
    {
      hide ScanTail, GetFree, ClearFrom, Path;
      var fill, eof, flush := ChainClear(first, at, ls, b);
      first' := first;
      var ll;
      ll, free' := FindTail(first, free, tag, ls, n);
      var nl;
      nl, free' := GetFreeBuf(free', |str|, tag, true, alloc, memOk, next, bufs);
      if nl == NULL {
        return false, first', free';
      }
      var buf := bufs[nl].(data := str);
      bufs := bufs[nl := buf.(flush := flush, lastBuf := eof, lastInChain := eof)];
      if ll != NULL {
        next := next[ll := nl];
      } else {
        first' := nl;
      }
      ok := true;
    }

    method PrependTo(first: Ptr, str: Bytes, free: Ptr, tag: nat, alloc: Ptr, memOk: bool,
                     ghost n: Links, ghost b: Bufs)
      returns (ok: bool, first': Ptr, free': Ptr)
      requires next == n && bufs == b
      requires free != NULL ==> free in next && free in bufs
      modifies this
      ensures Chains(ok, next, bufs, first', free') == Prepend(n, b, first, str, free, tag, alloc, memOk)
    {
      hide GetFree;
      var nl;
      nl, free' := GetFreeBuf(free, |str|, tag, true, alloc, memOk, n, b);
      if nl == NULL {
        return false, first, free';
      }
      bufs := bufs[nl := bufs[nl].(data := str)];
      next := next[nl := first];
      return true, nl, free';
    }
  }

  datatype Rc = OK | ERROR | ABORT

  /** The body of a request: a chain, the module's free links and the content length. */
  class RequestBody {
    const pool: Pool
    const tag: nat
    var first: Ptr
    var free: Ptr
    var contentLength: nat
    var enteredHeaderFilter: bool
    ghost var ls: seq<Ptr>
    ghost var fs: seq<Ptr>

    constructor (pool: Pool, tag: nat)
      ensures Valid() && this.pool == pool && this.tag == tag && ls == []
    {
      this.pool, this.tag := pool, tag;
      first, free, contentLength, enteredHeaderFilter := NULL, NULL, 0, false;
      ls, fs := [], [];
    }

    ghost predicate Valid()
      reads this, pool
    {
      ChainOk(pool.next, pool.bufs, first, ls, free, fs)
    }

    ghost function Body(): Bytes
      requires Valid()
      reads this, pool
    {
      Content(pool.bufs, ls)
    }

    /** No bytes are lost by an append at `at`. */
    ghost predicate MayAppend(at: nat)
      requires Valid()
      reads this, pool
    {
      Good(ClearFrom(pool.bufs, ls, 0, at).0, ls, tag, false, true)
    }

    /** The links that hold bytes before `at`, which the allocator does not hand out. */
    ghost function InUse(at: nat): seq<Ptr>
      requires Valid()
      reads this, pool
    {
      NonEmpty(ClearFrom(pool.bufs, ls, 0, at).0, ls)
    }

    /** The free links once the body is cleared from `at` on. */
    ghost function FreeLinks(at: nat): seq<Ptr>
      requires Valid()
      reads this, pool
    {
      FreeAfter(fs, Freed(ClearFrom(pool.bufs, ls, 0, at).0, ls, tag, false))
    }

    /** Replaces the body from `at` on by at most `max` bytes of `body`.  When no memory is
        found, the bytes before `at` are left, in links `kept`, and the content length is
        as before. */
    method SetReqBody(body: Bytes, at: nat, max: nat, hasBody: bool, alloc: Ptr, memOk: bool)
      returns (rc: Rc, ghost kept: seq<Ptr>, ghost stop: Ptr)
      requires Valid() && NotInUse(alloc, InUse(at)) && MayAppend(at)
      modifies this, pool
      ensures rc == ABORT <==> old(enteredHeaderFilter)
      ensures rc == OK <==> !old(enteredHeaderFilter) && hasBody
                            && old(MayTake(pool.bufs, FreeLinks(at), Min(|body|, max), alloc, memOk))
      ensures rc == OK ==>
        && Valid() && contentLength == |Body()|
        && Body() == old(Body())[..Min(at, |old(Body())|)] + body[..Min(|body|, max)]
      ensures rc == ERROR && hasBody ==>
        && contentLength == old(contentLength)
        && Kept(pool.next, pool.bufs, first, kept, stop, old(Body())[..Min(at, |old(Body())|)])
      ensures rc == ABORT || !hasBody ==> Valid() && Body() == old(Body()) && contentLength == old(contentLength)
    {
      hide Content, Good, Listed, Append, Path, ClearFrom, FlagsOnLast, ChainLen, Kept, FreeAfter, Freed, MayTake;
      kept, stop := [], NULL;
      if enteredHeaderFilter {
        rc := ABORT;
        return;
      }
      if !hasBody {
        rc := ERROR;
        return;
      }
      var str := body[..Min(|body|, max)];
      ghost var n, b := pool.next, pool.bufs;
      ghost var ls', fs' := AppendSpec(n, b, first, ls, at, str, free, fs, tag, alloc, memOk);
      AppendOkIff(n, b, first, ls, at, str, free, fs, tag, alloc, memOk);
      kept, stop := AppendFails(n, b, first, ls, at, str, free, fs, tag, alloc, memOk);
      ChainPath(n, b, first, ls, free, fs);
      var ok, first', free' := pool.AppendTo(first, at, str, free, tag, alloc, memOk, ls, n, b);
      first, free := first', free';
      if !ok {
        rc := ERROR;
        return;
      }
      ls, fs := ls', fs';
      ChainPath(pool.next, pool.bufs, first, ls, free, fs);
      LengthAfter(pool.bufs, ls, AnyEof(b, old(ls)), AnyFlush(b, old(ls)));
      var len, eof := pool.ChainLength(first, ls);
      contentLength := len;
      rc := OK;
    }

    /** Puts `body` before the body.  When no memory is found, nothing changes but that a
        free link may be lost. */
    method PrependReqBody(body: Bytes, hasBody: bool, alloc: Ptr, memOk: bool) returns (rc: Rc)
      requires Valid() && NotInUse(alloc, ls)
      modifies this, pool
      ensures Valid()
      ensures rc == ABORT <==> old(enteredHeaderFilter)
      ensures rc == OK <==> !old(enteredHeaderFilter) && hasBody && old(MayTake(pool.bufs, fs, |body|, alloc, memOk))
      ensures rc == OK ==>
        && Body() == body + old(Body())
        && contentLength == |body| + ChainLen(old(pool.bufs), old(ls))
      ensures rc != OK ==> Body() == old(Body()) && contentLength == old(contentLength) && ls == old(ls)
    {
      hide Content, Listed, Prepend, Path, ChainLen, MayTake;
      if enteredHeaderFilter {
        return ABORT;
      }
      if !hasBody {
        return ERROR;
      }
      ghost var n, b := pool.next, pool.bufs;
      ChainPath(n, b, first, ls, free, fs);
      ghost var fs' := PrependSpec(n, b, first, ls, body, free, fs, tag, alloc, memOk);
      PrependOkIff(n, b, first, ls, body, free, fs, tag, alloc, memOk);
      ghost var fs1 := PrependFails(n, b, first, ls, body, free, fs, tag, alloc, memOk);
      var ok, first', free' := pool.PrependTo(first, body, free, tag, alloc, memOk, n, b);
      first, free := first', free';
      if !ok {
        fs := fs1;
        return ERROR;
      }
      ghost var ls0 := ls;
      ls, fs := [first] + ls0, fs';
      ChainPath(pool.next, pool.bufs, first, ls, free, fs);
      LengthOfPrepended(b, pool.bufs, first, ls0, body);
      var len, eof := pool.ChainLength(first, ls);
      contentLength := len;
      return OK;
    }
  }

  lemma {:induction false} ChainPath(next: Links, bufs: Bufs, first: Ptr, ls: seq<Ptr>, free: Ptr, fs: seq<Ptr>)
    requires ChainOk(next, bufs, first, ls, free, fs)
    ensures Path(next, first, ls, NULL) && Distinct(ls) && HaveBufs(bufs, ls)
  {
  }

  lemma {:induction false} LengthAfter(bufs: Bufs, ls: seq<Ptr>, eof: bool, flush: bool)
    requires HaveBufs(bufs, ls) && Distinct(ls) && FlagsOnLast(bufs, ls, eof, flush)
    ensures ChainLen(bufs, ls) == |Content(bufs, ls)|
  {
    FlagsOnLastLen(bufs, ls);
  }

  lemma {:induction false} LengthFrame(bufs: Bufs, bufs': Bufs, ls: seq<Ptr>)
    requires HaveBufs(bufs, ls) && HaveBufs(bufs', ls)
    requires forall p :: p in ls ==> bufs'[p] == bufs[p]
    ensures ChainLen(bufs', ls) == ChainLen(bufs, ls)
  {
    if ls != [] { LengthFrame(bufs, bufs', ls[1..]); }
  }

  lemma {:induction false} LengthOfPrepended(bufs: Bufs, bufs': Bufs, nl: Ptr, ls: seq<Ptr>, str: Bytes)
    requires HaveBufs(bufs, ls) && HaveBufs(bufs', [nl] + ls)
    requires forall p :: p in ls ==> bufs'[p] == bufs[p]
    requires bufs'[nl].data == str && !Eof(bufs'[nl])
    ensures ChainLen(bufs', [nl] + ls) == |str| + ChainLen(bufs, ls)
  {
    LengthFrame(bufs, bufs', ls);
    assert ([nl] + ls)[1..] == ls;
  }

  lemma {:induction false} ClearNothing(bufs: Bufs, pos: nat, offset: nat)
    requires pos <= offset
    ensures ClearFrom(bufs, [], pos, offset) == (bufs, pos)
  {
  }

  /** In the loop that searches the tail. */
  ghost predicate Visiting(next: Links, bufs: Bufs, cl: Ptr, rest: seq<Ptr>, ll: Ptr) {
    && Path(next, cl, rest, NULL) && Distinct(rest) && (ll != NULL ==> ll !in rest && ll in next)
    && forall p :: p in rest ==> p in bufs && p in next
  }

  lemma {:induction false} VisitingStep(next: Links, bufs: Bufs, cl: Ptr, rest: seq<Ptr>, ll: Ptr, free: Ptr, tag: nat)
    requires cl != NULL && Visiting(next, bufs, cl, rest, ll)
    ensures rest != [] && cl == rest[0] && cl in bufs && cl in next
    ensures !Stops(bufs, cl, ll, tag) ==>
            var s := Visit(next, bufs, cl, ll, free, tag);
            Visiting(s.next, bufs, next[cl], rest[1..], s.ll) && s.next.Keys == next.Keys
  {
    PathHead(next, cl, rest);
    if !Stops(bufs, cl, ll, tag) {
      var s := Visit(next, bufs, cl, ll, free, tag);
      PathFrame(next, s.next, next[cl], rest[1..], NULL);
    }
  }
}
