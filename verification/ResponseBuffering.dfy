/** Buffering of response bodies: incoming bytes are copied into a limited number of own
    buffers; once these are full, the remaining links are kept as they are. */
module ResponseBuffering {
  import opened Bytes
  import opened ResponseMarks

  class ResponseBuffers {
    const num: nat
    var bufs: seq<RespBuf>
    var hasLast: bool
    var count: nat

    constructor (num: nat)
      ensures this.num == num && Open() && bufs == []
    {
      this.num := num;
      bufs, hasLast, count := [], false, 0;
    }

    /** While buffering goes on, there are only own buffers. */
    ghost predicate Open()
      reads this
    {
      && OwnOk(bufs, count, num) && |bufs| == count && (hasLast <==> count > 0)
      && forall i :: 0 <= i < |bufs| ==> !bufs[i].eof
    }

    /** A new own buffer: `cap` is what was found for the configured size. */
    method AddBuf(cap: nat, ghost mark: int)
      requires Filling(false) && count < num && Marks(bufs, mark)
      modifies this
      ensures Filling(true) && Marks(bufs, mark) && count == old(count) + 1
      ensures Content(bufs) == old(Content(bufs)) && bufs == old(bufs) + [RespBuf([], cap, true, false)]
    {
      var b := RespBuf([], cap, true, false);
      ContentSnoc(bufs, b);
      MarksSnoc(bufs, b, mark);
      bufs := bufs + [b];
      hasLast := true;
      count := count + 1;
    }

    /** Copies `bytes` to the end of the last own buffer. */
    method CopyToLast(bytes: Bytes, eof: bool, ghost mark: int)
      requires OwnOk(bufs, count, num) && |bufs| == count > 0 && bytes != []
      requires |bufs[count - 1].data| + |bytes| <= bufs[count - 1].cap
      requires Marks(bufs, mark) && if eof then |Content(bufs)| >= mark else |Content(bufs)| + |bytes| <= mark
      modifies this`bufs
      ensures OwnOk(bufs, count, num) && |bufs| == count
      ensures Content(bufs) == old(Content(bufs)) + bytes
      ensures SameCaps(old(bufs), bufs)
      ensures |bufs[count - 1].data| == old(|bufs[count - 1].data|) + |bytes|
      ensures Marks(bufs, mark)
    {
      LastCopied(bufs, num, bytes, eof, mark);
      var b := bufs[count - 1];
      bufs := bufs[count - 1 := RespBuf(b.data + bytes, b.cap, true, eof)];
    }

    /** Copies as much of `bytes` as the last own buffer has room for. */
    method CopyPart(bytes: Bytes, eof: bool, ghost mark: int) returns (copy: nat, cl: bool)
      requires Filling(true) && Marks(bufs, mark) && bytes != []
      requires if eof then |Content(bufs)| >= mark else |Content(bufs)| + |bytes| <= mark
      modifies this`bufs
      ensures Filling(cl) && Marks(bufs, mark) && copy <= |bytes|
      ensures Content(bufs) == old(Content(bufs)) + bytes[..copy]
      ensures SameCaps(old(bufs), bufs)
      ensures copy == 0 ==> !cl
      ensures copy > 0 ==> bufs[count - 1].data != []
    {
      hide Content, Marks, SameCaps;
      AllSame(bufs);
      var avail := bufs[count - 1].cap - |bufs[count - 1].data|;
      copy := if |bytes| < avail then |bytes| else avail;
      if copy == 0 {
        return copy, false;
      }
      CopyToLast(bytes[..copy], eof, mark);
      cl := copy == |bytes|;
    }

    /** One turn of the copy loop, with `n` bytes of `data` left before and `left` after it:
        `open` and `cl` tell whether the last own buffer is still to be filled. */
    method CopySome(data: Bytes, n: nat, eof: bool, open: bool, caps: nat -> nat, allocOk: nat -> bool,
                    ghost was: Bytes, ghost mark: int, ghost own: seq<RespBuf>)
      returns (rc: Rc, left: nat, cl: bool)
      requires Filling(open) && Marks(bufs, mark) && CapsAre(bufs, own, caps) && 0 < n <= |data|
      requires Content(bufs) == was + data[..|data| - n]
      requires if eof then |was| >= mark else |was| + |data| <= mark
      modifies this
      ensures Filling(cl) && Marks(bufs, mark) && CapsAre(bufs, own, caps) && left <= n
      ensures Content(bufs) == was + data[..|data| - left]
      ensures rc == ERROR ==> !allocOk(count) && count < num && !cl && left == n
      ensures rc == DONE ==> count >= num && !cl && left == n
      ensures rc == OK && left == n ==> !cl && (count > old(count) || (open && count == old(count)))
      ensures left < n ==> count > 0 && bufs[count - 1].data != []
      ensures old(count) <= count
    {
      hide Content, Marks, AllFull, CapsAre, SameCaps, OwnOk;
      cl, left := open, n;
      if !cl {
        if count >= num {
          return DONE, left, cl;
        }
        if !allocOk(count) {
          return ERROR, left, cl;
        }
        CapsSnoc(bufs, own, caps);
        AddBuf(caps(count), mark);
      }
      var pos, copy := |data| - n, 0;
      ghost var before := bufs;
      copy, cl := CopyPart(data[pos..], eof, mark);
      CapsKept(before, bufs, own, caps);
      assert data[..pos + copy] == data[..pos] + data[pos..][..copy];
      assert was + data[..pos] + data[pos..][..copy] == was + (data[..pos] + data[pos..][..copy]);
      return OK, n - copy, cl;
    }

    /** Copies one link.  `cl` tells whether the last own buffer is still to be filled;
        `n` is the number of bytes left when all buffers are full. */
    method CopyLink(data: Bytes, eof: bool, open: bool, caps: nat -> nat, allocOk: nat -> bool, ghost mark: int,
                    ghost own: seq<RespBuf>)
      returns (rc: Rc, n: nat, cl: bool)
      requires Filling(open) && Marks(bufs, mark) && CapsAre(bufs, own, caps)
      requires if eof then |Content(bufs)| >= mark else |Content(bufs)| + |data| <= mark
      modifies this
      ensures Filling(cl) && Marks(bufs, mark) && n <= |data| && CapsAre(bufs, own, caps)
      ensures Content(bufs) == old(Content(bufs)) + data[..|data| - n]
      ensures rc == OK <==> n == 0
      ensures rc == ERROR ==> !allocOk(count) && count < num && AllFull(bufs, count)
      ensures rc == DONE ==> count == num && AllFull(bufs, count)
      ensures rc == OK && data != [] ==> count > 0 && bufs[count - 1].data != []
    {
      hide Content, Marks, AllFull, CapsAre, OwnOk;
      cl, n, rc := open, |data|, OK;
      ghost var was := Content(bufs);
      assert was + data[..0] == was;
      while n > 0
        invariant Filling(cl) && Marks(bufs, mark) && n <= |data| && CapsAre(bufs, own, caps) && rc == OK
        invariant Content(bufs) == was + data[..|data| - n]
        invariant n == 0 && data != [] ==> count > 0 && bufs[count - 1].data != []
        decreases n, num - count, cl
      {
        OpenSize(bufs, count, num);
        rc, n, cl := CopySome(data, n, eof, cl, caps, allocOk, was, mark, own);
        OpenSize(bufs, count, num);
        if rc != OK {
          return;
        }
      }
    }

    /** Links the rest of the incoming chain behind the full buffers: empty links are
        skipped, but those after the last non-empty one stay linked. */
    method KeepRest(rest: seq<Link>)
      requires OwnOk(bufs, count, num) && count > 0
      modifies this`bufs
      ensures OwnOk(bufs, count, num) && bufs[..count] == old(bufs)[..count]
      ensures Content(bufs) == old(Content(bufs)) + Incoming(rest)
      ensures rest != [] && rest[|rest| - 1].eof ==> bufs[|bufs| - 1].eof
    {
      hide Content, Incoming;
      ghost var was := Content(bufs);
      var own := bufs[..count];
      var linked, trail := bufs, [];
      ContentEmpty(linked);
      NothingIncoming(rest);
      for i := 0 to |rest|
        invariant OwnOk(linked, count, num) && linked[..count] == own
        invariant AllForeign(trail)
        invariant was + Incoming(rest) == Content(linked) + Incoming(rest[i..])
        invariant Content(linked + trail) == Content(linked)
        invariant i > 0 && rest[i - 1].eof ==> |linked + trail| > 0 && (linked + trail)[|linked + trail| - 1].eof
      {
        IncomingStep(rest, i);
        var b := Foreign(rest[i]);
        if rest[i].data != [] {
          ContentSnoc(linked, b);
          assert Content(linked) + rest[i].data + Incoming(rest[i + 1..])
              == Content(linked) + (rest[i].data + Incoming(rest[i + 1..]));
          linked, trail := linked + [b], [];
          ContentEmpty(linked);
        } else {
          ContentSnoc(linked + trail, b);
          assert linked + trail + [b] == linked + (trail + [b]);
          trail := trail + [b];
        }
      }
      assert rest[|rest|..] == [];
      NothingIncoming([]);
      bufs := linked + trail;
    }

    /** All own buffers are full, with `n` bytes of link `l` left. */
    method KeepLeft(l: Link, n: nat, rest: seq<Link>, ghost was: Bytes)
      requires Filling(false) && n <= |l.data| && Content(bufs) == was + l.data[..|l.data| - n]
      modifies this`bufs
      ensures OwnOk(bufs, count, num) && bufs[..count] == old(bufs)[..count] && AllFull(bufs, count)
      ensures count == 0 ==> bufs == old(bufs)
      ensures count <= |bufs|
      ensures count > 0 ==> Content(bufs) == was + (l.data + Incoming(rest))
      ensures count > 0 && (if rest == [] then l.eof else rest[|rest| - 1].eof) ==> bufs[|bufs| - 1].eof
    {
      hide Content, Incoming, AllFull;
      if hasLast {
        var left := Link(l.data[|l.data| - n..], l.eof);
        IncomingCons(left, rest);
        Regroup(was, l.data[..|l.data| - n], left.data, Incoming(rest));
        assert l.data == l.data[..|l.data| - n] + left.data;
        ghost var own := bufs;
        KeepRest([left] + rest);
        FullFrame(own, bufs, count);
      }
    }

    /** Keeps an empty link that ends the stream. */
    method EndLink(l: Link)
      requires OwnOk(bufs, count, num) && |bufs| == count && l.data == [] && l.eof
      modifies this
      ensures OwnOk(bufs, count, num) && bufs[..count] == old(bufs) && count == old(count)
      ensures Content(bufs) == old(Content(bufs)) && bufs != [] && bufs[|bufs| - 1].eof
    {
      ContentSnoc(bufs, Foreign(l));
      if bufs == [] {
        bufs := [Foreign(l)];
      } else {
        bufs := bufs + [Foreign(l)];
        hasLast := true;
      }
    }

    /** What buffering promises, for old buffers `own` with content `base`, and incoming
        links `ls`: bytes are conserved; the own buffers hold all of them, or they are all
        full, and then either there are as many as there may be, or memory for another one
        was refused; the end of the stream is kept, and the own buffers marked with it are
        those that hold bytes of the ending link. */
    ghost predicate Buffered(rc: Rc, base: Bytes, own: seq<RespBuf>, caps: nat -> nat, ls: seq<Link>)
      reads this
    {
      && OwnOk(bufs, count, num) && Marks(bufs[..count], MarkOf(|base|, ls)) && CapsAre(bufs[..count], own, caps)
      && (rc == OK ==> Content(bufs) == Content(bufs[..count]) == base + Incoming(ls))
      && (rc == ERROR ==> count < num && |bufs| == count && AllFull(bufs, count)
                          && Content(bufs) < base + Incoming(ls))
      && (rc == DONE ==> count == num && AllFull(bufs, count)
                         && (Content(bufs) == base + Incoming(ls) <==> num > 0)
                         && |Content(bufs[..count])| < |base + Incoming(ls)|)
      && (rc == OK || (rc == DONE && num > 0) ==> Ends(ls) ==> EofLast(bufs))
      && (rc == OK && Ends(ls) && ls[|ls| - 1].data != [] ==> |bufs| == count && bufs[|bufs| - 1].data != [])
    }

    /** Before link `i`: the content so far and the links to come make the whole. */
    ghost predicate Midway(cl: bool, base: Bytes, own: seq<RespBuf>, caps: nat -> nat, ls: seq<Link>, i: nat)
      requires i <= |ls|
      reads this
    {
      && Filling(cl) && Marks(bufs, MarkOf(|base|, ls)) && CapsAre(bufs, own, caps)
      && Content(bufs) + Incoming(ls[i..]) == base + Incoming(ls)
    }

    lemma Ending(base: Bytes, own: seq<RespBuf>, caps: nat -> nat, ls: seq<Link>, cl: bool)
      requires Midway(cl, base, own, caps, ls, |ls|)
      requires Ends(ls) ==> EofLast(bufs) && bufs[|bufs| - 1].data != []
      ensures Buffered(OK, base, own, caps, ls)
      ensures !Ends(ls) ==> Open()
    {
      hide Incoming, CapsAre;
      assert bufs[..count] == bufs && ls[|ls|..] == [];
      NothingIncoming(ls);
      assert Content(bufs) + [] == Content(bufs);
      MarkBounds(|base|, ls);
      if !Ends(ls) { NoMarks(bufs, MarkOf(|base|, ls)); }
    }

    /** One empty link that ends the stream. */
    method TakeEnd(ls: seq<Link>, i: nat, ghost cl: bool, ghost base: Bytes, ghost own: seq<RespBuf>,
                   ghost caps: nat -> nat)
      requires i < |ls| && EndsLast(ls) && Midway(cl, base, own, caps, ls, i)
      requires ls[i].data == [] && ls[i].eof
      modifies this
      ensures Buffered(OK, base, own, caps, ls)
    {
      hide Incoming, Content, Marks, MarkOf, CapsAre;
      IncomingStep(ls, i);
      NothingIncoming(ls);
      assert i == |ls| - 1 && ls[i + 1..] == [] && bufs[..count] == bufs;
      EndLink(ls[i]);
    }

    lemma Stepped(ls: seq<Link>, i: nat, was: Bytes, n: nat, base: Bytes)
      requires i < |ls| && n <= |ls[i].data|
      requires was + Incoming(ls[i..]) == base + Incoming(ls)
      requires Content(bufs) == was + ls[i].data[..|ls[i].data| - n]
      ensures n == 0 ==> Content(bufs) + Incoming(ls[i + 1..]) == base + Incoming(ls)
      ensures n > 0 ==> Content(bufs) < base + Incoming(ls)
      ensures was + (ls[i].data + Incoming(ls[i + 1..])) == base + Incoming(ls)
      ensures n > 0 ==> |Content(bufs)| < |base + Incoming(ls)|
    {
      hide Incoming, Content;
      IncomingStep(ls, i);
      var d, rest := ls[i].data, Incoming(ls[i + 1..]);
      assert |base + Incoming(ls)| == |was| + |d| + |rest|;
      if n == 0 {
        assert d[..|d|] == d;
        assert was + d + rest == was + (d + rest);
      }
    }

    /** Any other link; buffering is over unless all of it was copied. */
    method TakeLink(ls: seq<Link>, i: nat, open: bool, caps: nat -> nat, allocOk: nat -> bool, ghost base: Bytes,
                    ghost own: seq<RespBuf>)
      returns (rc: Rc, cl: bool)
      requires i < |ls| && EndsLast(ls) && Midway(open, base, own, caps, ls, i)
      requires ls[i].data != [] || !ls[i].eof
      modifies this
      ensures rc == OK ==> Midway(cl, base, own, caps, ls, i + 1)
      ensures rc == OK && ls[i].eof ==> EofLast(bufs) && bufs[|bufs| - 1].data != []
      ensures rc != OK ==> Buffered(rc, base, own, caps, ls)
      ensures rc == ERROR ==> !allocOk(count)
    {
      hide Incoming, Content, Marks, MarkOf, OwnOk, AllFull, CapsAre;
      ghost var mark, was := MarkOf(|base|, ls), Content(bufs);
      BeforeMark(|base|, ls, i, |was|);
      var n;
      rc, n, cl := CopyLink(ls[i].data, ls[i].eof, open, caps, allocOk, mark, own);
      Stepped(ls, i, was, n, base);
      IncomingStep(ls, i);
      assert bufs[..count] == bufs;
      if rc == OK && ls[i].eof {
        EndMarked(bufs, mark);
      }
      if rc == DONE {
        assert ls[i + 1..] != [] ==> ls[i + 1..][|ls| - i - 2] == ls[|ls| - 1];
        KeepLeft(ls[i], n, ls[i + 1..], was);
      }
    }

    /** Buffers the incoming chain, link after link. */
    method BufferLinks(ls: seq<Link>, caps: nat -> nat, allocOk: nat -> bool, ghost base: Bytes,
                       ghost own: seq<RespBuf>)
      returns (rc: Rc)
      requires Open() && EndsLast(ls) && own == bufs && base == Content(bufs)
      modifies this
      ensures Buffered(rc, base, own, caps, ls)
      ensures rc == OK && !Ends(ls) ==> Open()
      ensures rc == ERROR ==> !allocOk(count)
    {
      hide Incoming, Content, Marks, MarkOf, OwnOk, AllFull, CapsAre;
      MarkBounds(|base|, ls);
      NoMarks(bufs, MarkOf(|base|, ls));
      NothingIncoming(ls);
      FillingStarts(bufs, count);
      CapsStart(bufs, caps);
      var cl := hasLast;
      for i := 0 to |ls|
        invariant Midway(cl, base, own, caps, ls, i)
        invariant i > 0 && ls[i - 1].eof ==> EofLast(bufs) && bufs[|bufs| - 1].data != []
      {
        if ls[i].data == [] && ls[i].eof {
          TakeEnd(ls, i, cl, base, own, caps);
          return OK;
        }
        rc, cl := TakeLink(ls, i, cl, caps, allocOk, base, own);
        if rc != OK {
          return;
        }
      }
      Ending(base, own, caps, ls, cl);
      rc := OK;
    }

    /** Buffers the incoming chain.  `caps` and `allocOk` tell what memory is found for
        each new buffer.  An own buffer before the last one is marked as the end of the
        stream if and only if the ending link starts in an own buffer and does not fit
        the room that is left there. */
    method BufferBody(ls: seq<Link>, caps: nat -> nat, allocOk: nat -> bool) returns (rc: Rc)
      requires Open() && EndsLast(ls)
      modifies this
      ensures Buffered(rc, old(Content(bufs)), old(bufs), caps, ls)
      ensures rc == OK && !Ends(ls) ==> Open()
      ensures rc == ERROR ==> !allocOk(count)
      ensures rc != ERROR && Ends(ls) && ls[|ls| - 1].data != [] ==>
        (EarlyMarked(bufs, count) <==>
         0 < StartRoom(caps, num, old(count), RoomLeft(old(bufs)), LengthBefore(ls)) < |ls[|ls| - 1].data|)
    {
      hide Incoming, Content, Marks, MarkOf, OwnOk, AllFull, CapsAre;
      ghost var own, base := bufs, Content(bufs);
      OpenSize(bufs, count, num);
      rc := BufferLinks(ls, caps, allocOk, base, own);
      if rc != ERROR && Ends(ls) && ls[|ls| - 1].data != [] {
        EarlyIff(bufs, count, num, own, caps, ls, rc);
      }
    }

    /** Only own buffers so far, and all are full unless the last is being filled. */
    ghost predicate Filling(cl: bool)
      reads this
    {
      && OwnOk(bufs, count, num) && |bufs| == count && (hasLast <==> count > 0)
      && (cl ==> count > 0) && (!cl ==> AllFull(bufs, count))
    }
  }

  /** Such a case: two buffers of one byte, and a link of two bytes that ends the stream. */
  method EarlyMarkExample() returns (r: ResponseBuffers)
    ensures EarlyMarked(r.bufs, r.count)
  {
    r := new ResponseBuffers(2);
    var l := Link([1, 2], true);
    assert Incoming([l]) == l.data + Incoming([]) by { assert [l][1..] == []; }
    assert StartRoom(_ => 1, 2, 0, 0, 0) == StartRoom(_ => 1, 2, 1, 1, 0) == 1;
    var rc := r.BufferBody([l], _ => 1, _ => true);
  }
}
