/** Response bodies in buffers: the bytes they hold, and which of them are marked as the end
    of the stream. */
module ResponseMarks {
  import opened Bytes

  /** A link of the incoming chain.  `eof` tells that it ends the stream. */
  datatype Link = Link(data: Bytes, eof: bool)

  /** A buffer of the response: `own` ones have a capacity. */
  datatype RespBuf = RespBuf(data: Bytes, cap: nat, own: bool, eof: bool)

  datatype Rc = OK | DONE | ERROR

  ghost function Content(bs: seq<RespBuf>): Bytes {
    if bs == [] then [] else Content(bs[..|bs| - 1]) + bs[|bs| - 1].data
  }

  /** The bytes of the incoming chain. */
  ghost function Incoming(ls: seq<Link>): Bytes {
    if ls == [] then [] else ls[0].data + Incoming(ls[1..])
  }

  /** Only the last link may end the stream. */
  ghost predicate EndsLast(ls: seq<Link>) {
    forall i :: 0 <= i < |ls| - 1 ==> !ls[i].eof
  }

  ghost predicate Ends(ls: seq<Link>) {
    ls != [] && ls[|ls| - 1].eof
  }

  ghost predicate EofLast(bs: seq<RespBuf>) {
    bs != [] && bs[|bs| - 1].eof
  }

  predicate Full(b: RespBuf) {
    |b.data| == b.cap
  }

  /** Own buffers come first, and all of them but the last are full. */
  ghost predicate OwnOk(bs: seq<RespBuf>, count: nat, num: nat) {
    && count <= |bs| && count <= num
    && (forall i :: 0 <= i < |bs| ==> (bs[i].own <==> i < count))
    && (forall i :: 0 <= i < count ==> |bs[i].data| <= bs[i].cap)
    && (forall i :: 0 <= i < count - 1 ==> Full(bs[i]))
  }

  ghost predicate AllFull(bs: seq<RespBuf>, count: nat)
    requires count <= |bs|
  {
    forall i :: 0 <= i < count ==> Full(bs[i])
  }

  /** Which buffers are marked as ending the stream: those that hold a byte after `mark`. */
  ghost predicate Marks(bs: seq<RespBuf>, mark: int) {
    forall i :: 0 <= i < |bs| ==> (bs[i].eof <==> Past(bs, i, mark))
  }

  ghost predicate Past(bs: seq<RespBuf>, i: nat, mark: int)
    requires i < |bs|
  {
    bs[i].data != [] && |Content(bs[..i + 1])| > mark
  }

  lemma {:induction false} ContentSnoc(bs: seq<RespBuf>, b: RespBuf)
    ensures Content(bs + [b]) == Content(bs) + b.data
  {
    assert (bs + [b])[..|bs|] == bs;
  }

  lemma {:induction false} MarksSnoc(bs: seq<RespBuf>, b: RespBuf, mark: int)
    requires Marks(bs, mark) && (b.eof <==> b.data != [] && |Content(bs)| + |b.data| > mark)
    ensures Marks(bs + [b], mark)
  {
    var all := bs + [b];
    forall i | 0 <= i < |all|
      ensures all[i].eof <==> Past(all, i, mark)
    {
      if i < |bs| {
        assert all[..i + 1] == bs[..i + 1] && all[i] == bs[i];
      } else {
        assert all[..i + 1] == all;
        ContentSnoc(bs, b);
      }
    }
  }

  lemma {:induction false} IncomingStep(ls: seq<Link>, k: nat)
    requires k < |ls|
    ensures Incoming(ls[k..]) == ls[k].data + Incoming(ls[k + 1..])
  {
    assert ls[k..][1..] == ls[k + 1..];
  }

  lemma {:induction false} IncomingCons(l: Link, ls: seq<Link>)
    ensures Incoming([l] + ls) == l.data + Incoming(ls)
  {
    assert ([l] + ls)[1..] == ls;
  }

  lemma {:induction false} Regroup(a: Bytes, b: Bytes, c: Bytes, d: Bytes)
    ensures a + b + (c + d) == a + (b + c + d)
  {
  }

  /** A link of the incoming chain that is kept as it is. */
  function Foreign(l: Link): RespBuf {
    RespBuf(l.data, 0, false, l.eof)
  }

  /** The length of all bytes before the link that ends the stream, or else of all. */
  ghost function MarkOf(base: nat, ls: seq<Link>): int {
    base + |Incoming(ls)| - if Ends(ls) then |ls[|ls| - 1].data| else 0
  }

  lemma {:induction false} LastIsPart(ls: seq<Link>)
    requires ls != []
    ensures |ls[|ls| - 1].data| <= |Incoming(ls)|
  {
    if |ls| > 1 {
      assert ls[1..][|ls| - 2] == ls[|ls| - 1];
      LastIsPart(ls[1..]);
    }
  }

  /** Link `k` lies before the mark, unless it ends the stream. */
  lemma {:induction false} BeforeMark(base: nat, ls: seq<Link>, k: nat, done: nat)
    requires k < |ls| && EndsLast(ls) && done + |Incoming(ls[k..])| == base + |Incoming(ls)|
    ensures ls[k].eof ==> done == MarkOf(base, ls)
    ensures !ls[k].eof ==> done + |ls[k].data| <= MarkOf(base, ls)
  {
    IncomingStep(ls, k);
    if k == |ls| - 1 {
      assert ls[k + 1..] == [];
    } else {
      assert ls[k + 1..][|ls| - k - 2] == ls[|ls| - 1];
      LastIsPart(ls[k + 1..]);
    }
  }

  // ------------------------------------------------------------ capacities

  ghost predicate SameCaps(a: seq<RespBuf>, b: seq<RespBuf>) {
    |a| == |b| && forall i :: 0 <= i < |a| ==> b[i].cap == a[i].cap
  }

  /** The capacities of the old buffers `own`, and of the new ones. */
  ghost predicate CapsAre(bs: seq<RespBuf>, own: seq<RespBuf>, caps: nat -> nat) {
    && |own| <= |bs|
    && (forall i :: 0 <= i < |own| ==> bs[i].cap == own[i].cap)
    && (forall i: nat :: |own| <= i < |bs| ==> bs[i].cap == caps(i))
  }

  lemma {:induction false} CapsStart(bs: seq<RespBuf>, caps: nat -> nat)
    ensures CapsAre(bs, bs, caps)
  {
  }

  lemma {:induction false} CapsSnoc(bs: seq<RespBuf>, own: seq<RespBuf>, caps: nat -> nat)
    requires CapsAre(bs, own, caps)
    ensures CapsAre(bs + [RespBuf([], caps(|bs|), true, false)], own, caps)
  {
  }

  lemma {:induction false} CapsKept(a: seq<RespBuf>, b: seq<RespBuf>, own: seq<RespBuf>, caps: nat -> nat)
    requires SameCaps(a, b) && CapsAre(a, own, caps)
    ensures CapsAre(b, own, caps)
  {
  }

  lemma {:induction false} AllSame(bs: seq<RespBuf>)
    ensures SameCaps(bs, bs) && forall x: Bytes :: x + [] == x
  {
  }

  /** Bytes copied to the end of the last own buffer. */
  lemma {:induction false} LastCopied(bs: seq<RespBuf>, num: nat, bytes: Bytes, eof: bool, mark: int)
    requires OwnOk(bs, |bs|, num) && bs != [] && bytes != [] && Marks(bs, mark)
    requires |bs[|bs| - 1].data| + |bytes| <= bs[|bs| - 1].cap
    requires if eof then |Content(bs)| >= mark else |Content(bs)| + |bytes| <= mark
    ensures var k, b := |bs| - 1, bs[|bs| - 1];
            var r := bs[k := RespBuf(b.data + bytes, b.cap, true, eof)];
            && OwnOk(r, |bs|, num) && Content(r) == Content(bs) + bytes && SameCaps(bs, r) && Marks(r, mark)
  {
    hide Marks, Content;
    var front, b := bs[..|bs| - 1], bs[|bs| - 1];
    var b' := RespBuf(b.data + bytes, b.cap, true, eof);
    assert bs == front + [b] && bs[|bs| - 1 := b'] == front + [b'];
    ContentSnoc(front, b);
    ContentSnoc(front, b');
    assert Content(front) + b.data + bytes == Content(front) + (b.data + bytes);
    FrontMarks(bs, mark);
    MarksSnoc(front, b', mark);
  }

  lemma {:induction false} OpenSize(bs: seq<RespBuf>, count: nat, num: nat)
    requires OwnOk(bs, count, num) && |bs| == count
    ensures |bs| <= num
  {
  }

  lemma {:induction false} ContentPrefix(bs: seq<RespBuf>, k: nat)
    requires k <= |bs|
    ensures |Content(bs[..k])| <= |Content(bs)|
  {
    if k < |bs| {
      ContentPrefix(bs[..|bs| - 1], k);
      assert bs[..|bs| - 1][..k] == bs[..k];
    } else {
      assert bs[..k] == bs;
    }
  }

  /** As long as no byte is past the mark, no buffer is marked. */
  lemma {:induction false} NoMarks(bs: seq<RespBuf>, mark: int)
    requires |Content(bs)| <= mark
    ensures Marks(bs, mark) <==> forall i :: 0 <= i < |bs| ==> !bs[i].eof
  {
    forall i | 0 <= i < |bs| ensures !Past(bs, i, mark) { ContentPrefix(bs, i + 1); }
  }

  lemma {:induction false} MarkBounds(base: nat, ls: seq<Link>)
    ensures MarkOf(base, ls) >= base
    ensures ls == [] || !ls[|ls| - 1].eof ==> MarkOf(base, ls) == base + |Incoming(ls)|
  {
    if ls != [] { LastIsPart(ls); }
  }

  lemma {:induction false} FillingStarts(bs: seq<RespBuf>, count: nat)
    requires count <= |bs|
    ensures count == 0 ==> AllFull(bs, count)
  {
  }

  lemma {:induction false} FullFrame(bs: seq<RespBuf>, bs': seq<RespBuf>, count: nat)
    requires count <= |bs| && count <= |bs'| && bs'[..count] == bs[..count] && AllFull(bs, count)
    ensures AllFull(bs', count)
  {
    forall i | 0 <= i < count ensures Full(bs'[i]) { assert bs'[i] == bs'[..count][i] == bs[..count][i] == bs[i]; }
  }

  ghost predicate AllForeign(bs: seq<RespBuf>) {
    forall i :: 0 <= i < |bs| ==> !bs[i].own
  }

  lemma {:induction false} ContentEmpty(bs: seq<RespBuf>)
    ensures Content(bs + []) == Content(bs)
  {
    assert bs + [] == bs;
  }

  lemma {:induction false} NothingIncoming(ls: seq<Link>)
    ensures Incoming([]) == [] && ls[0..] == ls
  {
  }

  lemma {:induction false} EndMarked(bs: seq<RespBuf>, mark: int)
    requires Marks(bs, mark) && bs != [] && bs[|bs| - 1].data != [] && |Content(bs)| > mark
    ensures bs[|bs| - 1].eof
  {
    assert bs[..|bs| - 1 + 1] == bs;
  }

  lemma {:induction false} FrontMarks(bs: seq<RespBuf>, mark: int)
    requires bs != [] && Marks(bs, mark)
    ensures Marks(bs[..|bs| - 1], mark)
  {
    var front := bs[..|bs| - 1];
    forall i | 0 <= i < |front|
      ensures front[i].eof <==> Past(front, i, mark)
    {
      assert front[..i + 1] == bs[..i + 1] && front[i] == bs[i];
    }
  }

  // ------------------------------------------------- where the ending link starts

  /** An own buffer before the last one is marked as the end of the stream. */
  ghost predicate EarlyMarked(bs: seq<RespBuf>, count: nat) {
    exists i :: 0 <= i < count && i < |bs| - 1 && bs[i].eof
  }

  /** The room in the buffer that is being filled. */
  function RoomLeft(bs: seq<RespBuf>): int {
    if bs == [] then 0 else bs[|bs| - 1].cap - |bs[|bs| - 1].data|
  }

  /** The bytes before the last link. */
  ghost function LengthBefore(ls: seq<Link>): int
    requires ls != []
  {
    |Incoming(ls)| - |ls[|ls| - 1].data|
  }

  /** The room in the own buffer in which the byte after the next `t` bytes lands, when
      `room` is left in the present one and `k` buffers are in use; zero if there is no
      own buffer for it any more. */
  function StartRoom(caps: nat -> nat, num: nat, k: nat, room: int, t: int): int
    decreases num - k
  {
    if t < room then room - t
    else if k >= num then 0
    else StartRoom(caps, num, k + 1, caps(k), t - room)
  }

  ghost function CapSum(bs: seq<RespBuf>): nat {
    if bs == [] then 0 else CapSum(bs[..|bs| - 1]) + bs[|bs| - 1].cap
  }

  lemma {:induction false} CapSumSnoc(bs: seq<RespBuf>, k: nat)
    requires k < |bs|
    ensures CapSum(bs[..k + 1]) == CapSum(bs[..k]) + bs[k].cap
  {
    assert bs[..k + 1][..k] == bs[..k];
  }

  lemma {:induction false} CapSumSame(a: seq<RespBuf>, b: seq<RespBuf>)
    requires SameCaps(a, b)
    ensures CapSum(a) == CapSum(b)
  {
    if a != [] { CapSumSame(a[..|a| - 1], b[..|b| - 1]); }
  }

  /** Full buffers hold as much as they can. */
  lemma {:induction false} ContentOfFull(bs: seq<RespBuf>)
    requires forall i :: 0 <= i < |bs| ==> Full(bs[i])
    ensures |Content(bs)| == CapSum(bs)
  {
    if bs != [] { ContentOfFull(bs[..|bs| - 1]); }
  }

  /** Own buffers: all but the last are full. */
  lemma {:induction false} ContentOfOwn(bs: seq<RespBuf>, k: nat)
    requires k <= |bs| && OwnOk(bs, |bs|, |bs|)
    ensures |Content(bs[..k])| <= CapSum(bs[..k]) && (k < |bs| ==> |Content(bs[..k])| == CapSum(bs[..k]))
  {
    if k < |bs| {
      ContentOfFull(bs[..k]);
    } else if k > 0 {
      assert bs[..k] == bs;
      ContentOfFull(bs[..k - 1]);
    }
  }

  /** The buffer in which the byte behind `mark` lands. */
  lemma {:induction false} StartsIn(bs: seq<RespBuf>, caps: nat -> nat, num: nat, k: nat, room: int, t: int, mark: int)
    returns (j: nat)
    requires k <= |bs| <= num && CapSum(bs[..k]) - mark == room - t
    requires forall i: nat :: k <= i < |bs| ==> bs[i].cap == caps(i)
    ensures k <= j <= |bs|
    ensures CapSum(bs[..j]) > mark ==>
              (j > k ==> CapSum(bs[..j - 1]) <= mark) && StartRoom(caps, num, k, room, t) == CapSum(bs[..j]) - mark
    ensures CapSum(bs[..j]) <= mark ==>
              j == |bs| && (|bs| == num ==> StartRoom(caps, num, k, room, t) == 0)
    decreases |bs| - k
  {
    if t < room || k == |bs| {
      j := k;
    } else {
      CapSumSnoc(bs, k);
      j := StartsIn(bs, caps, num, k + 1, caps(k), t - room, mark);
    }
  }

  /** The marks after the call, when the byte behind `mark` lands in own buffer `j - 1`. */
  lemma {:induction false} EarlyIffAt(bs: seq<RespBuf>, count: nat, j: nat, mark: int, total: int, rc: Rc)
    requires count <= |bs| && OwnOk(bs[..count], count, count) && Marks(bs[..count], mark) && mark >= 0
    requires j <= count && (j > 0 ==> CapSum(bs[..j - 1]) <= mark) && mark < total
    requires rc == OK ==> |bs| == count > 0 && |Content(bs)| == total && bs[count - 1].data != []
    requires rc == DONE ==> AllFull(bs, count) && |Content(bs[..count])| < total && (count > 0 ==> |bs| > count)
    requires rc != ERROR
    requires CapSum(bs[..j]) > mark || (j == count && CapSum(bs[..j]) <= mark)
    ensures EarlyMarked(bs, count) <==> mark < CapSum(bs[..j]) < total
  {
    var own := bs[..count];
    assert forall i :: 0 <= i <= count ==> own[..i] == bs[..i];
    if CapSum(bs[..j]) <= mark {
      ContentOfOwn(own, count);
      NoMarks(own, mark);
      assert forall i :: 0 <= i < count ==> own[i] == bs[i];
    } else {
      StartMarked(own, j, mark);
      var s := j - 1;
      assert own[s] == bs[s];
      if CapSum(bs[..j]) < total {
        EarlyWhenLong(bs, count, j, mark, total, rc);
      } else {
        NotEarlyWhenShort(bs, count, j, mark, total, rc);
      }
    }
  }

  lemma {:induction false} StartMarked(own: seq<RespBuf>, j: nat, mark: int)
    requires OwnOk(own, |own|, |own|) && 0 <= j <= |own| && mark >= 0
    requires CapSum(own[..j]) > mark && (j > 0 ==> CapSum(own[..j - 1]) <= mark)
    ensures j > 0
    ensures forall i :: 0 <= i < j - 1 ==> !Past(own, i, mark)
    ensures j < |own| || |Content(own)| > mark ==> Past(own, j - 1, mark)
  {
    ContentOfOwn(own, j - 1);
    ContentOfOwn(own, j);
    assert own[..j][..j - 1] == own[..j - 1];
    forall i | 0 <= i < j - 1 ensures !Past(own, i, mark) {
      ContentPrefix(own[..j - 1], i + 1);
      assert own[..j - 1][..i + 1] == own[..i + 1];
    }
    if j == |own| { assert own[..j] == own; }
  }

  lemma {:induction false} EarlyWhenLong(bs: seq<RespBuf>, count: nat, j: nat, mark: int, total: int, rc: Rc)
    requires count <= |bs| && OwnOk(bs[..count], count, count) && Marks(bs[..count], mark) && mark >= 0
    requires 0 < j <= count && CapSum(bs[..j - 1]) <= mark < CapSum(bs[..j]) < total
    requires rc == OK ==> |bs| == count > 0 && |Content(bs)| == total && bs[count - 1].data != []
    requires rc == DONE ==> AllFull(bs, count) && |Content(bs[..count])| < total && (count > 0 ==> |bs| > count)
    requires rc != ERROR
    ensures EarlyMarked(bs, count)
  {
    var own := bs[..count];
    assert own[..j] == bs[..j] && own[..j - 1] == bs[..j - 1];
    StartMarked(own, j, mark);
    ContentOfOwn(own, j);
    assert (|bs| == count ==> bs == own) && (j == count ==> own[..j] == own);
    if j == count && rc == DONE { ContentOfFull(own); }
    assert own[j - 1] == bs[j - 1];
    assert bs[j - 1].eof && j - 1 < |bs| - 1;
  }

  lemma {:induction false} NotEarlyWhenShort(bs: seq<RespBuf>, count: nat, j: nat, mark: int, total: int, rc: Rc)
    requires count <= |bs| && OwnOk(bs[..count], count, count) && Marks(bs[..count], mark) && mark >= 0
    requires 0 < j <= count && CapSum(bs[..j - 1]) <= mark < total <= CapSum(bs[..j])
    requires rc == OK ==> |bs| == count > 0 && |Content(bs)| == total && bs[count - 1].data != []
    requires rc == DONE ==> AllFull(bs, count) && |Content(bs[..count])| < total && (count > 0 ==> |bs| > count)
    requires rc != ERROR
    ensures !EarlyMarked(bs, count)
  {
    hide Content, CapSum;
    var own := bs[..count];
    assert own[..j] == bs[..j] && own[..j - 1] == bs[..j - 1];
    ContentOfOwn(own, j);
    if rc == DONE {
      AllInOwn(own, j);
    } else {
      assert bs == own;
      if j < count { LastAdds(own, j); }
      StartMarked(own, j, mark);
      forall i | 0 <= i < count && i < |bs| - 1 ensures !bs[i].eof {
        assert own[i] == bs[i];
      }
    }
  }

  /** Full buffers hold at least what the first of them can hold. */
  lemma {:induction false} AllInOwn(own: seq<RespBuf>, j: nat)
    requires j <= |own| && AllFull(own, |own|)
    ensures |Content(own)| >= CapSum(own[..j])
  {
    ContentOfFull(own[..j]);
    ContentPrefix(own, j);
  }

  lemma {:induction false} LastAdds(bs: seq<RespBuf>, j: nat)
    requires j < |bs|
    ensures |Content(bs)| >= |Content(bs[..j])| + |bs[|bs| - 1].data|
  {
    ContentPrefix(bs[..|bs| - 1], j);
    assert bs[..|bs| - 1][..j] == bs[..j];
  }

  lemma {:induction false} OldBuffers(bs: seq<RespBuf>, own: seq<RespBuf>, num: nat, mark: int)
    requires OwnOk(own, |own|, num) && |own| <= |bs| && SameCaps(bs[..|own|], own) && |Content(own)| <= mark
    ensures CapSum(bs[..|own|]) == |Content(own)| + RoomLeft(own)
    ensures own != [] ==> CapSum(bs[..|own| - 1]) <= mark
  {
    CapSumSame(bs[..|own|], own);
    if own != [] {
      var f := own[..|own| - 1];
      assert bs[..|own|][..|own| - 1] == bs[..|own| - 1];
      CapSumSame(bs[..|own| - 1], f);
      ContentOfFull(f);
    }
  }

  /** The marks after the call, told from what is known before it. */
  lemma {:induction false} EarlyIff(bs: seq<RespBuf>, count: nat, num: nat, own: seq<RespBuf>, caps: nat -> nat,
                                    ls: seq<Link>, rc: Rc)
    requires OwnOk(own, |own|, num) && OwnOk(bs, count, num) && CapsAre(bs[..count], own, caps)
    requires Ends(ls) && ls[|ls| - 1].data != [] && rc != ERROR
    requires Marks(bs[..count], MarkOf(|Content(own)|, ls))
    requires rc == OK ==>
               Content(bs) == Content(own) + Incoming(ls) && |bs| == count && bs != [] && bs[|bs| - 1].data != []
    requires rc == DONE ==> count == num && AllFull(bs, count) && |Content(bs[..count])| < |Content(own) + Incoming(ls)|
    requires rc == DONE && num > 0 ==> Content(bs) == Content(own) + Incoming(ls)
    ensures EarlyMarked(bs, count) <==>
            0 < StartRoom(caps, num, |own|, RoomLeft(own), LengthBefore(ls)) < |ls[|ls| - 1].data|
  {
    hide Incoming, Content, Marks, CapSum, StartRoom;
    var mark, mine := MarkOf(|Content(own)|, ls), bs[..count];
    MarkBounds(|Content(own)|, ls);
    assert mine[..|own|] == bs[..|own|];
    OldBuffers(mine, own, num, mark);
    var j := StartsIn(mine, caps, num, |own|, RoomLeft(own), LengthBefore(ls), mark);
    assert mine[..j] == bs[..j] && (j > 0 ==> mine[..j - 1] == bs[..j - 1]);
    assert bs[..count] == mine && (|bs| == count ==> bs == mine);
    OwnPrefix(bs, count, num);
    ContentOfOwn(mine, count);
    assert mine[..count] == mine;
    if j > 0 { CapSumSnoc(mine, j - 1); }
    EarlyIffAt(bs, count, j, mark, |Content(own) + Incoming(ls)|, rc);
  }

  lemma {:induction false} OwnPrefix(bs: seq<RespBuf>, count: nat, num: nat)
    requires OwnOk(bs, count, num)
    ensures OwnOk(bs[..count], count, count)
  {
  }
}
