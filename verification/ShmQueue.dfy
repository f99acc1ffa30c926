/** The shared-memory queue, in two views: the stream of bytes that is waiting in it
    (`StreamPush`, `StreamPop`) refines a plain FIFO of byte strings (`FifoPush`,
    `FifoPop`). */
module ShmQueue {
  import opened Bytes

  /** Size of the length prefix of a record. */
  const PREFIX := 4

  datatype Result =
    | PushOk
    | PushFull               // NGX_ABORT
    | Popped(data: Bytes)
    | PopEmpty               // NGX_AGAIN
    | PopNoMemory            // NGX_ERROR
    | PopAssert              // a debug build stops at its assertion

  datatype Op = Push(data: Bytes) | Pop(allocOk: bool)

  // ---------------------------------------------------------------- bytes

  /** What a push does to the waiting bytes.  The stored length is a `uint32_t`. */
  function StreamPush(cap: nat, s: Bytes, data: Bytes): (r: (Result, Bytes)) {
    if |s| + PREFIX + |data| > cap then (PushFull, s)
    else (PushOk, s + (LE32(|data| % U32) + data))
  }

  /** The record at the front, if there is one, is complete. */
  predicate HeadFramed(s: Bytes) {
    |s| >= PREFIX ==> PREFIX + FromLE32(s) <= |s|
  }

  function StreamPop(debug: bool, s: Bytes, allocOk: bool): (r: (Result, Bytes))
    requires HeadFramed(s)
  {
    if |s| < PREFIX then (PopEmpty, s)
    else
      var len := FromLE32(s);
      if len != 0 && !allocOk then (PopNoMemory, s)
      else if len == 0 && debug then (PopAssert, s)
      else (Popped(s[PREFIX..PREFIX + len]), s[PREFIX + len..])
  }

  // ----------------------------------------------------------------- FIFO

  function FifoPush(cap: nat, q: seq<Bytes>, data: Bytes): (r: (Result, seq<Bytes>)) {
    if Occupied(q) + PREFIX + |data| > cap then (PushFull, q) else (PushOk, q + [data])
  }

  function FifoPop(debug: bool, q: seq<Bytes>, allocOk: bool): (r: (Result, seq<Bytes>)) {
    if q == [] then (PopEmpty, q)
    else if q[0] != [] && !allocOk then (PopNoMemory, q)
    else if q[0] == [] && debug then (PopAssert, q)
    else (Popped(q[0]), q[1..])
  }

  function FifoStep(cap: nat, debug: bool, q: seq<Bytes>, op: Op): (r: (Result, seq<Bytes>)) {
    match op
    case Push(data) => FifoPush(cap, q, data)
    case Pop(allocOk) => FifoPop(debug, q, allocOk)
  }

  /** Bytes that the messages of `q` take in the ring. */
  function Occupied(q: seq<Bytes>): nat {
    if q == [] then 0 else PREFIX + |q[0]| + Occupied(q[1..])
  }

  /** The records of `q`, one after the other. */
  function Encode(q: seq<Bytes>): Bytes
    requires Storable(q)
  {
    if q == [] then [] else Record(q[0]) + Encode(q[1..])
  }

  /** A message behind its length. */
  function Record(m: Bytes): (r: Bytes)
    requires |m| < U32
    ensures |r| == PREFIX + |m|
  {
    LE32(|m|) + m
  }

  /** Every message length fits the 32-bit prefix. */
  predicate Storable(q: seq<Bytes>) {
    forall i :: 0 <= i < |q| ==> |q[i]| < U32
  }

  // ----------------------------------------------------- runs of both views

  /** Replies of a run over the waiting bytes, and the bytes left at the end.
      A failed assertion ends the process, hence the run. */
  ghost function StreamRun(cap: nat, debug: bool, s: Bytes, ops: seq<Op>): (seq<Result>, Bytes)
    decreases |ops|
  {
    if ops == [] || (ops[0].Pop? && !HeadFramed(s)) then ([], s)
    else
      var (r, s1) := match ops[0]
        case Push(d) => StreamPush(cap, s, d)
        case Pop(ok) => StreamPop(debug, s, ok);
      if r.PopAssert? then ([r], s1)
      else
        var (rs, s2) := StreamRun(cap, debug, s1, ops[1..]);
        ([r] + rs, s2)
  }

  ghost function FifoRun(cap: nat, debug: bool, q: seq<Bytes>, ops: seq<Op>): (seq<Result>, seq<Bytes>)
    decreases |ops|
  {
    if ops == [] then ([], q)
    else
      var (r, q1) := FifoStep(cap, debug, q, ops[0]);
      if r.PopAssert? then ([r], q1)
      else
        var (rs, q2) := FifoRun(cap, debug, q1, ops[1..]);
        ([r] + rs, q2)
  }

  lemma {:induction false} EncodeLength(q: seq<Bytes>)
    requires Storable(q)
    ensures |Encode(q)| == Occupied(q)
  {
    if q != [] { EncodeLength(q[1..]); }
  }

  lemma {:induction false} EncodeAppend(q: seq<Bytes>, m: Bytes)
    requires Storable(q) && |m| < U32
    ensures Storable(q + [m])
    ensures Encode(q + [m]) == Encode(q) + Record(m)
  {
    hide Record, Encode, Storable;
    StorableParts(q, m);
    if q == [] {
      assert q + [m] == [m] && [m][1..] == [];
      EncodeUnfolds([m]);
      EncodeNone();
      assert Record(m) + [] == [] + Record(m);
    } else {
      EncodeAppend(q[1..], m);
      assert (q + [m])[1..] == q[1..] + [m] && (q + [m])[0] == q[0];
      EncodeUnfolds(q);
      EncodeUnfolds(q + [m]);
      Regroup(Record(q[0]), Encode(q[1..]), Record(m));
    }
  }

  lemma {:induction false} StorableParts(q: seq<Bytes>, m: Bytes)
    requires Storable(q) && |m| < U32
    ensures Storable(q + [m]) && (q != [] ==> |q[0]| < U32 && Storable(q[1..]))
  {
  }

  lemma {:induction false} EncodeUnfolds(q: seq<Bytes>)
    requires Storable(q) && q != []
    ensures |q[0]| < U32 && Storable(q[1..]) && Encode(q) == Record(q[0]) + Encode(q[1..])
  {
  }

  lemma {:induction false} EncodeNone()
    ensures Storable([]) && Encode([]) == []
  {
  }

  lemma {:induction false} Regroup(a: Bytes, b: Bytes, c: Bytes)
    ensures a + (b + c) == a + b + c
  {
  }

  /** Where record `i` begins; for the number of messages, where the last one ends. */
  function RecordOffset(q: seq<Bytes>, i: nat): nat
    requires i <= |q|
  {
    if i == 0 then 0 else RecordOffset(q, i - 1) + 4 + |q[i - 1]|
  }

  lemma {:induction false} EncodeJoin(a: seq<Bytes>, b: seq<Bytes>)
    requires Storable(a) && Storable(b)
    ensures Storable(a + b) && Encode(a + b) == Encode(a) + Encode(b)
  {
    hide Record;
    if a == [] {
      assert a + b == b;
    } else {
      EncodeJoin(a[1..], b);
      assert (a + b)[1..] == a[1..] + b && (a + b)[0] == a[0];
      Regroup(Record(a[0]), Encode(a[1..]), Encode(b));
    }
  }

  lemma {:induction false} OffsetIs(q: seq<Bytes>, i: nat)
    requires Storable(q) && i <= |q|
    ensures Storable(q[..i]) && RecordOffset(q, i) == |Encode(q[..i])|
  {
    hide Encode;
    if i == 0 {
      assert q[..0] == [];
      EncodeNone();
    } else {
      OffsetIs(q, i - 1);
      assert q[..i] == q[..i - 1] + [q[i - 1]];
      EncodeAppend(q[..i - 1], q[i - 1]);
    }
  }

  /** The waiting bytes, byte by byte: each message behind its length, which is stored in four
      bytes, the least significant one first; and the records right behind one another. */
  lemma {:induction false} QueueFormat(q: seq<Bytes>, i: nat)
    requires Storable(q)
    ensures |Encode(q)| == RecordOffset(q, |q|)
    ensures i < |q| ==>
              var s, at, n := Encode(q), RecordOffset(q, i), |q[i]|;
              && at + 4 + n <= |s| && NumberAt(s, at) == n && s[at + 4..at + 4 + n] == q[i]
  {
    hide Encode, NumberAt, LE32;
    OffsetIs(q, |q|);
    assert q[..|q|] == q;
    if i < |q| {
      var pre, m := Encode(q[..i]), q[i];
      OffsetIs(q, i);
      assert q == q[..i] + q[i..] && q[i..][1..] == q[i + 1..];
      EncodeJoin(q[..i], q[i..]);
      EncodeUnfolds(q[i..]);
      var s, post := Encode(q), Encode(q[i + 1..]);
      assert s == pre + (LE32(|m|) + m + post);
      LE32Length(|m|);
      assert s[|pre|..|pre| + 4] == LE32(|m|);
      assert s[|pre| + 4..|pre| + 4 + |m|] == m;
      NumberOfSlice(s, |pre|, |m|);
    }
  }

  lemma {:induction false} EncodeHead(q: seq<Bytes>)
    requires Storable(q) && q != []
    ensures var s := Encode(q);
            && PREFIX + |q[0]| <= |s|
            && FromLE32(s) == |q[0]|
            && s[PREFIX..PREFIX + |q[0]|] == q[0]
            && s[PREFIX + |q[0]|..] == Encode(q[1..])
  {
    var rest := q[0] + Encode(q[1..]);
    assert Encode(q) == LE32(|q[0]|) + rest;
    LE32RoundTrip(|q[0]|, rest);
  }

  /** A push: the byte stream stays the encoding of the FIFO and the replies agree. */
  lemma {:induction false} PushRefines(cap: nat, q: seq<Bytes>, data: Bytes)
    requires Storable(q) && |data| < U32
    ensures var (r, q1) := FifoPush(cap, q, data);
            && Storable(q1)
            && StreamPush(cap, Encode(q), data) == (r, Encode(q1))
            && |Encode(q1)| == Occupied(q1)
            && (Occupied(q) <= cap ==> Occupied(q1) <= cap)
  {
    EncodeLength(q);
    EncodeAppend(q, data);
    EncodeLength(q + [data]);
    assert |data| % U32 == |data|;
  }

  /** A pop, likewise. */
  lemma {:induction false} PopRefines(debug: bool, q: seq<Bytes>, allocOk: bool)
    requires Storable(q)
    ensures HeadFramed(Encode(q))
    ensures var (r, q1) := FifoPop(debug, q, allocOk);
            && Storable(q1)
            && StreamPop(debug, Encode(q), allocOk) == (r, Encode(q1))
            && Occupied(q1) <= Occupied(q)
  {
    EncodeLength(q);
    if q != [] { EncodeHead(q); }
  }

  /** Every run of pushes and pops over the byte stream answers exactly as a FIFO
      of byte strings does, and ends with the encoding of that FIFO, which takes
      four bytes more than each message. */
  lemma {:induction false} RunRefinesFifo(cap: nat, debug: bool, q: seq<Bytes>, ops: seq<Op>)
    requires Storable(q)
    requires forall i :: 0 <= i < |ops| && ops[i].Push? ==> |ops[i].data| < U32
    ensures var (rs, q') := FifoRun(cap, debug, q, ops);
            && Storable(q')
            && StreamRun(cap, debug, Encode(q), ops) == (rs, Encode(q'))
            && |Encode(q')| == Occupied(q')
            && (Occupied(q) <= cap ==> Occupied(q') <= cap)
    decreases |ops|
  {
    EncodeLength(q);
    if ops != [] {
      match ops[0]
      case Push(d) =>
        PushRefines(cap, q, d);
        RunRefinesFifo(cap, debug, FifoPush(cap, q, d).1, ops[1..]);
      case Pop(ok) =>
        PopRefines(debug, q, ok);
        RunRefinesFifo(cap, debug, FifoPop(debug, q, ok).1, ops[1..]);
    }
  }

  /** Messages accepted by the pushes that were answered, in order. */
  ghost function Accepted(ops: seq<Op>, rs: seq<Result>): seq<Bytes>
    decreases |rs|
  {
    if ops == [] || rs == [] then []
    else AcceptedBy(ops[0], rs[0]) + Accepted(ops[1..], rs[1..])
  }

  /** Messages handed out by pops, in order. */
  ghost function Delivered(rs: seq<Result>): seq<Bytes> {
    if rs == [] then []
    else DeliveredBy(rs[0]) + Delivered(rs[1..])
  }

  /** First in, first out, nothing lost and nothing invented, over every run:
      what was waiting and what was accepted is what was delivered and what is
      still waiting, in that order. */
  lemma {:induction false} FifoConserves(cap: nat, debug: bool, q: seq<Bytes>, ops: seq<Op>)
    ensures var (rs, q') := FifoRun(cap, debug, q, ops);
            q + Accepted(ops, rs) == Delivered(rs) + q'
    decreases |ops|
  {
    var (rs, q') := FifoRun(cap, debug, q, ops);
    if ops != [] {
      var (r, q1) := FifoStep(cap, debug, q, ops[0]);
      FifoStepConserves(cap, debug, q, ops[0]);
      if r.PopAssert? {
        assert rs == [r] && rs[1..] == [];
        assert Accepted(ops, rs) == [] && Delivered(rs) == [];
      } else {
        var (rs1, q2) := FifoRun(cap, debug, q1, ops[1..]);
        FifoConserves(cap, debug, q1, ops[1..]);
        assert rs[1..] == rs1 && rs[0] == r;
        assert Accepted(ops, rs) == AcceptedBy(ops[0], r) + Accepted(ops[1..], rs1);
        assert Delivered(rs) == DeliveredBy(r) + Delivered(rs1);
        hide *;
        Exchange(q, AcceptedBy(ops[0], r), DeliveredBy(r), q1,
                 Accepted(ops[1..], rs1), Delivered(rs1), q2);
      }
    }
  }

  ghost function AcceptedBy(op: Op, r: Result): seq<Bytes> {
    if op.Push? && r.PushOk? then [op.data] else []
  }

  ghost function DeliveredBy(r: Result): seq<Bytes> {
    if r.Popped? then [r.data] else []
  }

  lemma {:induction false} RunUnfolds(cap: nat, debug: bool, q: seq<Bytes>, ops: seq<Op>, rs: seq<Result>)
    requires ops != []
    ensures var (r, q1) := FifoStep(cap, debug, q, ops[0]);
            var run := FifoRun(cap, debug, q, ops);
            if r.PopAssert? then rs + run.0 == rs + [r] && run.1 == q1
            else rs + run.0 == (rs + [r]) + FifoRun(cap, debug, q1, ops[1..]).0
                 && run.1 == FifoRun(cap, debug, q1, ops[1..]).1
  {
    var (r, q1) := FifoStep(cap, debug, q, ops[0]);
    var rest := FifoRun(cap, debug, q1, ops[1..]).0;
    assert rs + ([r] + rest) == (rs + [r]) + rest;
  }

  lemma {:induction false} FifoStepConserves(cap: nat, debug: bool, q: seq<Bytes>, op: Op)
    ensures var (r, q1) := FifoStep(cap, debug, q, op);
            q + AcceptedBy(op, r) == DeliveredBy(r) + q1
  {
    if op.Pop? && q != [] { assert q == [q[0]] + q[1..]; }
  }

  lemma {:induction false} Exchange(q: seq<Bytes>, a: seq<Bytes>, d: seq<Bytes>, q1: seq<Bytes>,
                 as1: seq<Bytes>, ds1: seq<Bytes>, q2: seq<Bytes>)
    requires q + a == d + q1 && q1 + as1 == ds1 + q2
    ensures q + (a + as1) == (d + ds1) + q2
  {
    assert q + (a + as1) == (q + a) + as1 == d + (q1 + as1);
  }

  /** A length of 2^32 or more does not survive: the prefix wraps, and once the record comes
      to the front, its first `|m| % 2^32` bytes are read, and the rest is left before
      whatever was pushed after it. */
  lemma {:induction false} OversizeIsCut(cap: nat, s: Bytes, m: Bytes, later: Bytes)
    requires |m| >= U32 && |s| + PREFIX + |m| <= cap
    ensures var n := |m| % U32;
            var record := LE32(n) + m;
            && StreamPush(cap, s, m) == (PushOk, s + record)
            && HeadFramed(record + later)
            && StreamPop(false, record + later, true) == (Popped(m[..n]), m[n..] + later)
            && m[..n] != m
  {
    var n := |m| % U32;
    var all := LE32(n) + m + later;
    assert all == LE32(n) + (m + later);
    LE32RoundTrip(n, m + later);
    assert all[PREFIX..PREFIX + n] == m[..n];
    assert all[PREFIX + n..] == m[n..] + later;
  }

  // ----------------------------------------------------------- filling and draining

  /** Pushes of the messages `ms`. */
  function Pushes(ms: seq<Bytes>): seq<Op> {
    if ms == [] then [] else [Push(ms[0])] + Pushes(ms[1..])
  }

  /** A pop for every message of `ms`, and their replies. */
  function Pops(ms: seq<Bytes>): seq<Op> {
    if ms == [] then [] else [Pop(true)] + Pops(ms[1..])
  }

  function Handed(ms: seq<Bytes>): seq<Result> {
    if ms == [] then [] else [Popped(ms[0])] + Handed(ms[1..])
  }

  lemma {:induction false} OccupiedJoin(a: seq<Bytes>, b: seq<Bytes>)
    ensures Occupied(a + b) == Occupied(a) + Occupied(b)
  {
    if a == [] {
      assert a + b == b;
    } else {
      OccupiedJoin(a[1..], b);
      assert (a + b)[1..] == a[1..] + b && (a + b)[0] == a[0];
    }
  }

  lemma {:induction false} OccupiedIs(q: seq<Bytes>, i: nat)
    requires i <= |q|
    ensures Occupied(q[..i]) == RecordOffset(q, i)
  {
    if i > 0 {
      OccupiedIs(q, i - 1);
      assert q[..i] == q[..i - 1] + [q[i - 1]];
      OccupiedJoin(q[..i - 1], [q[i - 1]]);
    }
  }

  predicate AllAccepted(rs: seq<Result>) {
    forall r :: r in rs ==> r == PushOk
  }

  lemma {:induction false} AllAcceptedCons(r: Result, rs: seq<Result>)
    ensures AllAccepted([r] + rs) <==> r == PushOk && AllAccepted(rs)
  {
    assert forall x :: x in [r] + rs <==> x in [r] || x in rs;
    assert r in [r];
  }

  /** All messages of a sequence are accepted if and only if they fit behind those that wait,
      with four bytes more for each; a message that fills the ring to its last byte is. */
  lemma {:induction false} FillsIff(cap: nat, debug: bool, q: seq<Bytes>, ms: seq<Bytes>)
    requires RecordOffset(q, |q|) <= cap
    ensures var (rs, q') := FifoRun(cap, debug, q, Pushes(ms));
            && (AllAccepted(rs) <==> RecordOffset(q + ms, |q + ms|) <= cap)
            && (RecordOffset(q + ms, |q + ms|) <= cap ==> q' == q + ms)
  {
    assert q[..|q|] == q && (q + ms)[..|q + ms|] == q + ms;
    OccupiedIs(q, |q|);
    OccupiedIs(q + ms, |q + ms|);
    Fills(cap, debug, q, ms);
  }

  lemma {:induction false} Fills(cap: nat, debug: bool, q: seq<Bytes>, ms: seq<Bytes>)
    requires Occupied(q) <= cap
    ensures var (rs, q') := FifoRun(cap, debug, q, Pushes(ms));
            && (AllAccepted(rs) <==> Occupied(q + ms) <= cap)
            && (Occupied(q + ms) <= cap ==> q' == q + ms)
    decreases |ms|
  {
    if ms == [] {
      assert q + ms == q;
    } else {
      var ops := Pushes(ms);
      assert ops[0] == Push(ms[0]) && ops[1..] == Pushes(ms[1..]);
      var (r, q1) := FifoPush(cap, q, ms[0]);
      OccupiedJoin(q, ms);
      var one: seq<Bytes> := [ms[0]];
      assert one[1..] == [];
      OccupiedJoin(q, one);
      var run := FifoRun(cap, debug, q1, ops[1..]);
      assert FifoRun(cap, debug, q, ops) == ([r] + run.0, run.1);
      AllAcceptedCons(r, run.0);
      if r == PushOk {
        assert q + [ms[0]] + ms[1..] == q + ms;
        Fills(cap, debug, q + [ms[0]], ms[1..]);
      } else {
        assert Occupied(ms) == PREFIX + |ms[0]| + Occupied(ms[1..]);
      }
    }
  }

  /** As many pops as there are messages hand them all out in order, if memory is found. */
  lemma {:induction false} DrainsAll(cap: nat, q: seq<Bytes>)
    ensures FifoRun(cap, false, q, Pops(q)) == (Handed(q), [])
    decreases |q|
  {
    if q != [] {
      assert Pops(q)[0] == Pop(true) && Pops(q)[1..] == Pops(q[1..]);
      DrainsAll(cap, q[1..]);
    }
  }

  /** Which of the four replies a pop gives; only a delivery changes the queue. */
  lemma {:induction false} PopReplies(debug: bool, q: seq<Bytes>, allocOk: bool)
    ensures var (r, q') := FifoPop(debug, q, allocOk);
            && (r == PopEmpty <==> q == [])
            && (r == PopNoMemory <==> q != [] && q[0] != [] && !allocOk)
            && (r == PopAssert <==> q != [] && q[0] == [] && debug)
            && (q != [] && (if q[0] == [] then !debug else allocOk) ==> r == Popped(q[0]))
            && q' == if r.Popped? then q[1..] else q
  {
  }
}
