/** The byte ring that holds the shared-memory queue: length-prefixed records, and one
    `rising` bit that tells a full ring from an empty one.  It refines the stream of
    waiting bytes. */
module ShmRing {
  import opened Bytes
  import opened ShmQueue

  /** Position `i` steps from the start of a buffer of `cap` bytes, `i < 2 * cap`. */
  function Wrap(cap: nat, i: nat): (r: nat)
    requires i < 2 * cap
    ensures r < cap
  {
    if i < cap then i else i - cap
  }

  /** Number of steps from `ptr` forward to `j`. */
  function Ahead(cap: nat, ptr: nat, j: nat): (r: nat)
    requires ptr < cap && j < cap
    ensures r < cap && Wrap(cap, ptr + r) == j
  {
    if j >= ptr then j - ptr else j + cap - ptr
  }

  /** The `n` bytes of `buf` from `at` on, going round at the end. */
  ghost function Window(buf: Bytes, at: nat, n: nat): (w: Bytes)
    requires at < |buf| && n <= |buf|
    ensures |w| == n
    ensures forall k :: 0 <= k < n ==> w[k] == buf[Wrap(|buf|, at + k)]
  {
    seq(n, k requires 0 <= k < n => buf[Wrap(|buf|, at + k)])
  }

  /** `after` is `before` with `data` written from `ptr` on, going round. */
  ghost predicate Written(before: Bytes, after: Bytes, ptr: nat, data: Bytes)
    requires ptr < |before|
  {
    && |after| == |before|
    && forall j :: 0 <= j < |after| ==>
         after[j] == if Ahead(|after|, ptr, j) < |data| then data[Ahead(|after|, ptr, j)] else before[j]
  }

  lemma {:induction false} WindowGrows(before: Bytes, after: Bytes, at: nat, n: nat, data: Bytes)
    requires at < |before| && n + |data| <= |before| && n < |before|
    requires Written(before, after, Wrap(|before|, at + n), data)
    ensures Window(after, at, n + |data|) == Window(before, at, n) + data
  {
    forall k | 0 <= k < n + |data|
      ensures Window(after, at, n + |data|)[k] == (Window(before, at, n) + data)[k]
    {
      var j := Wrap(|after|, at + k);
      var ahead := Ahead(|after|, Wrap(|before|, at + n), j);
      assert ahead == if k >= n then k - n else k + |before| - n;
    }
  }

  lemma {:induction false} WindowSplits(buf: Bytes, at: nat, n: nat, k: nat)
    requires at < |buf| && k <= n <= |buf|
    ensures Window(buf, at, k) == Window(buf, at, n)[..k]
    ensures Window(buf, Wrap(|buf|, at + k), n - k) == Window(buf, at, n)[k..]
  {
    forall i | 0 <= i < n - k
      ensures Window(buf, Wrap(|buf|, at + k), n - k)[i] == Window(buf, at, n)[k..][i]
    {
      assert Wrap(|buf|, Wrap(|buf|, at + k) + i) == Wrap(|buf|, at + (k + i));
    }
  }

  lemma {:induction false} SliceTwice(s: Bytes, i: nat, len: nat)
    requires i + len <= |s|
    ensures s[i..][..len] == s[i..i + len] && s[i..][len..] == s[i + len..]
  {
  }

  class Ring {
    const debug: bool
    const buffer: array<byte>
    var pushPtr: nat
    var popPtr: nat
    var rising: bool

    ghost predicate Valid()
      reads this
    {
      pushPtr < buffer.Length && popPtr < buffer.Length
    }

    constructor (capacity: nat, debug: bool)
      requires capacity > 0
      ensures Valid() && fresh(buffer)
      ensures buffer.Length == capacity && this.debug == debug && Stream() == []
    {
      this.debug := debug;
      buffer := new byte[capacity](_ => 0);
      pushPtr, popPtr, rising := 0, 0, false;
    }

    function Occupancy(): (n: nat)
      requires Valid()
      reads this
      ensures n <= buffer.Length
      ensures Wrap(buffer.Length, popPtr + n) == pushPtr
    {
      if pushPtr > popPtr then pushPtr - popPtr
      else if pushPtr < popPtr then buffer.Length - (popPtr - pushPtr)
      else if rising then buffer.Length
      else 0
    }

    /** The bytes waiting in the ring, oldest first. */
    ghost function Stream(): (s: Bytes)
      requires Valid()
      reads this, buffer
      ensures |s| == Occupancy()
    {
      Window(buffer[..], popPtr, Occupancy())
    }

    /** `ngx_memcpy` into the buffer. */
    method CopyIn(at: nat, data: Bytes)
      requires at + |data| <= buffer.Length
      modifies buffer
      ensures forall j :: 0 <= j < buffer.Length ==>
                buffer[j] == if at <= j < at + |data| then data[j - at] else old(buffer[j])
    {
      forall i | 0 <= i < |data| {
        buffer[at + i] := data[i];
      }
    }

    method CircularWrite(ptr: nat, data: Bytes)
      requires Valid() && ptr < buffer.Length
      requires |data| <= buffer.Length - Occupancy()
      modifies buffer
      ensures Written(old(buffer[..]), buffer[..], ptr, data)
    {
      var forward := buffer.Length - ptr;
      if |data| >= forward {
        CopyIn(ptr, data[..forward]);
        CopyIn(0, data[forward..]);
      } else {
        CopyIn(ptr, data);
      }
    }

    method CircularRead(ptr: nat, n: nat) returns (data: Bytes)
      requires Valid() && ptr < buffer.Length
      requires n <= Occupancy()
      ensures data == Window(buffer[..], ptr, n)
    {
      var forward := buffer.Length - ptr;
      if n >= forward {
        data := buffer[ptr..] + buffer[..n - forward];
      } else {
        data := buffer[ptr..ptr + n];
      }
      assert forall k :: 0 <= k < n ==> data[k] == Window(buffer[..], ptr, n)[k];
    }

    function IncPtr(ptr: nat, n: nat): (r: nat)
      requires ptr < buffer.Length && n <= buffer.Length
      ensures r == Wrap(buffer.Length, ptr + n)
    {
      var p := ptr + n;
      if p >= buffer.Length then p - buffer.Length else p
    }

    /** `circular_write` at the push pointer, then `inc_ptr`: puts `data` behind the
        `n` bytes that start at the pop pointer. */
    method WriteAndAdvance(data: Bytes, ghost n: nat)
      requires Valid() && n + |data| <= buffer.Length
      requires Wrap(buffer.Length, popPtr + n) == pushPtr
      requires |data| <= buffer.Length - Occupancy()
      modifies buffer, `pushPtr
      ensures Valid() && Wrap(buffer.Length, popPtr + (n + |data|)) == pushPtr
      ensures Window(buffer[..], popPtr, n + |data|) == old(Window(buffer[..], popPtr, n)) + data
    {
      ghost var before := buffer[..];
      CircularWrite(pushPtr, data);
      if n < buffer.Length {
        WindowGrows(before, buffer[..], popPtr, n, data);
      } else {
        assert buffer[..] == before;
      }
      pushPtr := IncPtr(pushPtr, |data|);
    }

    /** Refines `StreamPush`; a refused push changes nothing. */
    method PushLocked(data: Bytes) returns (r: Result)
      requires Valid()
      modifies this, buffer
      ensures Valid()
      ensures (r, Stream()) == StreamPush(buffer.Length, old(Stream()), data)
      ensures !r.PushOk? ==> buffer[..] == old(buffer[..]) && pushPtr == old(pushPtr)
                             && popPtr == old(popPtr) && rising == old(rising)
    {
      var entrySize := PREFIX + |data|;
      if Occupancy() + entrySize > buffer.Length {
        return PushFull;
      }
      WriteRecord(LE32(|data| % U32), data, Stream());
      return PushOk;
    }

    /** Puts a length and a message behind the waiting bytes, which they fit. */
    method WriteRecord(len: Bytes, data: Bytes, ghost s: Bytes)
      requires Valid() && Stream() == s && |len| + |data| <= buffer.Length - Occupancy() && |len| > 0
      modifies this, buffer
      ensures Valid() && Stream() == s + (len + data)
    {
      hide Window;
      ghost var occ := Occupancy();
      WriteAndAdvance(len, occ);
      WriteAndAdvance(data, occ + |len|);
      rising := true;
      assert Occupancy() == occ + |len| + |data|;
      assert (s + len) + data == s + (len + data);
    }

    /** `circular_read` at the pop pointer, then `inc_ptr`: takes the first `len` of
        the `n` bytes that start there. */
    method ReadAndAdvance(len: nat, ghost n: nat) returns (data: Bytes)
      requires Valid() && len <= n <= buffer.Length
      requires Wrap(buffer.Length, popPtr + n) == pushPtr
      requires len <= Occupancy()
      modifies `popPtr
      ensures Valid() && Wrap(buffer.Length, popPtr + (n - len)) == pushPtr
      ensures data == old(Window(buffer[..], popPtr, n))[..len]
      ensures Window(buffer[..], popPtr, n - len) == old(Window(buffer[..], popPtr, n))[len..]
    {
      data := CircularRead(popPtr, len);
      WindowSplits(buffer[..], popPtr, n, len);
      popPtr := IncPtr(popPtr, len);
    }

    /** Refines `StreamPop`; an empty ring and a failed allocation change nothing.
        `allocOk` is the answer of the caller's allocator. */
    method PopLocked(allocOk: bool) returns (r: Result)
      requires Valid() && HeadFramed(Stream())
      modifies this
      ensures Valid()
      ensures r == StreamPop(debug, old(Stream()), allocOk).0
      ensures !r.PopAssert? ==> Stream() == StreamPop(debug, old(Stream()), allocOk).1
      ensures r.PopEmpty? || r.PopNoMemory? ==>
                pushPtr == old(pushPtr) && popPtr == old(popPtr) && rising == old(rising)
    {
      if Occupancy() < PREFIX {
        return PopEmpty;
      }
      ghost var s := Stream();
      var prefix := CircularRead(popPtr, PREFIX);
      WindowSplits(buffer[..], popPtr, Occupancy(), PREFIX);
      assert prefix[..PREFIX] == s[..PREFIX];
      var len := FromLE32(prefix);
      var hasBuf := false;
      if len != 0 {
        if !allocOk {
          return PopNoMemory;
        }
        hasBuf := true;
      }
      if debug && !hasBuf {
        return PopAssert;
      }
      var data := TakeRecord(len, s);
      return Popped(data);
    }

    /** Takes the front record, whose length is known, off the ring. */
    method TakeRecord(len: nat, ghost s: Bytes) returns (data: Bytes)
      requires Valid() && Stream() == s && PREFIX + len <= |s|
      modifies this
      ensures Valid()
      ensures data == s[PREFIX..PREFIX + len]
      ensures Stream() == s[PREFIX + len..]
    {
      hide Window;
      ghost var occ := Occupancy();
      SliceTwice(s, PREFIX, len);
      WindowSplits(buffer[..], popPtr, occ, PREFIX);
      popPtr := IncPtr(popPtr, PREFIX);
      data := ReadAndAdvance(len, occ - PREFIX);
      rising := false;
      assert Occupancy() == occ - PREFIX - len;
    }

    /** Any sequence of locked calls on a ring that holds the messages `q`: the replies
        are those of the FIFO, and so are the messages left at the end. */
    method RunLocked(ops: seq<Op>, ghost q: seq<Bytes>) returns (rs: seq<Result>)
      requires Valid() && Storable(q) && Stream() == Encode(q)
      requires forall i :: 0 <= i < |ops| && ops[i].Push? ==> |ops[i].data| < U32
      modifies this, buffer
      ensures rs == FifoRun(buffer.Length, debug, q, ops).0
      ensures PopAssert !in rs ==>
                var q' := FifoRun(buffer.Length, debug, q, ops).1;
                Valid() && Storable(q') && Stream() == Encode(q')
    {
      rs := [];
      ghost var queue, cap := q, buffer.Length;
      assert ops[0..] == ops;
      for i := 0 to |ops|
        invariant Valid() && Storable(queue) && Stream() == Encode(queue) && PopAssert !in rs
        invariant FifoRun(cap, debug, q, ops).0 == rs + FifoRun(cap, debug, queue, ops[i..]).0
        invariant FifoRun(cap, debug, q, ops).1 == FifoRun(cap, debug, queue, ops[i..]).1
      {
        ghost var step := FifoStep(cap, debug, queue, ops[i]);
        RunUnfolds(cap, debug, queue, ops[i..], rs);
        assert ops[i..][1..] == ops[i + 1..];
        var r := StepLocked(ops[i], queue);
        queue := step.1;
        rs := rs + [r];
        if r.PopAssert? {
          return;
        }
      }
    }

    /** One locked call. */
    method StepLocked(op: Op, ghost q: seq<Bytes>) returns (r: Result)
      requires Valid() && Storable(q) && Stream() == Encode(q)
      requires op.Push? ==> |op.data| < U32
      modifies this, buffer
      ensures r == FifoStep(buffer.Length, debug, q, op).0
      ensures !r.PopAssert? ==>
                var q' := FifoStep(buffer.Length, debug, q, op).1;
                Valid() && Storable(q') && Stream() == Encode(q')
    {
      match op {
        case Push(data) =>
          PushRefines(buffer.Length, q, data);
          r := PushLocked(data);
        case Pop(allocOk) =>
          PopRefines(debug, q, allocOk);
          r := PopLocked(allocOk);
      }
    }
  }
}
