/** The page-wise key iterator over the tree of a key/value store. */
module KeyIterator {
  import opened Bytes
  import opened Trees

  /** The page of at most `size` keys that starts at index `start`. */
  function Page(t: Tree<Bytes>, start: nat, size: nat): seq<Bytes>
    requires start <= |Preorder(t)|
  {
    Preorder(t)[start..Min(start + size, |Preorder(t)|)]
  }

  /** Subtraction of `ngx_uint_t` values. */
  function Minus64(a: nat, b: nat): nat
    requires a < U64 && b < U64
  {
    if a >= b then a - b else a + U64 - b
  }

  /** `keys` holds the part of `visited`, whose first element has index `cur`, that
      falls into the page starting at `start` and ending before `stop`. */
  ghost predicate Filled(keys: seq<Bytes>, visited: seq<Bytes>, cur: nat, start: nat, stop: nat) {
    forall k :: 0 <= k < |keys| && cur <= start + k < stop && start + k < cur + |visited| ==>
      keys[k] == visited[start + k - cur]
  }

  /** Slots of keys outside the indices `cur .. cur'` are as before. */
  ghost predicate Untouched(before: seq<Bytes>, after: seq<Bytes>, cur: nat, cur': nat, start: nat) {
    && |after| == |before|
    && forall k :: 0 <= k < |after| && !(cur <= start + k < cur') ==> after[k] == before[k]
  }

  /** The index at which the walk stops, for a page of `limit` keys from `start` on. */
  function Stop(start: nat, limit: nat): (r: nat)
    requires start < U64 && limit < U64
    ensures r < U64
    ensures start + limit >= U64 ==> r < start
  {
    if start + limit < U64 then start + limit else start + limit - U64
  }

  /** The recursive walk.  `cur` is the index of `node` in the walk; the walk stops
      once `limit` keys were stored, as 64-bit numbers tell. */
  method RetrieveKeys(node: Tree<Bytes>, limit: nat, start: nat, cur: nat, keys: array<Bytes>) returns (cur': nat)
    requires node.Branch? && keys.Length >= limit
    requires start < U64 && limit < U64 && cur <= Stop(start, limit)
    modifies keys
    ensures cur' == Min(cur + |Preorder(node)|, Stop(start, limit))
    ensures Untouched(old(keys[..]), keys[..], cur, cur', start)
    ensures Filled(keys[..], Preorder(node), cur, start, Stop(start, limit))
    decreases node
  {
    if Minus64(cur, start) == limit {
      return cur;
    }
    if cur >= start {
      keys[cur - start] := node.value;
    }
    cur' := cur + 1;
    ghost var after1 := keys[..];
    ghost var cur1 := cur';
    if node.left.Branch? {
      cur' := RetrieveKeys(node.left, limit, start, cur', keys);
    }
    ghost var after2 := keys[..];
    ghost var cur2 := cur';
    if node.right.Branch? {
      cur' := RetrieveKeys(node.right, limit, start, cur', keys);
    }
    Compose(after1, after2, keys[..], node, cur, cur1, cur2, cur', start, Stop(start, limit));
  }

  /** The three parts of a visit put together. */
  lemma {:induction false} Compose(k1: seq<Bytes>, k2: seq<Bytes>, k3: seq<Bytes>, node: Tree<Bytes>,
                cur: nat, cur1: nat, cur2: nat, cur3: nat, start: nat, stop: nat)
    requires node.Branch? && cur < stop
    requires cur1 == cur + 1 && stop <= start + |k1|
    requires cur >= start ==> k1[cur - start] == node.value
    requires cur2 == Min(cur1 + |Preorder(node.left)|, stop)
    requires cur3 == Min(cur2 + |Preorder(node.right)|, stop)
    requires Untouched(k1, k2, cur1, cur2, start) && Untouched(k2, k3, cur2, cur3, start)
    requires Filled(k2, Preorder(node.left), cur1, start, stop)
    requires Filled(k3, Preorder(node.right), cur2, start, stop)
    ensures Filled(k3, Preorder(node), cur, start, stop)
  {
    var l, r, p := Preorder(node.left), Preorder(node.right), Preorder(node);
    forall k | 0 <= k < |k3| && cur <= start + k < stop && start + k < cur + |p|
      ensures k3[k] == p[start + k - cur]
    {
      var i := start + k - cur;
      if i == 0 {
        assert k3[k] == k2[k] == k1[k];
      } else if i <= |l| {
        assert k3[k] == k2[k] == l[start + k - cur1];
      } else {
        assert k3[k] == r[start + k - cur2];
      }
    }
  }

  datatype Reply = Fetched(count: nat, last: nat) | Finished | NotLocked

  /** One page: `last` is where the previous page ended.  The page is fetched exactly when
      its end is a 64-bit number; beyond that, no key is stored. */
  method IterateKeys(locked: bool, tree: Tree<Bytes>, nelts: nat, pageSize: nat, last: nat, keys: array<Bytes>)
      returns (r: Reply)
    requires nelts == |Preorder(tree)|
    requires keys.Length >= pageSize && last < U64 && pageSize < U64
    modifies keys
    ensures r.NotLocked? <==> !locked
    ensures r.Finished? <==> locked && last >= nelts
    ensures r.Fetched? && last + pageSize < U64 ==>
              && r.count <= keys.Length
              && keys[..r.count] == Page(tree, last, pageSize)
              && r.last == last + r.count
              && (pageSize > 0 ==> r.count > 0)
    ensures last + pageSize >= U64 ==> keys[..] == old(keys[..])
  {
    if !locked {
      return NotLocked;
    }
    if last >= nelts {
      return Finished;
    }
    var cur := RetrieveKeys(tree, pageSize, last, 0, keys);
    var count := Minus64(cur, last);
    if last + pageSize < U64 {
      assert forall k :: 0 <= k < count ==> keys[..][k] == Preorder(tree)[last + k];
      assert keys[..count] == Page(tree, last, pageSize);
    }
    return Fetched(count, Stop(last, count));
  }

  /** The iteration under the lock: fetches pages until the end is reported.  It lists
      every key exactly once, in the order of the walk. */
  method IterateAll(tree: Tree<Bytes>, nelts: nat, pageSize: nat, keys: array<Bytes>) returns (all: seq<Bytes>)
    requires nelts == |Preorder(tree)|
    requires pageSize > 0 && keys.Length >= pageSize && nelts + pageSize < U64
    modifies keys
    ensures all == Preorder(tree)
  {
    all := [];
    var last := 0;
    while true
      invariant last <= nelts && all == Preorder(tree)[..last]
      decreases nelts - last
    {
      var r := IterateKeys(true, tree, nelts, pageSize, last, keys);
      if r.Finished? {
        return;
      }
      all := all + keys[..r.count];
      assert Preorder(tree)[..last] + Page(tree, last, pageSize) == Preorder(tree)[..r.last];
      last := r.last;
    }
  }

  /** All pages from `start` on, one after the other. */
  ghost function PagesFrom(t: Tree<Bytes>, start: nat, size: nat): seq<Bytes>
    requires size > 0
    decreases |Preorder(t)| - start
  {
    if start >= |Preorder(t)| then []
    else Page(t, start, size) + PagesFrom(t, start + |Page(t, start, size)|, size)
  }

  /** Successive pages of any size partition the keys. */
  lemma {:induction false} PagesPartition(t: Tree<Bytes>, start: nat, size: nat)
    requires size > 0 && start <= |Preorder(t)|
    ensures PagesFrom(t, start, size) == Preorder(t)[start..]
    decreases |Preorder(t)| - start
  {
    if start < |Preorder(t)| {
      PagesPartition(t, start + |Page(t, start, size)|, size);
    }
  }
}
