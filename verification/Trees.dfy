/** Binary trees, as the red-black trees of the stores are walked. */
module Trees {
  /** `Sentinel` is the tree's sentinel node. */
  datatype Tree<T> = Sentinel | Branch(left: Tree<T>, value: T, right: Tree<T>)

  /** All values, each node before its left and then its right subtree. */
  function Preorder<T>(t: Tree<T>): seq<T> {
    match t
    case Sentinel => []
    case Branch(l, v, r) => [v] + Preorder(l) + Preorder(r)
  }

  function Size<T>(t: Tree<T>): nat {
    match t
    case Sentinel => 0
    case Branch(l, _, r) => 1 + Size(l) + Size(r)
  }

  /** How many nodes hold `v`. */
  ghost function Holding<T>(t: Tree<T>, v: T): nat {
    match t
    case Sentinel => 0
    case Branch(l, w, r) => (if w == v then 1 else 0) + Holding(l, v) + Holding(r, v)
  }

  lemma {:induction false} Occurrences<T>(w: T, a: seq<T>, b: seq<T>, v: T)
    ensures multiset([w] + a + b)[v] == (if w == v then 1 else 0) + multiset(a)[v] + multiset(b)[v]
  {
    assert multiset([w] + a + b) == multiset{w} + multiset(a) + multiset(b);
  }

  /** Every node is listed once: there are as many values as nodes, and each value occurs as
      often as nodes hold it.  A node comes before its left and then its right subtree. */
  lemma {:induction false} PreorderListsAll<T>(t: Tree<T>, v: T)
    ensures |Preorder(t)| == Size(t) && multiset(Preorder(t))[v] == Holding(t, v)
    ensures t.Branch? ==> Preorder(t) == [t.value] + Preorder(t.left) + Preorder(t.right)
  {
    if t.Branch? {
      PreorderListsAll(t.left, v);
      PreorderListsAll(t.right, v);
      Occurrences(t.value, Preorder(t.left), Preorder(t.right), v);
    }
  }
}
