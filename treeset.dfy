/** TreeSetImpl: an ordered set of integers kept as a treap, a binary search
    tree on the keys `x` that is also a min-heap on the random priorities `y`.

    The nodes live in an arena: a node reference is an index into the set's
    `nodes`, and `Null` is the null reference. The abstract `Tree` a node
    stands for is ghost state; `Repr` ties the two together. */
module Treap {
  import opened Wrappers

  const Null: int := -1

  /** The fields of one TreapNode: key, priority, links, cached subtree size. */
  datatype TreapNode = TreapNode(x: int, y: int, left: int, right: int, parent: int, size: int)

  /** The shape under a node: each `Node` names the arena entry `id` it lives in. */
  datatype Tree = Leaf | Node(left: Tree, id: int, key: int, prio: int, right: Tree)

  /** The reference to the top node of a shape. */
  function Root(t: Tree): int {
    if t.Leaf? then Null else t.id
  }

  function Size(t: Tree): nat {
    match t
    case Leaf => 0
    case Node(l, _, _, _, r) => 1 + Size(l) + Size(r)
  }

  function Keys(t: Tree): set<int> {
    match t
    case Leaf => {}
    case Node(l, _, key, _, r) => Keys(l) + {key} + Keys(r)
  }

  function Ids(t: Tree): set<int> {
    match t
    case Leaf => {}
    case Node(l, id, _, _, r) => Ids(l) + {id} + Ids(r)
  }

  function Prios(t: Tree): set<int> {
    match t
    case Leaf => {}
    case Node(l, _, _, p, r) => Prios(l) + {p} + Prios(r)
  }

  /** Search-tree order: smaller keys on the left, larger on the right. */
  predicate Bst(t: Tree) {
    match t
    case Leaf => true
    case Node(l, _, key, _, r) =>
      && Bst(l) && Bst(r)
      && (forall j :: j in Keys(l) ==> j < key)
      && (forall j :: j in Keys(r) ==> key < j)
  }

  /** Heap order: no priority below a node is smaller than the node's. */
  predicate HeapOrdered(t: Tree) {
    match t
    case Leaf => true
    case Node(l, _, _, p, r) =>
      && HeapOrdered(l) && HeapOrdered(r)
      && (forall q :: q in Prios(l) ==> p <= q)
      && (forall q :: q in Prios(r) ==> p <= q)
  }

  /** No node occurs twice. */
  predicate Distinct(t: Tree) {
    match t
    case Leaf => true
    case Node(l, id, _, _, r) =>
      && Distinct(l) && Distinct(r)
      && id !in Ids(l) && id !in Ids(r) && Ids(l) !! Ids(r)
  }

  predicate IsTreap(t: Tree) {
    Bst(t) && HeapOrdered(t) && Distinct(t)
  }

  /** The comparator: Integer.compareTo. */
  function Compare(a: int, b: int): (r: int)
    ensures r < 0 <==> a < b
    ensures r == 0 <==> a == b
    ensures -1 <= r <= 1
  {
    if a < b then -1 else if a == b then 0 else 1
  }

  /** Whether `split` sends a node with this key to the left part:
      `compare(key, k) < testedValue`, where testedValue is 1 when equal keys
      are allowed on the left and 0 otherwise. */
  predicate GoesLeft(key: int, k: int, allowEquals: bool) {
    Compare(key, k) < (if allowEquals then 1 else 0)
  }

  /** The keys the left part of a split is meant to hold. */
  predicate Below(j: int, k: int, allowEquals: bool) {
    if allowEquals then j <= k else j < k
  }

  /** `split`: the subtree above the cut keeps its left child and takes the
      left part of its right child's split, or the other way round. */
  function SplitTree(t: Tree, k: int, allowEquals: bool): (Tree, Tree) {
    match t
    case Leaf => (Leaf, Leaf)
    case Node(l, id, key, p, r) =>
      if GoesLeft(key, k, allowEquals) then
        var (a, b) := SplitTree(r, k, allowEquals);
        (Node(l, id, key, p, a), b)
      else
        var (a, b) := SplitTree(l, k, allowEquals);
        (a, Node(b, id, key, p, r))
  }

  /** `merge`: the root with the smaller priority stays on top; on a tie the
      right root does. */
  function MergeTree(l: Tree, r: Tree): Tree
    decreases l, r
  {
    if l.Leaf? then r
    else if r.Leaf? then l
    else if l.prio < r.prio then Node(l.left, l.id, l.key, l.prio, MergeTree(l.right, r))
    else Node(MergeTree(l, r.left), r.id, r.key, r.prio, r.right)
  }

  /** Split neither loses nor invents a node. */
  lemma {:induction false} SplitParts(t: Tree, k: int, allowEquals: bool)
    ensures var (a, b) := SplitTree(t, k, allowEquals);
      && Keys(a) + Keys(b) == Keys(t)
      && Ids(a) + Ids(b) == Ids(t)
      && Prios(a) + Prios(b) == Prios(t)
  {
    match t
    case Leaf =>
    case Node(l, _, key, _, r) =>
      if GoesLeft(key, k, allowEquals) {
        SplitParts(r, k, allowEquals);
      } else {
        SplitParts(l, k, allowEquals);
      }
  }

  /** `split(t, k, false)` puts exactly the keys below `k` on the left, and
      `split(t, k, true)` those up to `k`; both parts are search trees. */
  lemma {:induction false} SplitOrdered(t: Tree, k: int, allowEquals: bool)
    requires Bst(t)
    ensures var (a, b) := SplitTree(t, k, allowEquals);
      && Bst(a) && Bst(b)
      && (forall j :: j in Keys(a) <==> j in Keys(t) && Below(j, k, allowEquals))
      && (forall j :: j in Keys(b) <==> j in Keys(t) && !Below(j, k, allowEquals))
  {
    match t
    case Leaf =>
    case Node(l, _, key, _, r) =>
      var (a, b) := SplitTree(t, k, allowEquals);
      if GoesLeft(key, k, allowEquals) {
        SplitOrdered(r, k, allowEquals);
        SplitParts(r, k, allowEquals);
        var (a1, b1) := SplitTree(r, k, allowEquals);
        assert a == Node(l, t.id, key, t.prio, a1) && b == b1;
        assert Below(key, k, allowEquals);
        assert forall j :: j in Keys(l) ==> Below(j, k, allowEquals);
        assert Keys(a) == Keys(l) + {key} + Keys(a1);
      } else {
        SplitOrdered(l, k, allowEquals);
        SplitParts(l, k, allowEquals);
        assert forall j :: j in Keys(r) ==> !Below(j, k, allowEquals);
      }
  }

  lemma {:induction false} SplitHeap(t: Tree, k: int, allowEquals: bool)
    requires HeapOrdered(t)
    ensures var (a, b) := SplitTree(t, k, allowEquals);
      HeapOrdered(a) && HeapOrdered(b)
  {
    match t
    case Leaf =>
    case Node(l, _, key, _, r) =>
      if GoesLeft(key, k, allowEquals) {
        SplitHeap(r, k, allowEquals);
        SplitParts(r, k, allowEquals);
      } else {
        SplitHeap(l, k, allowEquals);
        SplitParts(l, k, allowEquals);
      }
  }

  lemma {:induction false} SplitDistinct(t: Tree, k: int, allowEquals: bool)
    requires Distinct(t)
    ensures var (a, b) := SplitTree(t, k, allowEquals);
      Distinct(a) && Distinct(b) && Ids(a) !! Ids(b)
  {
    match t
    case Leaf =>
    case Node(l, _, key, _, r) =>
      if GoesLeft(key, k, allowEquals) {
        SplitDistinct(r, k, allowEquals);
        SplitParts(r, k, allowEquals);
      } else {
        SplitDistinct(l, k, allowEquals);
        SplitParts(l, k, allowEquals);
      }
  }

  /** Merge neither loses nor invents a node. */
  lemma {:induction false} MergeParts(l: Tree, r: Tree)
    ensures Keys(MergeTree(l, r)) == Keys(l) + Keys(r)
    ensures Ids(MergeTree(l, r)) == Ids(l) + Ids(r)
    ensures Prios(MergeTree(l, r)) == Prios(l) + Prios(r)
    decreases l, r
  {
    if l.Leaf? || r.Leaf? {
    } else if l.prio < r.prio {
      MergeParts(l.right, r);
    } else {
      MergeParts(l, r.left);
    }
  }

  /** When every key of `l` is below every key of `r`, merging gives a search
      tree. */
  lemma {:induction false} MergeOrdered(l: Tree, r: Tree)
    requires Bst(l) && Bst(r)
    requires forall i, j :: i in Keys(l) && j in Keys(r) ==> i < j
    ensures Bst(MergeTree(l, r))
    decreases l, r
  {
    if l.Leaf? || r.Leaf? {
    } else if l.prio < r.prio {
      assert Keys(l.right) <= Keys(l);
      MergeOrdered(l.right, r);
      MergeParts(l.right, r);
      assert l.key in Keys(l);
    } else {
      assert Keys(r.left) <= Keys(r);
      MergeOrdered(l, r.left);
      MergeParts(l, r.left);
      assert r.key in Keys(r);
    }
  }

  lemma {:induction false} MergeHeap(l: Tree, r: Tree)
    requires HeapOrdered(l) && HeapOrdered(r)
    ensures HeapOrdered(MergeTree(l, r))
    decreases l, r
  {
    if l.Leaf? || r.Leaf? {
    } else if l.prio < r.prio {
      MergeHeap(l.right, r);
      MergeParts(l.right, r);
    } else {
      MergeHeap(l, r.left);
      MergeParts(l, r.left);
    }
  }

  lemma {:induction false} MergeDistinct(l: Tree, r: Tree)
    requires Distinct(l) && Distinct(r) && Ids(l) !! Ids(r)
    ensures Distinct(MergeTree(l, r))
    decreases l, r
  {
    if l.Leaf? || r.Leaf? {
    } else if l.prio < r.prio {
      MergeDistinct(l.right, r);
      MergeParts(l.right, r);
    } else {
      MergeDistinct(l, r.left);
      MergeParts(l, r.left);
    }
  }

  /** In a search tree the node count is the number of distinct keys. */
  lemma {:induction false} SizeCountsKeys(t: Tree)
    requires Bst(t)
    ensures Size(t) == |Keys(t)|
  {
    match t
    case Leaf =>
    case Node(l, _, key, _, r) =>
      SizeCountsKeys(l);
      SizeCountsKeys(r);
      var below := Keys(l) + Keys(r);
      assert |below| == |Keys(l)| + |Keys(r)| by {
        assert Keys(l) !! Keys(r) by {
          forall j | j in Keys(l) ensures j !in Keys(r) {
          }
        }
      }
      assert key !in below;
      assert Keys(t) == below + {key};
  }

  /** `split` of a treap gives two treaps that share out its nodes, the
      keys below the cut on the left. */
  lemma {:induction false} SplitTreaps(t: Tree, k: int, allowEquals: bool)
    requires IsTreap(t)
    ensures var (a, b) := SplitTree(t, k, allowEquals);
      && IsTreap(a) && IsTreap(b)
      && (forall j :: j in Keys(a) <==> j in Keys(t) && Below(j, k, allowEquals))
      && (forall j :: j in Keys(b) <==> j in Keys(t) && !Below(j, k, allowEquals))
      && Ids(a) + Ids(b) == Ids(t) && Ids(a) !! Ids(b)
  {
    SplitParts(t, k, allowEquals);
    SplitOrdered(t, k, allowEquals);
    SplitHeap(t, k, allowEquals);
    SplitDistinct(t, k, allowEquals);
  }

  /** A search tree whose keys are all `e` is empty or the single node `e`. */
  lemma {:induction false} OnlyKey(c: Tree, e: int)
    requires Bst(c)
    requires forall j :: j in Keys(c) ==> j == e
    ensures c.Node? ==> c.left.Leaf? && c.right.Leaf? && c.key == e
  {
    if c.Node? {
      assert c.key in Keys(c);
      assert Keys(c.left) <= Keys(c) && Keys(c.right) <= Keys(c);
    }
  }

  /** The three parts of a treap around the key `e`: the keys below `e`,
      the node holding `e` if there is one, and the keys above, each a treap,
      sharing out the nodes. */
  ghost predicate Around(t: Tree, e: int, a: Tree, c: Tree, d: Tree) {
    && IsTreap(a) && IsTreap(c) && IsTreap(d)
    && (forall j :: j in Keys(a) <==> j in Keys(t) && j < e)
    && (forall j :: j in Keys(c) <==> j in Keys(t) && j == e)
    && (forall j :: j in Keys(d) <==> j in Keys(t) && e < j)
    && (c.Node? ==> c.left.Leaf? && c.right.Leaf? && c.key == e)
    && (c.Node? <==> e in Keys(t))
    && Keys(a) + Keys(c) + Keys(d) == Keys(t)
    && Ids(a) + Ids(c) + Ids(d) == Ids(t)
    && Ids(a) !! Ids(c) && Ids(a) !! Ids(d) && Ids(c) !! Ids(d)
  }

  /** The two splits `add`, `contains` and `remove` begin with cut a treap
      into its three parts around `e`. */
  lemma {:induction false} Isolate(t: Tree, e: int)
    requires IsTreap(t)
    ensures var (a, b) := SplitTree(t, e, false);
      var (c, d) := SplitTree(b, e, true);
      Around(t, e, a, c, d)
  {
    var (a, b) := SplitTree(t, e, false);
    SplitTreaps(t, e, false);
    var (c, d) := SplitTree(b, e, true);
    SplitTreaps(b, e, true);
    OnlyKey(c, e);
    IsolateKeys(t, e);
  }

  /** The keys of the three parts make up those of the whole, and the middle
      part is empty exactly when `e` is not a key. */
  lemma {:induction false} IsolateKeys(t: Tree, e: int)
    requires Bst(t)
    ensures var (a, b) := SplitTree(t, e, false);
      var (c, d) := SplitTree(b, e, true);
      && Keys(a) + Keys(c) + Keys(d) == Keys(t)
      && (c.Node? <==> e in Keys(t))
  {
    var (a, b) := SplitTree(t, e, false);
    var (c, d) := SplitTree(b, e, true);
    assert Keys(a) + Keys(c) + Keys(d) == Keys(t) by {
      SplitParts(t, e, false);
      SplitParts(b, e, true);
    }
    assert c.Node? <==> e in Keys(t) by {
      SplitOrdered(t, e, false);
      SplitOrdered(b, e, true);
      if c.Node? {
        assert c.key in Keys(c);
      }
    }
  }

  /** `merge` of two treaps whose keys are in order is a treap holding the
      keys and nodes of both. */
  lemma {:induction false} MergeTreaps(l: Tree, r: Tree)
    requires IsTreap(l) && IsTreap(r)
    requires forall i, j :: i in Keys(l) && j in Keys(r) ==> i < j
    requires Ids(l) !! Ids(r)
    ensures IsTreap(MergeTree(l, r))
    ensures Keys(MergeTree(l, r)) == Keys(l) + Keys(r)
    ensures Ids(MergeTree(l, r)) == Ids(l) + Ids(r)
  {
    MergeParts(l, r);
    MergeOrdered(l, r);
    MergeHeap(l, r);
    MergeDistinct(l, r);
  }

  /** Merging the three parts back, in order, gives a treap holding all
      their keys and nodes. */
  lemma {:induction false} Reassemble(a: Tree, c: Tree, d: Tree)
    requires IsTreap(a) && IsTreap(c) && IsTreap(d)
    requires forall i, j :: i in Keys(a) && j in Keys(c) ==> i < j
    requires forall i, j :: i in Keys(a) && j in Keys(d) ==> i < j
    requires forall i, j :: i in Keys(c) && j in Keys(d) ==> i < j
    requires Ids(a) !! Ids(c) && Ids(a) !! Ids(d) && Ids(c) !! Ids(d)
    ensures IsTreap(MergeTree(c, d)) && IsTreap(MergeTree(a, MergeTree(c, d)))
    ensures Keys(MergeTree(a, MergeTree(c, d))) == Keys(a) + Keys(c) + Keys(d)
    ensures Ids(MergeTree(c, d)) == Ids(c) + Ids(d)
    ensures Ids(MergeTree(a, MergeTree(c, d))) == Ids(a) + Ids(c) + Ids(d)
  {
    MergeTreaps(c, d);
    MergeTreaps(a, MergeTree(c, d));
  }

  /** The cached size of the node `c` refers to, 0 for null. */
  function SizeField(a: seq<TreapNode>, c: int): int
    requires c == Null || 0 <= c < |a|
  {
    if c == Null then 0 else a[c].size
  }

  /** `a` with the parent link of `c` (unless null) set to `p`. */
  function Reparent(a: seq<TreapNode>, c: int, p: int): (b: seq<TreapNode>)
    requires c == Null || 0 <= c < |a|
    ensures |b| == |a|
  {
    if c == Null then a else a[c := a[c].(parent := p)]
  }

  /** The fields a node keeps when only its parent link changes. */
  predicate SameButParent(p: TreapNode, q: TreapNode) {
    p.x == q.x && p.y == q.y && p.left == q.left && p.right == q.right && p.size == q.size
  }

  /** The arena `a` holds the shape `t`: every node's key, priority, children
      and size are those of `t`, and every child links back to its parent.
      The parent link of the top node is not constrained. */
  ghost predicate Repr(a: seq<TreapNode>, t: Tree) {
    match t
    case Leaf => true
    case Node(l, id, key, p, r) =>
      && Repr(a, l) && Repr(a, r)
      && 0 <= id < |a|
      && a[id].x == key && a[id].y == p
      && a[id].left == Root(l) && a[id].right == Root(r)
      && a[id].size == Size(t)
      && (l.Node? ==> a[l.id].parent == id)
      && (r.Node? ==> a[r.id].parent == id)
  }

  /** Every node of a represented shape is an arena entry. */
  lemma {:induction false} ReprIds(a: seq<TreapNode>, t: Tree)
    requires Repr(a, t)
    ensures forall m :: m in Ids(t) ==> 0 <= m < |a|
  {
    if t.Node? {
      ReprIds(a, t.left);
      ReprIds(a, t.right);
    }
  }

  /** A shape stays represented when none of its nodes changes, except for
      the parent link of its top node. */
  lemma {:induction false} ReprFrame(a: seq<TreapNode>, b: seq<TreapNode>, t: Tree)
    requires Repr(a, t) && Distinct(t) && |a| <= |b|
    requires forall m :: m in Ids(t) && 0 <= m < |a| ==> SameButParent(a[m], b[m])
    requires forall m :: m in Ids(t) && m != Root(t) && 0 <= m < |a| ==> a[m].parent == b[m].parent
    ensures Repr(b, t)
  {
    if t.Node? {
      ReprIds(a, t);
      ReprFrame(a, b, t.left);
      ReprFrame(a, b, t.right);
    }
  }

  /** `b` differs from `a` only at the entries in `s`, and no key or priority
      changes anywhere. */
  ghost predicate Keeps(a: seq<TreapNode>, b: seq<TreapNode>, s: set<int>) {
    && |a| == |b|
    && (forall m :: 0 <= m < |a| && m !in s ==> a[m] == b[m])
    && (forall m :: 0 <= m < |a| ==> a[m].x == b[m].x && a[m].y == b[m].y)
  }

  lemma KeepsTrans(a: seq<TreapNode>, b: seq<TreapNode>, c: seq<TreapNode>, s: set<int>)
    requires Keeps(a, b, s) && Keeps(b, c, s)
    ensures Keeps(a, c, s)
  {
  }

  /** A shape none of whose nodes changes stays represented. */
  lemma ReprKept(a: seq<TreapNode>, b: seq<TreapNode>, t: Tree, s: set<int>)
    requires Repr(a, t) && Distinct(t) && Keeps(a, b, s) && Ids(t) !! s
    ensures Repr(b, t)
  {
    ReprIds(a, t);
    ReprFrame(a, b, t);
  }

  /** A shape stays represented when the parent link of its top changes. */
  lemma ReprReparent(a: seq<TreapNode>, t: Tree, p: int)
    requires Repr(a, t) && Distinct(t)
    ensures Repr(Reparent(a, Root(t), p), t)
    ensures Keeps(a, Reparent(a, Root(t), p), Ids(t) * {Root(t)})
  {
    ReprIds(a, t);
    ReprFrame(a, Reparent(a, Root(t), p), t);
  }

  /** The arena after `setRight(n, child)`. */
  function WithRight(a: seq<TreapNode>, n: int, child: int): (b: seq<TreapNode>)
    requires 0 <= n < |a| && (a[n].left == Null || 0 <= a[n].left < |a|)
    requires child == Null || 0 <= child < |a|
    ensures |b| == |a|
  {
    Reparent(a, child, n)[n := a[n].(right := child, size := 1 + SizeField(a, a[n].left) + SizeField(a, child))]
  }

  /** The arena after `setLeft(n, child)`. */
  function WithLeft(a: seq<TreapNode>, n: int, child: int): (b: seq<TreapNode>)
    requires 0 <= n < |a| && (a[n].right == Null || 0 <= a[n].right < |a|)
    requires child == Null || 0 <= child < |a|
    ensures |b| == |a|
  {
    Reparent(a, child, n)[n := a[n].(left := child, size := 1 + SizeField(a, child) + SizeField(a, a[n].right))]
  }

  /** Hanging the shape `m` as the right child of node `n`, whose left child
      is the shape `l`, makes `n` represent the combined shape; only `n` and
      the top of `m` change. */
  lemma AttachRight(a: seq<TreapNode>, n: int, key: int, prio: int, l: Tree, m: Tree)
    requires Repr(a, l) && Repr(a, m) && Distinct(l) && Distinct(m) && Ids(l) !! Ids(m)
    requires 0 <= n < |a| && n !in Ids(l) && n !in Ids(m)
    requires a[n].x == key && a[n].y == prio && a[n].left == Root(l)
    requires l.Node? ==> a[l.id].parent == n
    ensures a[n].left == Null || 0 <= a[n].left < |a|
    ensures Repr(WithRight(a, n, Root(m)), Node(l, n, key, prio, m))
    ensures Keeps(a, WithRight(a, n, Root(m)), {n} + Ids(m))
  {
    ReprIds(a, l);
    ReprIds(a, m);
    var a1 := Reparent(a, Root(m), n);
    ReprReparent(a, m, n);
    ReprKept(a, a1, l, Ids(m));
    var b := WithRight(a, n, Root(m));
    ReprKept(a1, b, l, {n});
    ReprKept(a1, b, m, {n});
  }

  /** The mirror image of `AttachRight`. */
  lemma AttachLeft(a: seq<TreapNode>, n: int, key: int, prio: int, m: Tree, r: Tree)
    requires Repr(a, m) && Repr(a, r) && Distinct(m) && Distinct(r) && Ids(m) !! Ids(r)
    requires 0 <= n < |a| && n !in Ids(m) && n !in Ids(r)
    requires a[n].x == key && a[n].y == prio && a[n].right == Root(r)
    requires r.Node? ==> a[r.id].parent == n
    ensures a[n].right == Null || 0 <= a[n].right < |a|
    ensures Repr(WithLeft(a, n, Root(m)), Node(m, n, key, prio, r))
    ensures Keeps(a, WithLeft(a, n, Root(m)), {n} + Ids(m))
  {
    ReprIds(a, r);
    ReprIds(a, m);
    var a1 := Reparent(a, Root(m), n);
    ReprReparent(a, m, n);
    ReprKept(a, a1, r, Ids(m));
    var b := WithLeft(a, n, Root(m));
    ReprKept(a1, b, r, {n});
    ReprKept(a1, b, m, {n});
  }

  lemma KeepsWeaken(a: seq<TreapNode>, b: seq<TreapNode>, s: set<int>, s': set<int>)
    requires Keeps(a, b, s) && s <= s'
    ensures Keeps(a, b, s')
  {
  }

  /** Clearing the parent links of the tops of two disjoint shapes keeps both
      represented. */
  lemma Detach(a: seq<TreapNode>, l: Tree, r: Tree)
    requires Repr(a, l) && Repr(a, r) && Distinct(l) && Distinct(r) && Ids(l) !! Ids(r)
    ensures var b := Reparent(Reparent(a, Root(l), Null), Root(r), Null);
      && Repr(b, l) && Repr(b, r) && Keeps(a, b, Ids(l) + Ids(r))
      && (l.Node? ==> b[l.id].parent == Null)
      && (r.Node? ==> b[r.id].parent == Null)
  {
    var a1 := Reparent(a, Root(l), Null);
    ReprReparent(a, l, Null);
    ReprKept(a, a1, r, Ids(l) * {Root(l)});
    var b := Reparent(a1, Root(r), Null);
    ReprReparent(a1, r, Null);
    ReprKept(a1, b, l, Ids(r) * {Root(r)});
  }

  /** Creating a node leaves every existing shape represented. */
  lemma ReprGrow(a: seq<TreapNode>, t: Tree, v: TreapNode)
    requires Repr(a, t) && Distinct(t)
    ensures Repr(a + [v], t)
  {
    ReprIds(a, t);
    ReprFrame(a, a + [v], t);
  }

  /** The key stored in a node of a represented shape is one of its keys. */
  lemma {:induction false} ReprKeys(a: seq<TreapNode>, t: Tree)
    requires Repr(a, t)
    ensures forall m :: m in Ids(t) ==> 0 <= m < |a| && a[m].x in Keys(t)
  {
    if t.Node? {
      ReprKeys(a, t.left);
      ReprKeys(a, t.right);
    }
  }

  /** The top of a merge is the top of one of its operands. */
  lemma MergeRoot(l: Tree, r: Tree)
    ensures Root(MergeTree(l, r)) == Root(l) || Root(MergeTree(l, r)) == Root(r)
  {
  }

  /** The three parts a treap is cut into around the key `e`, as the arena
      holds them: each a treap of its own, their keys below, at and above
      `e`, no node shared, and no parent above any of their tops. */
  ghost predicate Pieces(n: seq<TreapNode>, e: int, a: int, c: int, d: int, A: Tree, C: Tree, D: Tree) {
    && Repr(n, A) && Repr(n, C) && Repr(n, D)
    && IsTreap(A) && IsTreap(C) && IsTreap(D)
    && (forall j :: j in Keys(A) ==> j < e)
    && (forall j :: j in Keys(C) ==> j == e)
    && (forall j :: j in Keys(D) ==> e < j)
    && Ids(A) !! Ids(C) && Ids(A) !! Ids(D) && Ids(C) !! Ids(D)
    && a == Root(A) && c == Root(C) && d == Root(D)
    && (a != Null ==> n[a].parent == Null)
    && (c != Null ==> n[c].parent == Null)
    && (d != Null ==> n[d].parent == Null)
  }

  /** A fresh single node holding `e`, put between parts whose keys are
      below and above `e`, makes the three parts again. */
  lemma {:induction false} NewMiddle(n: seq<TreapNode>, e: int, a: int, c: int, d: int, A: Tree, C: Tree, D: Tree, prio: int)
    requires Pieces(n, e, a, c, d, A, C, D) && c == Null
    ensures C == Leaf
    ensures var v := |n|;
      Pieces(n + [TreapNode(e, prio, Null, Null, Null, 1)], e, a, v, d, A, Node(Leaf, v, e, prio, Leaf), D)
  {
    var v := TreapNode(e, prio, Null, Null, Null, 1);
    var n', c' := n + [v], Node(Leaf, |n|, e, prio, Leaf);
    ReprIds(n, A);
    ReprIds(n, D);
    ReprGrow(n, A, v);
    ReprGrow(n, D, v);
    assert Keys(Leaf) == {} && Ids(Leaf) == {} && Size(Leaf) == 0;
    assert Keys(c') == Keys(Leaf) + {e} + Keys(Leaf) && Ids(c') == Ids(Leaf) + {|n|} + Ids(Leaf);
    assert Size(c') == 1 + Size(Leaf) + Size(Leaf);
    assert Repr(n', c') && IsTreap(c');
    assert Ids(A) !! Ids(c') && Ids(c') !! Ids(D);
    assert (a != Null ==> n'[a] == n[a]) && (d != Null ==> n'[d] == n[d]);
  }

  /** How the keys and nodes of the whole treap change when `add` puts the
      middle part `c` (a new node `id` when `added`, else the old middle `c0`)
      back between the outer parts. */
  lemma {:induction false} AddSets(t0: Tree, t1: Tree, e: int, a: Tree, c0: Tree, c: Tree, d: Tree, id: int, added: bool)
    requires Keys(a) + Keys(c0) + Keys(d) == Keys(t0) && Ids(a) + Ids(c0) + Ids(d) == Ids(t0)
    requires Keys(t1) == Keys(a) + Keys(c) + Keys(d) && Ids(t1) == Ids(a) + Ids(c) + Ids(d)
    requires c0.Node? <==> e in Keys(t0)
    requires c0.Node? ==> c0.left.Leaf? && c0.right.Leaf? && c0.key == e
    requires added ==> c0 == Leaf && c.Node? && c.left.Leaf? && c.right.Leaf? && c.key == e && c.id == id
    requires !added ==> c == c0 && c0.Node?
    ensures added <==> e !in Keys(t0)
    ensures Keys(t1) == Keys(t0) + {e}
    ensures Ids(t1) == Ids(t0) + (if added then {id} else {})
  {
  }

  /** The middle part holds exactly the nodes whose key is `o`. */
  lemma {:induction false} PiecesKeys(n: seq<TreapNode>, o: int, a: int, c: int, d: int, A: Tree, C: Tree, D: Tree)
    requires Pieces(n, o, a, c, d, A, C, D)
    requires C.Node? ==> C.left.Leaf? && C.right.Leaf? && C.key == o
    ensures forall m :: m in Ids(A) + Ids(C) + Ids(D) ==> 0 <= m < |n| && (m in Ids(C) <==> n[m].x == o)
  {
    ReprKeys(n, A);
    ReprKeys(n, C);
    ReprKeys(n, D);
  }

  /** The outer parts of a cut merge into one treap without the middle. */
  lemma {:induction false} PiecesOuter(n: seq<TreapNode>, o: int, a: int, c: int, d: int, A: Tree, C: Tree, D: Tree)
    requires Pieces(n, o, a, c, d, A, C, D)
    ensures IsTreap(MergeTree(A, D))
    ensures Keys(MergeTree(A, D)) == Keys(A) + Keys(D)
    ensures Ids(MergeTree(A, D)) == Ids(A) + Ids(D)
    ensures Root(MergeTree(A, D)) == a || Root(MergeTree(A, D)) == d
  {
    MergeTreaps(A, D);
    MergeRoot(A, D);
  }

  /** How the keys and nodes of the whole treap change when `remove` merges
      the outer parts and drops the middle `c`, which holds the nodes keyed
      `o` in the arena `n`. */
  lemma {:induction false} RemoveSets(n: seq<TreapNode>, t0: Tree, t1: Tree, o: int, a: Tree, c: Tree, d: Tree, removed: bool)
    requires Keys(a) + Keys(c) + Keys(d) == Keys(t0) && Ids(a) + Ids(c) + Ids(d) == Ids(t0)
    requires Keys(t1) == Keys(a) + Keys(d) && Ids(t1) == Ids(a) + Ids(d)
    requires Ids(a) !! Ids(c) && Ids(c) !! Ids(d)
    requires forall j :: j in Keys(a) ==> j < o
    requires forall j :: j in Keys(d) ==> o < j
    requires c.Node? <==> o in Keys(t0)
    requires c.Node? ==> c.left.Leaf? && c.right.Leaf? && c.key == o
    requires removed <==> c.Node?
    requires forall m :: m in Ids(t0) ==> 0 <= m < |n| && (m in Ids(c) <==> n[m].x == o)
    ensures removed <==> o in Keys(t0)
    ensures Keys(t1) == Keys(t0) - {o}
    ensures Ids(t1) <= Ids(t0)
    ensures forall m :: 0 <= m < |n| ==> (m in Ids(t1) <==> m in Ids(t0) && n[m].x != o)
  {
  }

  class TreeSetImpl {
    /** The TreapNode objects ever created, by reference. */
    var nodes: seq<TreapNode>
    var root: int
    /** The shape `root` stands for. */
    ghost var tree: Tree

    ghost predicate Valid()
      reads this
    {
      && Repr(nodes, tree) && IsTreap(tree) && root == Root(tree)
      && (root != Null ==> nodes[root].parent == Null)
    }

    /** The set's elements. */
    ghost function Contents(): set<int>
      reads this
    {
      Keys(tree)
    }

    constructor ()
      ensures Valid() && Contents() == {} && nodes == []
    {
      nodes := [];
      root := Null;
      tree := Leaf;
    }

    /** `TreapNode.invalidate`: the size is one more than the children's. */
    method Invalidate(n: int)
      requires 0 <= n < |nodes|
      requires nodes[n].left == Null || 0 <= nodes[n].left < |nodes|
      requires nodes[n].right == Null || 0 <= nodes[n].right < |nodes|
      modifies this`nodes
      ensures nodes == old(nodes)[n := old(nodes)[n].(size :=
        1 + SizeField(old(nodes), old(nodes)[n].left) + SizeField(old(nodes), old(nodes)[n].right))]
    {
      var size := 1;
      if nodes[n].left != Null {
        size := size + nodes[nodes[n].left].size;
      }
      if nodes[n].right != Null {
        size := size + nodes[nodes[n].right].size;
      }
      nodes := nodes[n := nodes[n].(size := size)];
    }

    /** `TreapNode.setLeft`: link the child both ways and recompute the size. */
    method SetLeft(n: int, child: int)
      requires 0 <= n < |nodes| && child != n
      requires child == Null || 0 <= child < |nodes|
      requires nodes[n].right == Null || 0 <= nodes[n].right < |nodes|
      modifies this`nodes
      ensures nodes == WithLeft(old(nodes), n, child)
    {
      nodes := nodes[n := nodes[n].(left := child)];
      if child != Null {
        nodes := nodes[child := nodes[child].(parent := n)];
      }
      Invalidate(n);
    }

    /** `TreapNode.setRight`, the mirror image. */
    method SetRight(n: int, child: int)
      requires 0 <= n < |nodes| && child != n
      requires child == Null || 0 <= child < |nodes|
      requires nodes[n].left == Null || 0 <= nodes[n].left < |nodes|
      modifies this`nodes
      ensures nodes == WithRight(old(nodes), n, child)
    {
      nodes := nodes[n := nodes[n].(right := child)];
      if child != Null {
        nodes := nodes[child := nodes[child].(parent := n)];
      }
      Invalidate(n);
    }

    /** `split`: cuts the shape under `t` into the part whose keys go left and
        the rest, reusing the same nodes; both new tops have no parent. */
    method Split(t: int, k: int, allowEquals: bool, ghost T: Tree) returns (l: int, r: int)
      requires Repr(nodes, T) && Distinct(T) && t == Root(T)
      modifies this`nodes
      ensures Keeps(old(nodes), nodes, Ids(T))
      ensures Repr(nodes, SplitTree(T, k, allowEquals).0) && l == Root(SplitTree(T, k, allowEquals).0)
      ensures Repr(nodes, SplitTree(T, k, allowEquals).1) && r == Root(SplitTree(T, k, allowEquals).1)
      ensures l != Null ==> nodes[l].parent == Null
      ensures r != Null ==> nodes[r].parent == Null
      decreases T, 1
    {
      if t == Null {
        return Null, Null;
      }
      ghost var s0 := nodes;
      ghost var (L, R) := SplitTree(T, k, allowEquals);
      var testedValue := if allowEquals then 1 else 0;
      if Compare(nodes[t].x, k) < testedValue {
        l, r := SplitRightChild(t, k, allowEquals, T);
      } else {
        l, r := SplitLeftChild(t, k, allowEquals, T);
      }
      ghost var s3 := nodes;
      if l != Null {
        nodes := nodes[l := nodes[l].(parent := Null)];
      }
      if r != Null {
        nodes := nodes[r := nodes[r].(parent := Null)];
      }
      assert nodes == Reparent(Reparent(s3, Root(L), Null), Root(R), Null);
      assert Ids(L) + Ids(R) == Ids(T) && Ids(L) !! Ids(R) && Distinct(L) && Distinct(R) by {
        SplitParts(T, k, allowEquals);
        SplitDistinct(T, k, allowEquals);
      }
      Detach(s3, L, R);
      KeepsTrans(s0, s3, nodes, Ids(T));
    }

    /** The case of `split` where the top node goes left: it keeps its left
        child and takes the left part of the split of its right child. */
    method SplitRightChild(t: int, k: int, allowEquals: bool, ghost T: Tree) returns (l: int, r: int)
      requires Repr(nodes, T) && Distinct(T) && t == Root(T) && T.Node?
      requires GoesLeft(T.key, k, allowEquals)
      modifies this`nodes
      ensures Keeps(old(nodes), nodes, Ids(T))
      ensures Repr(nodes, SplitTree(T, k, allowEquals).0) && l == Root(SplitTree(T, k, allowEquals).0)
      ensures Repr(nodes, SplitTree(T, k, allowEquals).1) && r == Root(SplitTree(T, k, allowEquals).1)
      decreases T, 0
    {
      ghost var s0 := nodes;
      var c := nodes[t].right;
      if c != Null {
        nodes := nodes[c := nodes[c].(parent := Null)];
      }
      ghost var s1 := nodes;
      assert Repr(s1, T.right) && Repr(s1, T.left) && Keeps(s0, s1, Ids(T)) && s1[t] == s0[t] by {
        assert s1 == Reparent(s0, Root(T.right), Null);
        ReprReparent(s0, T.right, Null);
        ReprKept(s0, s1, T.left, Ids(T.right) * {c});
        KeepsWeaken(s0, s1, Ids(T.right) * {c}, Ids(T));
      }
      var a, b := Split(c, k, allowEquals, T.right);
      ghost var (A, B) := SplitTree(T.right, k, allowEquals);
      ghost var s2 := nodes;
      assert Repr(s2, T.left) && Keeps(s0, s2, Ids(T)) && s2[t] == s0[t]
          && Distinct(A) && Distinct(B) && Ids(A) + Ids(B) == Ids(T.right) && Ids(A) !! Ids(B) by {
        SplitParts(T.right, k, allowEquals);
        SplitDistinct(T.right, k, allowEquals);
        ReprKept(s1, s2, T.left, Ids(T.right));
        KeepsWeaken(s1, s2, Ids(T.right), Ids(T));
        KeepsTrans(s0, s1, s2, Ids(T));
      }
      l, r := t, b;
      AttachRight(s2, t, T.key, T.prio, T.left, A);
      SetRight(t, a);
      assert Repr(nodes, B) && Keeps(s0, nodes, Ids(T)) by {
        ReprKept(s2, nodes, B, {t} + Ids(A));
        KeepsWeaken(s2, nodes, {t} + Ids(A), Ids(T));
        KeepsTrans(s0, s2, nodes, Ids(T));
      }
    }

    /** The mirror case: the top node goes right, keeping its right child and
        taking the right part of the split of its left child. */
    method SplitLeftChild(t: int, k: int, allowEquals: bool, ghost T: Tree) returns (l: int, r: int)
      requires Repr(nodes, T) && Distinct(T) && t == Root(T) && T.Node?
      requires !GoesLeft(T.key, k, allowEquals)
      modifies this`nodes
      ensures Keeps(old(nodes), nodes, Ids(T))
      ensures Repr(nodes, SplitTree(T, k, allowEquals).0) && l == Root(SplitTree(T, k, allowEquals).0)
      ensures Repr(nodes, SplitTree(T, k, allowEquals).1) && r == Root(SplitTree(T, k, allowEquals).1)
      decreases T, 0
    {
      ghost var s0 := nodes;
      var c := nodes[t].left;
      if c != Null {
        nodes := nodes[c := nodes[c].(parent := Null)];
      }
      ghost var s1 := nodes;
      assert Repr(s1, T.left) && Repr(s1, T.right) && Keeps(s0, s1, Ids(T)) && s1[t] == s0[t] by {
        assert s1 == Reparent(s0, Root(T.left), Null);
        ReprReparent(s0, T.left, Null);
        ReprKept(s0, s1, T.right, Ids(T.left) * {c});
        KeepsWeaken(s0, s1, Ids(T.left) * {c}, Ids(T));
      }
      var a, b := Split(c, k, allowEquals, T.left);
      ghost var (A, B) := SplitTree(T.left, k, allowEquals);
      ghost var s2 := nodes;
      assert Repr(s2, T.right) && Keeps(s0, s2, Ids(T)) && s2[t] == s0[t]
          && Distinct(A) && Distinct(B) && Ids(A) + Ids(B) == Ids(T.left) && Ids(A) !! Ids(B) by {
        SplitParts(T.left, k, allowEquals);
        SplitDistinct(T.left, k, allowEquals);
        ReprKept(s1, s2, T.right, Ids(T.left));
        KeepsWeaken(s1, s2, Ids(T.left), Ids(T));
        KeepsTrans(s0, s1, s2, Ids(T));
      }
      l, r := a, t;
      AttachLeft(s2, t, T.key, T.prio, B, T.right);
      SetLeft(t, b);
      assert Repr(nodes, A) && Keeps(s0, nodes, Ids(T)) by {
        ReprKept(s2, nodes, A, {t} + Ids(B));
        KeepsWeaken(s2, nodes, {t} + Ids(B), Ids(T));
        KeepsTrans(s0, s2, nodes, Ids(T));
      }
    }

    /** `merge`: joins two shapes whose keys are in order, the top with the
        smaller priority above; the top keeps its own parent link. */
    method Merge(l: int, r: int, ghost L: Tree, ghost R: Tree) returns (t: int)
      requires Repr(nodes, L) && Repr(nodes, R) && Distinct(L) && Distinct(R) && Ids(L) !! Ids(R)
      requires l == Root(L) && r == Root(R)
      modifies this`nodes
      ensures Keeps(old(nodes), nodes, Ids(L) + Ids(R))
      ensures Repr(nodes, MergeTree(L, R)) && t == Root(MergeTree(L, R))
      ensures t != Null ==> nodes[t].parent == old(nodes)[t].parent
      decreases L, R, 1
    {
      if l == Null {
        return r;
      }
      if r == Null {
        return l;
      }
      if nodes[l].y < nodes[r].y {
        t := MergeUnderLeft(l, r, L, R);
      } else {
        t := MergeUnderRight(l, r, L, R);
      }
    }

    /** The case of `merge` where the left top stays on top: its right child
        becomes the merge of that child with the right shape. */
    method MergeUnderLeft(l: int, r: int, ghost L: Tree, ghost R: Tree) returns (t: int)
      requires Repr(nodes, L) && Repr(nodes, R) && Distinct(L) && Distinct(R) && Ids(L) !! Ids(R)
      requires l == Root(L) && r == Root(R) && L.Node? && R.Node? && L.prio < R.prio
      modifies this`nodes
      ensures Keeps(old(nodes), nodes, Ids(L) + Ids(R))
      ensures Repr(nodes, MergeTree(L, R)) && t == Root(MergeTree(L, R))
      ensures nodes[t].parent == old(nodes)[t].parent
      decreases L, R, 0
    {
      ghost var s0 := nodes;
      var m := Merge(nodes[l].right, r, L.right, R);
      ghost var M := MergeTree(L.right, R);
      ghost var s1 := nodes;
      assert Repr(s1, L.left) && s1[l] == s0[l] && Keeps(s0, s1, Ids(L) + Ids(R))
          && Distinct(M) && Ids(M) == Ids(L.right) + Ids(R) by {
        MergeParts(L.right, R);
        MergeDistinct(L.right, R);
        ReprKept(s0, s1, L.left, Ids(L.right) + Ids(R));
        KeepsWeaken(s0, s1, Ids(L.right) + Ids(R), Ids(L) + Ids(R));
      }
      AttachRight(s1, l, L.key, L.prio, L.left, M);
      SetRight(l, m);
      assert Keeps(s0, nodes, Ids(L) + Ids(R)) by {
        KeepsWeaken(s1, nodes, {l} + Ids(M), Ids(L) + Ids(R));
        KeepsTrans(s0, s1, nodes, Ids(L) + Ids(R));
      }
      return l;
    }

    /** The mirror case: the right top stays on top, and its left child
        becomes the merge of the left shape with that child. */
    method MergeUnderRight(l: int, r: int, ghost L: Tree, ghost R: Tree) returns (t: int)
      requires Repr(nodes, L) && Repr(nodes, R) && Distinct(L) && Distinct(R) && Ids(L) !! Ids(R)
      requires l == Root(L) && r == Root(R) && L.Node? && R.Node? && !(L.prio < R.prio)
      modifies this`nodes
      ensures Keeps(old(nodes), nodes, Ids(L) + Ids(R))
      ensures Repr(nodes, MergeTree(L, R)) && t == Root(MergeTree(L, R))
      ensures nodes[t].parent == old(nodes)[t].parent
      decreases L, R, 0
    {
      ghost var s0 := nodes;
      var m := Merge(l, nodes[r].left, L, R.left);
      ghost var M := MergeTree(L, R.left);
      ghost var s1 := nodes;
      assert Repr(s1, R.right) && s1[r] == s0[r] && Keeps(s0, s1, Ids(L) + Ids(R))
          && Distinct(M) && Ids(M) == Ids(L) + Ids(R.left) by {
        MergeParts(L, R.left);
        MergeDistinct(L, R.left);
        ReprKept(s0, s1, R.right, Ids(L) + Ids(R.left));
        KeepsWeaken(s0, s1, Ids(L) + Ids(R.left), Ids(L) + Ids(R));
      }
      AttachLeft(s1, r, R.key, R.prio, M, R.right);
      SetLeft(r, m);
      assert Keeps(s0, nodes, Ids(L) + Ids(R)) by {
        KeepsWeaken(s1, nodes, {r} + Ids(M), Ids(L) + Ids(R));
        KeepsTrans(s0, s1, nodes, Ids(L) + Ids(R));
      }
      return r;
    }

    /** The two splits `add`, `contains` and `remove` begin with:
        `split(root, e, false)`, then `split` of its right part with
        `allowEquals`. */
    method SplitAround(e: int) returns (a: int, c: int, d: int, ghost A: Tree, ghost C: Tree, ghost D: Tree)
      requires Valid()
      modifies this`nodes
      ensures Keeps(old(nodes), nodes, Ids(tree))
      ensures Pieces(nodes, e, a, c, d, A, C, D)
      ensures Keys(A) + Keys(C) + Keys(D) == Keys(tree)
      ensures Ids(A) + Ids(C) + Ids(D) == Ids(tree)
      ensures C.Node? <==> e in Keys(tree)
      ensures C.Node? ==> C.left.Leaf? && C.right.Leaf? && C.key == e
    {
      ghost var n0 := nodes;
      var b;
      a, b := Split(root, e, false, tree);
      ghost var B;
      A, B := SplitTree(tree, e, false).0, SplitTree(tree, e, false).1;
      assert Distinct(A) && Distinct(B) && Ids(A) !! Ids(B) && Ids(A) + Ids(B) == Ids(tree) by {
        SplitParts(tree, e, false);
        SplitDistinct(tree, e, false);
      }
      ghost var n1 := nodes;
      c, d := Split(b, e, true, B);
      C, D := SplitTree(B, e, true).0, SplitTree(B, e, true).1;
      assert Repr(nodes, A) && Keeps(n0, nodes, Ids(tree)) && (a != Null ==> nodes[a].parent == Null) by {
        ReprIds(n1, A);
        ReprKept(n1, nodes, A, Ids(B));
        KeepsWeaken(n1, nodes, Ids(B), Ids(tree));
        KeepsTrans(n0, n1, nodes, Ids(tree));
      }
      Isolate(tree, e);
    }

    /** `root = merge(p1.l, merge(p2.l, p2.r))`, the end of `add` and
        `contains`: the three parts, in key order, become the whole treap. */
    method Rejoin(ghost e: int, a: int, c: int, d: int, ghost A: Tree, ghost C: Tree, ghost D: Tree)
      requires Pieces(nodes, e, a, c, d, A, C, D)
      modifies this`nodes, this`root, this`tree
      ensures Valid()
      ensures Keys(tree) == Keys(A) + Keys(C) + Keys(D)
      ensures Ids(tree) == Ids(A) + Ids(C) + Ids(D)
      ensures Keeps(old(nodes), nodes, Ids(A) + Ids(C) + Ids(D))
    {
      ghost var n0 := nodes;
      Reassemble(A, C, D);
      var m := Merge(c, d, C, D);
      ghost var M := MergeTree(C, D);
      ghost var n1 := nodes;
      assert Repr(n1, A) && (a != Null ==> n1[a].parent == Null) && (m != Null ==> n1[m].parent == Null) by {
        ReprIds(n0, A);
        ReprKept(n0, n1, A, Ids(C) + Ids(D));
        MergeRoot(C, D);
      }
      root := Merge(a, m, A, M);
      tree := MergeTree(A, M);
      assert Keeps(n0, nodes, Ids(A) + Ids(C) + Ids(D)) by {
        KeepsWeaken(n0, n1, Ids(C) + Ids(D), Ids(A) + Ids(C) + Ids(D));
        KeepsWeaken(n1, nodes, Ids(A) + Ids(M), Ids(A) + Ids(C) + Ids(D));
        KeepsTrans(n0, n1, nodes, Ids(A) + Ids(C) + Ids(D));
      }
      MergeRoot(A, M);
    }

    /** `size`: the cached size of the root, the number of elements. */
    method Size() returns (r: int)
      requires Valid()
      ensures r == |Contents()|
    {
      SizeCountsKeys(tree);
      r := if root != Null then nodes[root].size else 0;
    }

    /** `add`: the node holding `e`, if any, is cut out and put back; when
        there is none a new node with the given priority is created in its
        place. The result says whether the set changed. */
    method Add(e: int, priority: int) returns (added: bool)
      requires Valid()
      modifies this
      ensures Valid()
      ensures added <==> e !in old(Contents())
      ensures Contents() == old(Contents()) + {e}
      ensures |nodes| == |old(nodes)| + (if added then 1 else 0)
      ensures Ids(tree) == old(Ids(tree)) + (if added then {|old(nodes)|} else {})
      ensures forall m :: 0 <= m < |old(nodes)| ==> nodes[m].x == old(nodes)[m].x
    {
      ghost var t0, n0 := tree, nodes;
      var a, c, d, A, C, D := SplitAround(e);
      ghost var C0, n1 := C, nodes;
      added := false;
      if c == Null {
        NewMiddle(nodes, e, a, c, d, A, C, D, priority);
        c := |nodes|;
        nodes := nodes + [TreapNode(e, priority, Null, Null, Null, 1)];
        C := Node(Leaf, c, e, priority, Leaf);
        added := true;
      }
      ghost var n2 := nodes;
      assert Keeps(n0, n2[..|n0|], Ids(t0)) && |n2| == |n0| + (if added then 1 else 0);
      Rejoin(e, a, c, d, A, C, D);
      AddSets(t0, tree, e, A, C0, C, D, |n0|, added);
    }

    /** `contains`: cut the treap around `o` and put it back; `o` is an
        element exactly when the middle part is not empty. */
    method Contains(o: int) returns (found: bool)
      requires Valid()
      modifies this
      ensures Valid()
      ensures found <==> o in old(Contents())
      ensures Contents() == old(Contents())
      ensures |nodes| == |old(nodes)| && Ids(tree) == old(Ids(tree))
      ensures forall m :: 0 <= m < |old(nodes)| ==> nodes[m].x == old(nodes)[m].x
    {
      var a, c, d, A, C, D := SplitAround(o);
      found := false;
      if c != Null {
        found := true;
      }
      Rejoin(o, a, c, d, A, C, D);
    }

    /** `remove`: cut the treap around `o` and merge the outer parts only,
        which leaves the node holding `o` out. */
    method Remove(o: int) returns (removed: bool)
      requires Valid()
      modifies this
      ensures Valid()
      ensures removed <==> o in old(Contents())
      ensures Contents() == old(Contents()) - {o}
      ensures |nodes| == |old(nodes)|
      ensures Ids(tree) <= old(Ids(tree))
      ensures forall m :: 0 <= m < |old(nodes)| ==> (m in Ids(tree) <==> m in old(Ids(tree)) && old(nodes)[m].x != o)
      ensures forall m :: 0 <= m < |old(nodes)| ==> nodes[m].x == old(nodes)[m].x
    {
      ghost var t0, n0 := tree, nodes;
      var a, c, d, A, C, D := SplitAround(o);
      removed := false;
      if c != Null {
        removed := true;
      }
      ghost var n1 := nodes;
      PiecesKeys(n1, o, a, c, d, A, C, D);
      PiecesOuter(n1, o, a, c, d, A, C, D);
      root := Merge(a, d, A, D);
      tree := MergeTree(A, D);
      assert Keeps(n0, nodes, Ids(t0)) by {
        KeepsWeaken(n1, nodes, Ids(A) + Ids(D), Ids(t0));
        KeepsTrans(n0, n1, nodes, Ids(t0));
      }
      RemoveSets(n0, t0, tree, o, A, C, D, removed);
    }
  }

  /** The path from the top of a shape down to one of its subtrees: at each
      step the subtree is the left or the right child of the node named. */
  datatype Ctx = Top
    | InLeft(id: int, key: int, prio: int, right: Tree, up: Ctx)
    | InRight(left: Tree, id: int, key: int, prio: int, up: Ctx)

  /** The node just above `s` on the path. */
  function Frame(ctx: Ctx, s: Tree): Tree {
    match ctx
    case Top => s
    case InLeft(id, key, prio, right, _) => Node(s, id, key, prio, right)
    case InRight(left, id, key, prio, _) => Node(left, id, key, prio, s)
  }

  /** The whole shape, `s` put back in its place. */
  function Plug(ctx: Ctx, s: Tree): Tree
    decreases ctx
  {
    if ctx.Top? then s else Plug(ctx.up, Frame(ctx, s))
  }

  /** The path from the top of `t` to the node `n`, and the subtree there. */
  function Locate(ctx: Ctx, t: Tree, n: int): (r: (Ctx, Tree))
    requires n in Ids(t)
    ensures Plug(r.0, r.1) == Plug(ctx, t) && r.1.Node? && r.1.id == n
    decreases t
  {
    if t.id == n then (ctx, t)
    else if n in Ids(t.left) then Locate(InLeft(t.id, t.key, t.prio, t.right, ctx), t.left, n)
    else Locate(InRight(t.left, t.id, t.key, t.prio, ctx), t.right, n)
  }

  /** Every subtree on a path of a represented treap is a represented treap. */
  lemma {:induction false} PlugParts(a: seq<TreapNode>, ctx: Ctx, s: Tree)
    requires Repr(a, Plug(ctx, s)) && IsTreap(Plug(ctx, s))
    ensures Repr(a, Frame(ctx, s)) && IsTreap(Frame(ctx, s))
    ensures Repr(a, s) && IsTreap(s)
    ensures Ids(Frame(ctx, s)) <= Ids(Plug(ctx, s)) && Ids(s) <= Ids(Frame(ctx, s))
    decreases ctx
  {
    if !ctx.Top? {
      PlugParts(a, ctx.up, Frame(ctx, s));
    }
  }

  /** `j` lies below every key of `s` or above every key of `s`. */
  predicate Apart(j: int, s: set<int>) {
    (forall i :: i in s ==> j < i) || (forall i :: i in s ==> i < j)
  }

  /** In a search tree a key outside a subtree lies on one side of all of it. */
  lemma {:induction false} Outside(ctx: Ctx, s: Tree)
    requires Bst(Plug(ctx, s))
    ensures Bst(s)
    ensures forall j :: j in Keys(Plug(ctx, s)) && j !in Keys(s) ==> Apart(j, Keys(s))
    decreases ctx
  {
    if !ctx.Top? {
      var f := Frame(ctx, s);
      Outside(ctx.up, f);
      assert Keys(s) <= Keys(f);
      assert forall j :: j in Keys(f) && j !in Keys(s) ==> Apart(j, Keys(s));
    }
  }

  /** When the keys of a subtree that follow `k` are those from `m` on, so
      are the keys of the whole search tree. */
  lemma {:induction false} Successor(ctx: Ctx, n: Tree, k: int, m: int)
    requires Bst(Plug(ctx, n)) && k in Keys(n) && m in Keys(n)
    requires forall j :: j in Keys(n) ==> (k < j <==> m <= j)
    ensures forall j :: j in Keys(Plug(ctx, n)) ==> (k < j <==> m <= j)
  {
    Outside(ctx, n);
  }

  /** The keys of `keys` from `k` on. */
  function AtLeast(keys: set<int>, k: int): set<int> {
    set j | j in keys && k <= j
  }

  /** `c` is reached from `t` by going left zero or more times. */
  predicate LeftSpine(t: Tree, c: Tree) {
    t == c || (t.Node? && LeftSpine(t.left, c))
  }

  lemma {:induction false} LeftSpineStep(t: Tree, c: Tree)
    requires LeftSpine(t, c) && c.Node?
    ensures LeftSpine(t, c.left)
  {
    if t != c {
      LeftSpineStep(t.left, c);
    }
  }

  /** The node at the end of the left spine of a search tree holds its
      smallest key. */
  lemma {:induction false} LeftSpineMin(t: Tree, c: Tree)
    requires Bst(t) && LeftSpine(t, c) && c.Node? && c.left.Leaf?
    ensures c.key in Keys(t)
    ensures forall j :: j in Keys(t) ==> c.key <= j
  {
    if t != c {
      LeftSpineMin(t.left, c);
    }
  }

  /** One step up a path of a represented treap whose keys in `u` are at
      most `k`: the parent link of `u` leads to the node above, or to null at
      the top, and that node has `u` as its right child exactly when `u` is
      on the right. */
  lemma {:induction false} ClimbStep(a: seq<TreapNode>, c: Ctx, u: Tree, k: int)
    requires Repr(a, Plug(c, u)) && IsTreap(Plug(c, u)) && u.Node?
    requires Root(Plug(c, u)) != Null ==> a[Root(Plug(c, u))].parent == Null
    requires forall j :: j in Keys(u) ==> j <= k
    ensures 0 <= u.id < |a|
    ensures c.Top? ==> a[u.id].parent == Null
    ensures !c.Top? ==> a[u.id].parent == c.id && 0 <= c.id < |a| && (a[c.id].right == u.id <==> c.InRight?)
    ensures c.InRight? ==> forall j :: j in Keys(Frame(c, u)) ==> j <= k
  {
    PlugParts(a, c, u);
  }

  /** Where the climb stops: at the top, no key follows `k`; at a node
      reached from its left, that node's key is the next one. */
  lemma {:induction false} ClimbEnd(a: seq<TreapNode>, c: Ctx, u: Tree, k: int)
    requires Repr(a, Plug(c, u)) && IsTreap(Plug(c, u)) && u.Node?
    requires k in Keys(u) && forall j :: j in Keys(u) ==> j <= k
    requires c.Top? || c.InLeft?
    ensures c.Top? ==> AtLeast(Keys(Plug(c, u)), k) - {k} == {}
    ensures c.InLeft? ==> 0 <= c.id < |a| && c.id in Ids(Plug(c, u)) && a[c.id].x == c.key && k < c.key
    ensures c.InLeft? ==> AtLeast(Keys(Plug(c, u)), c.key) == AtLeast(Keys(Plug(c, u)), k) - {k}
  {
    PlugParts(a, c, u);
    if c.InLeft? {
      Successor(c.up, Frame(c, u), k, c.key);
    }
  }

  /** Where the descent stops: the leftmost node of the right subtree of the
      node keyed `k` holds the next key. */
  lemma {:induction false} DescendEnd(a: seq<TreapNode>, ctx: Ctx, sub: Tree, cur: Tree)
    requires Repr(a, Plug(ctx, sub)) && IsTreap(Plug(ctx, sub)) && sub.Node?
    requires LeftSpine(sub.right, cur) && cur.Node? && cur.left.Leaf? && Ids(cur) <= Ids(sub)
    requires Repr(a, cur)
    ensures cur.id in Ids(Plug(ctx, sub)) && a[cur.id].x == cur.key && sub.key < cur.key
    ensures AtLeast(Keys(Plug(ctx, sub)), cur.key) == AtLeast(Keys(Plug(ctx, sub)), sub.key) - {sub.key}
  {
    PlugParts(a, ctx, sub);
    LeftSpineMin(sub.right, cur);
    Successor(ctx, sub, sub.key, cur.key);
    ReprKeys(a, Plug(ctx, sub));
  }

  /** TreapIterator: walks the set in key order. `node` is the node whose key
      comes next, `lastNode` the one `next` returned last (null when there is
      none or it has been removed). */
  class TreapIterator {
    const set_: TreeSetImpl
    var node: int
    var lastNode: int

    /** The set is a treap and `node` is null or one of its nodes. */
    ghost predicate Placed()
      reads this, set_
    {
      && set_.Valid()
      && (node == Null || (node in Ids(set_.tree) && 0 <= node < |set_.nodes|))
    }

    /** Also, the node `next` returned last holds a smaller key than `node`. */
    ghost predicate Valid()
      reads this, set_
    {
      && Placed()
      && (lastNode != Null ==> 0 <= lastNode < |set_.nodes|)
      && (lastNode != Null && node != Null ==> set_.nodes[lastNode].x < set_.nodes[node].x)
    }

    /** The keys still to come: those of the set from the key of `node` on. */
    ghost function Remaining(): set<int>
      reads this, set_
    {
      if 0 <= node < |set_.nodes| then AtLeast(Keys(set_.tree), set_.nodes[node].x) else {}
    }

    /** The iterator starts at the leftmost node, so every element is still
        to come. */
    constructor (s: TreeSetImpl)
      requires s.Valid()
      ensures Valid() && set_ == s && lastNode == Null
      ensures Remaining() == s.Contents()
    {
      set_ := s;
      lastNode := Null;
      node := s.root;
      new;
      if node != Null {
        ghost var cur := s.tree;
        while s.nodes[node].left != Null
          invariant cur.Node? && node == cur.id && LeftSpine(s.tree, cur) && Repr(s.nodes, cur)
          invariant Ids(cur) <= Ids(s.tree) && lastNode == Null
          decreases Size(cur)
        {
          LeftSpineStep(s.tree, cur);
          node := s.nodes[node].left;
          cur := cur.left;
        }
        LeftSpineMin(s.tree, cur);
        assert node in Ids(cur);
        ReprIds(s.nodes, cur);
        assert AtLeast(Keys(s.tree), cur.key) == Keys(s.tree);
      }
    }
  
    /** `hasNext`: whether any key is still to come. */
    method HasNext() returns (r: bool)
      requires Valid()
      ensures r <==> Remaining() != {}
    {
      ReprKeys(set_.nodes, set_.tree);
      if node != Null {
        assert set_.nodes[node].x in Remaining();
      }
      r := node != Null;
    }

    /** `goToNext`: move to the node holding the next larger key, the
        leftmost node of the right subtree if there is one, else the first
        ancestor reached from its left; null when there is none. The current
        key is then no longer to come. */
    method GoToNext()
      requires Placed() && node != Null
      modifies this`node
      ensures Placed()
      ensures node != Null ==> old(set_.nodes[node].x) < set_.nodes[node].x
      ensures Remaining() == old(Remaining()) - {old(set_.nodes[node].x)}
    {
      ghost var (ctx, sub) := Locate(Top, set_.tree, node);
      if set_.nodes[node].right != Null {
        DescendRight(ctx, sub);
      } else {
        ClimbUp(ctx, sub);
      }
    }

    /** The first case of `goToNext`: go right once, then left while there
        is a left child. */
    method DescendRight(ghost ctx: Ctx, ghost sub: Tree)
      requires Placed() && node != Null && set_.nodes[node].right != Null
      requires Plug(ctx, sub) == set_.tree && sub.Node? && sub.id == node
      modifies this`node
      ensures Placed()
      ensures node != Null ==> old(set_.nodes[node].x) < set_.nodes[node].x
      ensures Remaining() == old(Remaining()) - {old(set_.nodes[node].x)}
    {
      ghost var a := set_.nodes;
      assert Repr(a, sub) && a[node].x == sub.key by {
        PlugParts(a, ctx, sub);
      }
      node := set_.nodes[node].right;
      ghost var cur := sub.right;
      while set_.nodes[node].left != Null
        invariant cur.Node? && node == cur.id && LeftSpine(sub.right, cur) && Repr(a, cur)
        invariant Ids(cur) <= Ids(sub)
        decreases Size(cur)
      {
        LeftSpineStep(sub.right, cur);
        node := set_.nodes[node].left;
        cur := cur.left;
      }
      DescendEnd(a, ctx, sub, cur);
    }

    /** The second case of `goToNext`: climb the parent links while the step
        up comes from a right child. */
    method ClimbUp(ghost ctx: Ctx, ghost sub: Tree)
      requires Placed() && node != Null && set_.nodes[node].right == Null
      requires Plug(ctx, sub) == set_.tree && sub.Node? && sub.id == node
      modifies this`node
      ensures Placed()
      ensures node != Null ==> old(set_.nodes[node].x) < set_.nodes[node].x
      ensures Remaining() == old(Remaining()) - {old(set_.nodes[node].x)}
    {
      ghost var T, a := set_.tree, set_.nodes;
      ghost var k := a[node].x;
      assert k == sub.key && sub.right == Leaf && k in Keys(sub) && forall j :: j in Keys(sub) ==> j <= k by {
        PlugParts(a, ctx, sub);
      }
      var wasFromRight := true;
      ghost var c, u := ctx, sub;
      while node != Null && wasFromRight
        invariant Plug(c, u) == T && u.Node?
        invariant k in Keys(u) && forall j :: j in Keys(u) ==> j <= k
        invariant wasFromRight ==> node == u.id
        invariant !wasFromRight ==> (c.Top? && node == Null) || (c.InLeft? && node == c.id)
        decreases c, wasFromRight
      {
        ClimbStep(a, c, u, k);
        var prevNode := node;
        node := set_.nodes[node].parent;
        wasFromRight := node != Null && set_.nodes[node].right == prevNode;
        if wasFromRight {
          u, c := Frame(c, u), c.up;
        }
      }
      ClimbStep(a, c, u, k);
      ClimbEnd(a, c, u, k);
    }

    /** `next`: the smallest key still to come, after which it is no longer
        to come; None models the NoSuchElementException when there is none. */
    method Next() returns (r: Option<int>)
      requires Valid()
      modifies this
      ensures Valid()
      ensures r.None? <==> old(Remaining()) == {}
      ensures r.None? ==> node == old(node) && lastNode == old(lastNode)
      ensures r.Some? ==> r.value in old(Remaining()) && (forall j :: j in old(Remaining()) ==> r.value <= j)
      ensures r.Some? ==> Remaining() == old(Remaining()) - {r.value}
    {
      ReprKeys(set_.nodes, set_.tree);
      if node == Null {
        return None;
      }
      var result := set_.nodes[node].x;
      assert result in Remaining();
      lastNode := node;
      GoToNext();
      r := Some(result);
    }

    /** `remove`: the key `next` returned last leaves the set, and what is
        still to come stays. `ok` is false for the IllegalStateException,
        when `next` has not been called since the last removal. */
    method Remove() returns (ok: bool)
      requires Valid()
      modifies this, set_
      ensures Valid()
      ensures ok <==> old(lastNode) != Null
      ensures ok ==> set_.Contents() == old(set_.Contents()) - {old(set_.nodes[lastNode].x)}
      ensures ok ==> Remaining() == old(Remaining()) && lastNode == Null
      ensures !ok ==> unchanged(this) && unchanged(set_)
    {
      if lastNode == Null {
        return false;
      }
      ghost var keys, a := set_.Contents(), set_.nodes;
      var o := set_.nodes[lastNode].x;
      var _ := set_.Remove(o);
      lastNode := Null;
      ok := true;
      if node != Null {
        assert AtLeast(keys - {o}, a[node].x) == AtLeast(keys, a[node].x);
      }
    }
  }

  /** A full pass of an iterator, as `new ArrayList<>(set)` makes one: the
      elements come out in strictly increasing order, each exactly once. */
  method Elements(s: TreeSetImpl) returns (xs: seq<int>)
    requires s.Valid()
    ensures forall i, j :: 0 <= i < j < |xs| ==> xs[i] < xs[j]
    ensures forall k :: k in xs <==> k in s.Contents()
  {
    var it := new TreapIterator(s);
    xs := [];
    var more := it.HasNext();
    while more
      invariant it.Valid() && it.set_ == s
      invariant more <==> it.Remaining() != {}
      invariant Scanned(s.Contents(), xs, it.Remaining())
      decreases |it.Remaining()|
    {
      ghost var before := it.Remaining();
      var r := it.Next();
      ScanStep(s.Contents(), xs, before, r.value);
      xs := xs + [r.value];
      more := it.HasNext();
      assert it.Remaining() < before;
    }
  }

  /** Part way through a pass over the keys `keys`: `xs` came out ascending,
      below everything still `rest` to come, and together they are the keys. */
  ghost predicate Scanned(keys: set<int>, xs: seq<int>, rest: set<int>) {
    && (forall k :: k in keys <==> k in xs || k in rest)
    && (forall i, j :: 0 <= i < j < |xs| ==> xs[i] < xs[j])
    && (forall i, k :: 0 <= i < |xs| && k in rest ==> xs[i] < k)
  }

  /** Taking the least key still to come keeps a pass in order. */
  lemma ScanStep(keys: set<int>, xs: seq<int>, rest: set<int>, v: int)
    requires Scanned(keys, xs, rest)
    requires v in rest && forall j :: j in rest ==> v <= j
    ensures Scanned(keys, xs + [v], rest - {v})
  {
  }

  /** Round `e` of the first test, on the set of the keys below `e`: `add(e)`
      of the new element, `contains(e)`, `add(e)` again and `size()`. */
  method AddRound(s: TreeSetImpl, e: nat, p: int, q: int) returns (first: bool, found: bool, again: bool, size: int)
    requires s.Valid() && s.Contents() == Range(e)
    modifies s
    ensures s.Valid() && s.Contents() == Range(e + 1)
    ensures first && found && !again && size == e + 1
  {
    first := s.Add(e, p);
    found := s.Contains(e);
    again := s.Add(e, q);
    size := s.Size();
  }

  /** The first test of the set: adding 0, 1, ..., n - 1 in turn, each `add`
      reports a new element, `contains` then finds it, a second `add`
      reports nothing new, and `size` counts the elements so far. The
      priorities stand for the random stream. */
  method AddAscending(n: nat, prios: seq<int>) returns (s: TreeSetImpl, results: seq<(bool, bool, bool, int)>)
    requires |prios| == 2 * n
    ensures s.Valid() && s.Contents() == Range(n)
    ensures |results| == n && AllRoundsRight(results)
  {
    s := new TreeSetImpl();
    results := AddRounds(s, n, prios);
  }

  /** The rounds of the first test, on a set that starts out empty. */
  method AddRounds(s: TreeSetImpl, n: nat, prios: seq<int>) returns (results: seq<(bool, bool, bool, int)>)
    requires |prios| == 2 * n && s.Valid() && s.Contents() == {}
    modifies s
    ensures s.Valid() && s.Contents() == Range(n)
    ensures |results| == n && AllRoundsRight(results)
  {
    results := [];
    var i := 0;
    while i < n
      invariant 0 <= i <= n && s.Valid()
      invariant s.Contents() == Range(i)
      invariant |results| == i && AllRoundsRight(results)
    {
      var first, found, again, size := AddRound(s, i, prios[2 * i], prios[2 * i + 1]);
      RoundRight(results, (first, found, again, size));
      results := results + [(first, found, again, size)];
      i := i + 1;
    }
  }

  /** Every round `j` of the first test reported a new element, found it,
      reported no change on the second `add`, and counted `j + 1` elements. */
  ghost predicate AllRoundsRight(results: seq<(bool, bool, bool, int)>) {
    forall j :: 0 <= j < |results| ==> results[j] == (true, true, false, j + 1)
  }

  lemma RoundRight(results: seq<(bool, bool, bool, int)>, r: (bool, bool, bool, int))
    requires AllRoundsRight(results) && r == (true, true, false, |results| + 1)
    ensures AllRoundsRight(results + [r])
  {
  }

  /** The keys 0 .. n - 1. */
  function Range(n: nat): (r: set<int>)
    ensures forall j :: j in r <==> 0 <= j < n
    ensures |r| == n
  {
    if n == 0 then {} else Range(n - 1) + {n - 1}
  }

  /** The iterator of an empty set has nothing next, and `next` throws. */
  method EmptyIterator() returns (hasNext: bool, next: Option<int>)
    ensures !hasNext && next == None
  {
    var s := new TreeSetImpl();
    var it := new TreapIterator(s);
    hasNext := it.HasNext();
    next := it.Next();
  }
}
