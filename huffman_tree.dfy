/**
 * The Huffman tree of huffman.go: its node, the order of the priority queue
 * and `BuildTree`. Nodes are never changed once built, so a tree is a value;
 * the queue, which `BuildTree` changes in place, is a class.
 */
module HuffmanTree {
  /** A tree node; `Nil` stands for Go's nil. A leaf is a node with two nil children. */
  datatype Tree = Nil | Node(symbol: int, freq: int, left: Tree, right: Tree)

  function Leaf(symbol: int, freq: int): Tree
  {
    Node(symbol, freq, Nil, Nil)
  }

  predicate IsLeaf(t: Tree)
  {
    t.Node? && t.left == Nil && t.right == Nil
  }

  function Min(x: int, y: int): int
  {
    if x < y then x else y
  }

  /** The queue order: lower frequency first, equal frequencies by lower symbol. */
  predicate Less(a: Tree, b: Tree)
    requires a.Node? && b.Node?
  {
    if a.freq == b.freq then a.symbol < b.symbol else a.freq < b.freq
  }

  /** `Less` is a strict order, and it orders any two nodes whose symbols differ. */
  lemma LessIsStrictOrder(a: Tree, b: Tree, c: Tree)
    requires a.Node? && b.Node? && c.Node?
    ensures !Less(a, a)
    ensures Less(a, b) ==> !Less(b, a)
    ensures Less(a, b) && Less(b, c) ==> Less(a, c)
    ensures a.symbol != b.symbol ==> Less(a, b) || Less(b, a)
  {
  }

  /**
   * The parent `BuildTree` makes of the nodes popped first (`a`) and second
   * (`b`): on a frequency tie it swaps them when `a` has the larger symbol.
   */
  function Merge(a: Tree, b: Tree): (r: Tree)
    requires a.Node? && b.Node?
    ensures r.Node? && r.freq == a.freq + b.freq && r.symbol == Min(a.symbol, b.symbol)
    ensures (r.left == a && r.right == b) || (r.left == b && r.right == a)
  {
    var (left, right) := if a.freq == b.freq && a.symbol > b.symbol then (b, a) else (a, b);
    Node(Min(right.symbol, left.symbol), left.freq + right.freq, left, right)
  }

  /** Index of a least element of `s` under `Less`: the scan `heap.Pop` stands for. */
  method MinIndex(s: seq<Tree>) returns (p: nat)
    requires |s| > 0 && forall u :: u in s ==> u.Node?
    ensures p < |s| && forall i :: 0 <= i < |s| ==> !Less(s[i], s[p])
  {
    p := 0;
    var k := 1;
    while k < |s|
      invariant p < k <= |s|
      invariant forall i :: 0 <= i < k ==> !Less(s[i], s[p])
      decreases |s| - k
    {
      if Less(s[k], s[p]) {
        p := k;
      }
      k := k + 1;
    }
  }

  lemma RemoveAt<T>(s: seq<T>, p: nat)
    requires p < |s|
    ensures multiset(s[..p] + s[p + 1..]) == multiset(s) - multiset{s[p]}
  {
    assert s == s[..p] + [s[p]] + s[p + 1..];
  }

  /**
   * The queue of huffman.go. The binary-heap layout of `container/heap` is
   * not modelled: what matters is that `Pop` takes a least member.
   */
  class PriorityQueue {
    var items: seq<Tree>

    /** Go's `Less` dereferences every member: the queue holds no nil. */
    ghost predicate Valid()
      reads this
    {
      forall u :: u in items ==> u.Node?
    }

    constructor ()
      ensures Valid() && items == []
    {
      items := [];
    }

    method Push(t: Tree)
      requires Valid() && t.Node?
      modifies this
      ensures Valid() && items == old(items) + [t]
    {
      items := items + [t];
    }

    /** Removes and returns a least member. */
    method Pop() returns (t: Tree)
      requires Valid() && |items| > 0
      modifies this
      ensures Valid() && |items| == |old(items)| - 1
      ensures t in old(items) && forall u :: u in old(items) ==> !Less(u, t)
      ensures multiset(items) == multiset(old(items)) - multiset{t}
    {
      var p := MinIndex(items);
      t := items[p];
      RemoveAt(items, p);
      items := items[..p] + items[p + 1..];
    }
  }

  // ---------------------------------------------------------------------
  // The tree as a function of the multiset of queue members.
  // ---------------------------------------------------------------------

  /** Every member is a node, held once, and no two members share a symbol. */
  ghost predicate Distinct(q: multiset<Tree>)
  {
    && (forall a :: a in q ==> a.Node? && q[a] == 1)
    && (forall a, b :: a in q && b in q && a.symbol == b.symbol ==> a == b)
  }

  lemma RemoveCard(q: multiset<Tree>, x: Tree)
    requires x in q
    ensures |q - multiset{x}| == |q| - 1 && q == (q - multiset{x}) + multiset{x}
  {
    assert q == (q - multiset{x}) + multiset{x};
  }

  /** Some member of `q`, always the same one for the same `q`. */
  ghost function Pick(q: multiset<Tree>): (t: Tree)
    requires |q| > 0
    ensures t in q
  {
    var t :| t in q; t
  }

  /** A least member of `q`. */
  ghost function MinOf(q: multiset<Tree>): (m: Tree)
    requires |q| > 0 && forall u :: u in q ==> u.Node?
    ensures m in q
    decreases |q|
  {
    var x := Pick(q);
    var rest := q - multiset{x};
    RemoveCard(q, x);
    if |rest| == 0 then x
    else
      var m := MinOf(rest);
      if Less(x, m) then x else m
  }

  /** No member of `q` comes before `MinOf(q)`. */
  lemma {:induction false} MinOfLeast(q: multiset<Tree>)
    requires |q| > 0 && forall u :: u in q ==> u.Node?
    ensures forall u :: u in q ==> !Less(u, MinOf(q))
    decreases |q|
  {
    var x := Pick(q);
    var rest := q - multiset{x};
    RemoveCard(q, x);
    if |rest| == 0 {
      assert forall u :: u in q && u != x ==> u in rest;
    } else {
      MinOfLeast(rest);
      var m := MinOf(rest);
      forall u | u in q
        ensures !Less(u, MinOf(q))
      {
        if u != x {
          assert u in rest;
          LessIsStrictOrder(u, x, m);
        }
      }
    }
  }

  /** Among members with distinct symbols, a least member is the least member. */
  lemma MinUnique(q: multiset<Tree>, t: Tree)
    requires Distinct(q) && t in q && forall u :: u in q ==> !Less(u, t)
    ensures t == MinOf(q)
  {
    var m := MinOf(q);
    MinOfLeast(q);
    if t != m {
      LessIsStrictOrder(t, m, m);
    }
  }

  /**
   * What `BuildTree` returns when its queue holds `q`: while two or more
   * members remain it merges the least and the next least.
   */
  ghost function Huffman(q: multiset<Tree>): Tree
    requires forall u :: u in q ==> u.Node?
    decreases |q|
  {
    if |q| == 0 then Nil
    else if |q| == 1 then MinOf(q)
    else
      var a := MinOf(q);
      var rest := q - multiset{a};
      RemoveCard(q, a);
      var b := MinOf(rest);
      RemoveCard(rest, b);
      Huffman(rest - multiset{b} + multiset{Merge(a, b)})
  }

  /** One leaf per map entry: the queue `BuildTree` starts from. */
  ghost function LeafBag(freqs: map<int, int>): multiset<Tree>
  {
    LeavesFor(freqs, freqs.Keys)
  }

  ghost function LeavesFor(freqs: map<int, int>, keys: set<int>): multiset<Tree>
    requires keys <= freqs.Keys
  {
    multiset(set k | k in keys :: Leaf(k, freqs[k]))
  }

  lemma LeavesForAdd(freqs: map<int, int>, keys: set<int>, k: int)
    requires keys <= freqs.Keys && k in freqs && k !in keys
    ensures LeavesFor(freqs, keys + {k}) == LeavesFor(freqs, keys) + multiset{Leaf(k, freqs[k])}
  {
    var before := set j | j in keys :: Leaf(j, freqs[j]);
    var after := set j | j in keys + {k} :: Leaf(j, freqs[j]);
    assert after == before + {Leaf(k, freqs[k])};
    assert Leaf(k, freqs[k]) !in before;
  }

  /** The leaves of a map have distinct symbols. */
  lemma LeafBagDistinct(freqs: map<int, int>)
    ensures Distinct(LeafBag(freqs))
    ensures forall u :: u in LeafBag(freqs) ==> IsLeaf(u) && u.symbol in freqs && u.freq == freqs[u.symbol]
  {
  }

  /**
   * Two least members popped in turn: they are the ones `Huffman` merges, and
   * the tie swap leaves them in popped order.
   */
  lemma MergeStep(q: multiset<Tree>, a: Tree, b: Tree)
    requires Distinct(q) && a in q && (forall u :: u in q ==> !Less(u, a))
    requires b in q - multiset{a} && (forall u :: u in q - multiset{a} ==> !Less(u, b))
    ensures !(a.freq == b.freq && a.symbol > b.symbol)
    ensures Merge(a, b) == Node(Min(a.symbol, b.symbol), a.freq + b.freq, a, b)
    ensures var q' := q - multiset{a} - multiset{b} + multiset{Merge(a, b)};
      Distinct(q') && Huffman(q') == Huffman(q)
  {
    MinUnique(q, a);
    DistinctRemove(q, a);
    MinUnique(q - multiset{a}, b);
    LessIsStrictOrder(a, b, b);
    MergeDistinct(q, a, b);
    HuffmanStep(q);
  }

  /** Merging the two least members of a distinct queue keeps it distinct. */
  lemma MergeDistinct(q: multiset<Tree>, a: Tree, b: Tree)
    requires Distinct(q) && a in q && b in q - multiset{a}
    ensures Distinct(q - multiset{a} - multiset{b} + multiset{Merge(a, b)})
  {
    DistinctRemove(q, a);
    DistinctRemove(q - multiset{a}, b);
    DistinctAdd(q - multiset{a} - multiset{b}, Merge(a, b), a, b);
  }

  /** `Huffman` merges the least and the next least member. */
  lemma HuffmanStep(q: multiset<Tree>)
    requires |q| > 1 && forall u :: u in q ==> u.Node?
    ensures var a := MinOf(q); var b := MinOf(q - multiset{a});
      Huffman(q) == Huffman(q - multiset{a} - multiset{b} + multiset{Merge(a, b)})
  {
  }

  lemma DistinctRemove(q: multiset<Tree>, t: Tree)
    requires Distinct(q) && t in q
    ensures Distinct(q - multiset{t})
    ensures forall u :: u in q - multiset{t} ==> u.symbol != t.symbol
  {
  }

  lemma DistinctAdd(q: multiset<Tree>, m: Tree, a: Tree, b: Tree)
    requires Distinct(q) && m.Node? && a.Node? && b.Node? && (m.symbol == a.symbol || m.symbol == b.symbol)
    requires forall u :: u in q ==> u.symbol != a.symbol && u.symbol != b.symbol
    ensures Distinct(q + multiset{m})
  {
  }

  /** An element of `s`: which one is not specified, like the order of Go's `range` over a map. */
  method Choose<K>(s: set<K>) returns (x: K)
    requires s != {}
    ensures x in s
  {
    x :| x in s;
  }

  lemma Some<K>(s: set<K>) returns (x: K)
    requires s != {}
    ensures x in s
  {
    x :| x in s;
  }

  /**
   * Go's `BuildTree`. The map is visited in an arbitrary order; the result is
   * the same for every order.
   */
  method BuildTree(freqs: map<int, int>) returns (root: Tree)
    ensures root == Huffman(LeafBag(freqs))
  {
    var pq := new PriorityQueue();
    PushLeaves(pq, freqs);
    LeafBagDistinct(freqs);
    root := MergeAll(pq);
  }

  /** Step 1 of `BuildTree`: a leaf for each map entry, in the map's iteration order. */
  method PushLeaves(pq: PriorityQueue, freqs: map<int, int>)
    requires pq.Valid() && pq.items == []
    modifies pq
    ensures pq.Valid() && multiset(pq.items) == LeafBag(freqs)
  {
    var todo := freqs.Keys;
    while todo != {}
      invariant todo <= freqs.Keys && pq.Valid()
      invariant multiset(pq.items) == LeavesFor(freqs, freqs.Keys - todo)
      decreases |todo|
    {
      var symbol := Choose(todo);
      LeavesForAdd(freqs, freqs.Keys - todo, symbol);
      assert freqs.Keys - (todo - {symbol}) == (freqs.Keys - todo) + {symbol};
      pq.Push(Leaf(symbol, freqs[symbol]));
      todo := todo - {symbol};
    }
    assert freqs.Keys - todo == freqs.Keys;
  }

  /** Step 2 of `BuildTree`: merge the two least members until at most one is left, then pop it. */
  method MergeAll(pq: PriorityQueue) returns (root: Tree)
    requires pq.Valid() && Distinct(multiset(pq.items))
    modifies pq
    ensures root == Huffman(old(multiset(pq.items)))
  {
    while |pq.items| > 1
      invariant pq.Valid() && Distinct(multiset(pq.items))
      invariant Huffman(multiset(pq.items)) == Huffman(old(multiset(pq.items)))
      decreases |pq.items|
    {
      ghost var q := multiset(pq.items);
      var left := pq.Pop();
      var right := pq.Pop();
      MergeStep(q, left, right);
      pq.Push(Merge(left, right));
    }
    if |pq.items| == 0 {
      root := Nil;
    } else {
      ghost var q := multiset(pq.items);
      root := pq.Pop();
      MinUnique(q, root);
    }
  }

  // ---------------------------------------------------------------------
  // The shape of the tree.
  // ---------------------------------------------------------------------

  /** The leaf nodes of `t`, each once. */
  function Leaves(t: Tree): multiset<Tree>
  {
    if t == Nil then multiset{}
    else if IsLeaf(t) then multiset{t}
    else Leaves(t.left) + Leaves(t.right)
  }

  /** The leaves of all members of `q`. */
  ghost function BagLeaves(q: multiset<Tree>): multiset<Tree>
    decreases |q|
  {
    if |q| == 0 then multiset{}
    else
      var x := Pick(q);
      RemoveCard(q, x);
      Leaves(x) + BagLeaves(q - multiset{x})
  }

  /** `+` on multisets regrouped: `x + (y + r) == y + (x + r)`. */
  lemma Swap(x: multiset<Tree>, y: multiset<Tree>, r: multiset<Tree>, xr: multiset<Tree>, yr: multiset<Tree>)
    requires xr == x + r && yr == y + r
    ensures x + yr == y + xr
  {
  }

  lemma {:induction false} BagLeavesRemove(q: multiset<Tree>, y: Tree)
    requires y in q
    ensures BagLeaves(q) == Leaves(y) + BagLeaves(q - multiset{y})
    decreases |q|
  {
    var x := Pick(q);
    RemoveCard(q, x);
    if x != y {
      RemoveCard(q, y);
      var r := q - multiset{x} - multiset{y};
      assert r == q - multiset{y} - multiset{x};
      BagLeavesRemove(q - multiset{x}, y);
      BagLeavesRemove(q - multiset{y}, x);
      Swap(Leaves(x), Leaves(y), BagLeaves(r), BagLeaves(q - multiset{y}), BagLeaves(q - multiset{x}));
    }
  }

  /** A member is a leaf of its own. */
  lemma {:induction false} BagLeavesOfLeaves(q: multiset<Tree>)
    requires forall u :: u in q ==> IsLeaf(u)
    ensures BagLeaves(q) == q
    decreases |q|
  {
    if |q| > 0 {
      var x := Pick(q);
      RemoveCard(q, x);
      BagLeavesOfLeaves(q - multiset{x});
      assert Leaves(x) == multiset{x};
    }
  }

  /** Merging moves leaves between members but never adds or drops one. */
  lemma {:induction false} HuffmanLeaves(q: multiset<Tree>)
    requires forall u :: u in q ==> u.Node?
    ensures Leaves(Huffman(q)) == BagLeaves(q)
    decreases |q|
  {
    if |q| == 1 {
      LeavesOfSingle(q);
    } else if |q| > 1 {
      var a := MinOf(q);
      RemoveCard(q, a);
      var b := MinOf(q - multiset{a});
      RemoveCard(q - multiset{a}, b);
      MergedNodes(q, a, b);
      HuffmanLeaves(q - multiset{a} - multiset{b} + multiset{Merge(a, b)});
      LeavesMergeStep(q);
    }
  }

  lemma LeavesOfSingle(q: multiset<Tree>)
    requires |q| == 1 && forall u :: u in q ==> u.Node?
    ensures Leaves(Huffman(q)) == BagLeaves(q)
  {
    var y := MinOf(q);
    BagLeavesRemove(q, y);
    RemoveCard(q, y);
  }

  /** Merging two members of a queue of nodes leaves a queue of nodes. */
  lemma MergedNodes(q: multiset<Tree>, a: Tree, b: Tree)
    requires (forall u :: u in q ==> u.Node?) && a in q && b in q
    ensures forall u :: u in q - multiset{a} - multiset{b} + multiset{Merge(a, b)} ==> u.Node?
  {
    InMerged(q, a, b, Merge(a, b));
  }

  /** The step of `HuffmanLeaves`: one merge keeps the leaves. */
  lemma LeavesMergeStep(q: multiset<Tree>)
    requires |q| > 1 && forall u :: u in q ==> u.Node?
    requires var a := MinOf(q); var b := MinOf(q - multiset{a});
      var q' := q - multiset{a} - multiset{b} + multiset{Merge(a, b)};
      Leaves(Huffman(q')) == BagLeaves(q')
    ensures Leaves(Huffman(q)) == BagLeaves(q)
  {
    var a := MinOf(q);
    RemoveCard(q, a);
    var b := MinOf(q - multiset{a});
    HuffmanStep(q);
    LeavesOfMerged(q - multiset{a} - multiset{b}, a, b);
    LeavesOfPopped(q, a, b);
  }

  /** The leaves of the queue after a merge. */
  lemma LeavesOfMerged(r: multiset<Tree>, a: Tree, b: Tree)
    requires a.Node? && b.Node?
    ensures BagLeaves(r + multiset{Merge(a, b)}) == Leaves(a) + (Leaves(b) + BagLeaves(r))
  {
    var m := Merge(a, b);
    AddRemove(r, m);
    BagLeavesRemove(r + multiset{m}, m);
    LeavesMerge(a, b);
  }

  /** The leaves of the queue before a merge. */
  lemma LeavesOfPopped(q: multiset<Tree>, a: Tree, b: Tree)
    requires a in q && b in q - multiset{a}
    ensures BagLeaves(q) == Leaves(a) + (Leaves(b) + BagLeaves(q - multiset{a} - multiset{b}))
  {
    BagLeavesRemove(q, a);
    BagLeavesRemove(q - multiset{a}, b);
  }

  lemma AddRemove(r: multiset<Tree>, m: Tree)
    ensures r + multiset{m} - multiset{m} == r
  {
  }

  /** The leaves of a merged node are those of the two it merges. */
  lemma LeavesMerge(a: Tree, b: Tree)
    requires a.Node? && b.Node?
    ensures Leaves(Merge(a, b)) == Leaves(a) + Leaves(b)
  {
  }


  /** The tree of a map has exactly one leaf per entry, holding its symbol and frequency, and no other leaf. */
  lemma BuildTreeLeaves(freqs: map<int, int>)
    ensures Leaves(Huffman(LeafBag(freqs))) == LeafBag(freqs)
    ensures forall k :: k in freqs ==> LeafBag(freqs)[Leaf(k, freqs[k])] == 1
    ensures forall t :: t in LeafBag(freqs) ==> IsLeaf(t) && t.symbol in freqs && t.freq == freqs[t.symbol]
  {
    LeafBagDistinct(freqs);
    HuffmanLeaves(LeafBag(freqs));
    BagLeavesOfLeaves(LeafBag(freqs));
    forall k | k in freqs
      ensures LeafBag(freqs)[Leaf(k, freqs[k])] == 1
    {
      assert Leaf(k, freqs[k]) in set j | j in freqs.Keys :: Leaf(j, freqs[j]);
    }
  }

  /**
   * The shape `BuildTree` gives every node: a leaf, or a node with two
   * children, their summed frequency and their least symbol.
   */
  ghost predicate WellBuilt(t: Tree)
  {
    t.Node? &&
    (IsLeaf(t) ||
     (WellBuilt(t.left) && WellBuilt(t.right)
      && t.freq == t.left.freq + t.right.freq && t.symbol == Min(t.left.symbol, t.right.symbol)))
  }

  lemma {:induction false} HuffmanWellBuilt(q: multiset<Tree>)
    requires |q| > 0 && forall u :: u in q ==> u.Node? && WellBuilt(u)
    ensures WellBuilt(Huffman(q))
    decreases |q|
  {
    if |q| > 1 {
      var a := MinOf(q);
      RemoveCard(q, a);
      var b := MinOf(q - multiset{a});
      RemoveCard(q - multiset{a}, b);
      var q' := q - multiset{a} - multiset{b} + multiset{Merge(a, b)};
      MergedWellBuilt(q, a, b);
      HuffmanWellBuilt(q');
      HuffmanStep(q);
    }
  }

  /** Merging two well-built members leaves only well-built members. */
  lemma MergedWellBuilt(q: multiset<Tree>, a: Tree, b: Tree)
    requires forall u :: u in q ==> u.Node? && WellBuilt(u)
    requires a in q && b in q
    ensures forall u :: u in q - multiset{a} - multiset{b} + multiset{Merge(a, b)} ==> u.Node? && WellBuilt(u)
  {
    var m := Merge(a, b);
    assert WellBuilt(m);
    InMerged(q, a, b, m);
  }

  /** After a merge, each member is the merged node or was there before. */
  lemma InMerged(q: multiset<Tree>, a: Tree, b: Tree, m: Tree)
    ensures forall u :: u in q - multiset{a} - multiset{b} + multiset{m} ==> u == m || u in q
  {
  }

  /** Sum of the frequencies of the leaves of `t`. */
  function LeafTotal(t: Tree): int
  {
    if t == Nil then 0
    else if IsLeaf(t) then t.freq
    else LeafTotal(t.left) + LeafTotal(t.right)
  }

  /** A node's frequency is the total of its leaves' frequencies; at the root, the total count. */
  lemma {:induction false} WellBuiltTotal(t: Tree)
    requires WellBuilt(t)
    ensures t.freq == LeafTotal(t)
  {
    if !IsLeaf(t) {
      WellBuiltTotal(t.left);
      WellBuiltTotal(t.right);
    }
  }

  /** Every tree `BuildTree` returns for a non-empty map is well built. */
  lemma BuildTreeWellBuilt(freqs: map<int, int>)
    requires |freqs| > 0
    ensures WellBuilt(Huffman(LeafBag(freqs)))
    ensures Huffman(LeafBag(freqs)).freq == LeafTotal(Huffman(LeafBag(freqs)))
  {
    LeafBagDistinct(freqs);
    assert freqs.Keys != {};
    var k := Some(freqs.Keys);
    assert Leaf(k, freqs[k]) in LeafBag(freqs) by {
      assert Leaf(k, freqs[k]) in set j | j in freqs.Keys :: Leaf(j, freqs[j]);
    }
    HuffmanWellBuilt(LeafBag(freqs));
    WellBuiltTotal(Huffman(LeafBag(freqs)));
  }

  /** An empty map gives no tree. */
  lemma BuildTreeEmpty()
    ensures Huffman(LeafBag(map[])) == Nil
  {
    assert LeafBag(map[]) == multiset{};
  }

  /** A one-entry map gives a single leaf with that entry's symbol and frequency. */
  lemma BuildTreeSingle(symbol: int, freq: int)
    ensures Huffman(LeafBag(map[symbol := freq])) == Leaf(symbol, freq)
  {
    var f := map[symbol := freq];
    assert f.Keys == {symbol};
    assert (set k | k in f.Keys :: Leaf(k, f[k])) == {Leaf(symbol, freq)};
    assert LeafBag(f) == multiset{Leaf(symbol, freq)};
  }
}
