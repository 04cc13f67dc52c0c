/**
 * The Huffman tree and its construction: one leaf per symbol weighted by
 * its count, then repeatedly sort the work list by weight, take the two
 * front nodes off and push their merged parent, until one node is left.
 */
module HuffmanTree {
  import opened Wrappers
  import opened Text
  import opened ObjectOrder

  /** A leaf carries a symbol; an internal node carries only the weight of its subtree. */
  datatype Tree = Leaf(sym: char, w: nat) | Internal(w: nat, l: Tree, r: Tree)

  /** The leaves of `t`, left to right. */
  function Leaves(t: Tree): (ls: seq<Tree>)
    ensures |ls| >= 1
  {
    match t
    case Leaf(_, _) => [t]
    case Internal(_, l, r) => Leaves(l) + Leaves(r)
  }

  lemma {:induction false} LeavesAreLeaves(t: Tree)
    ensures forall i :: 0 <= i < |Leaves(t)| ==> Leaves(t)[i].Leaf?
  {
    match t
    case Leaf(_, _) =>
    case Internal(_, l, r) =>
      LeavesAreLeaves(l);
      LeavesAreLeaves(r);
  }

  function InternalCount(t: Tree): nat {
    match t
    case Leaf(_, _) => 0
    case Internal(_, l, r) => 1 + InternalCount(l) + InternalCount(r)
  }

  /** Every internal node weighs what its two children weigh together. */
  predicate WellWeighted(t: Tree) {
    match t
    case Leaf(_, _) => true
    case Internal(w, l, r) => w == l.w + r.w && WellWeighted(l) && WellWeighted(r)
  }

  /** A tree with k leaves has k - 1 internal nodes: one per merge. */
  lemma {:induction false} LeafCount(t: Tree)
    ensures |Leaves(t)| == InternalCount(t) + 1
  {
    match t
    case Leaf(_, _) =>
    case Internal(_, l, r) =>
      LeafCount(l);
      LeafCount(r);
  }

  /** A well-weighted tree weighs what its leaves weigh together. */
  lemma {:induction false} RootWeightIsLeafWeight(t: Tree)
    requires WellWeighted(t)
    ensures t.w == TotalWeight(Leaves(t))
  {
    match t
    case Leaf(_, _) =>
      assert TotalWeight([t]) == t.w + TotalWeight([]);
    case Internal(_, l, r) =>
      RootWeightIsLeafWeight(l);
      RootWeightIsLeafWeight(r);
      AppendWork(Leaves(l), Leaves(r));
  }

  // ---------------------------------------------------------------------
  // The work list

  /** The leaves of every node of the list, in list order. */
  function AllLeaves(nodes: seq<Tree>): seq<Tree> {
    if nodes == [] then [] else Leaves(nodes[0]) + AllLeaves(nodes[1..])
  }

  function TotalWeight(nodes: seq<Tree>): nat {
    if nodes == [] then 0 else nodes[0].w + TotalWeight(nodes[1..])
  }

  predicate AllWellWeighted(nodes: seq<Tree>) {
    forall i :: 0 <= i < |nodes| ==> WellWeighted(nodes[i])
  }

  lemma {:induction false} AppendWork(a: seq<Tree>, b: seq<Tree>)
    ensures AllLeaves(a + b) == AllLeaves(a) + AllLeaves(b)
    ensures TotalWeight(a + b) == TotalWeight(a) + TotalWeight(b)
  {
    if a == [] {
      assert a + b == b;
    } else {
      assert (a + b)[1..] == a[1..] + b;
      AppendWork(a[1..], b);
    }
  }

  predicate SortedByWeight(nodes: seq<Tree>) {
    forall i, j :: 0 <= i < j < |nodes| ==> nodes[i].w <= nodes[j].w
  }

  /**
   * Puts `x` in front of the first node at least as heavy: a node that
   * comes earlier stays ahead of later nodes of equal weight.
   */
  function InsertByWeight(x: Tree, nodes: seq<Tree>): (r: seq<Tree>)
    ensures |r| == |nodes| + 1
    ensures multiset(r) == multiset(nodes) + multiset{x}
  {
    if nodes == [] then [x]
    else if x.w <= nodes[0].w then [x] + nodes
    else
      var r := [nodes[0]] + InsertByWeight(x, nodes[1..]);
      assert nodes == [nodes[0]] + nodes[1..];
      r
  }

  /**
   * `nodes.sort((a, b) => a.frequency - b.frequency)`: a stable sort by
   * ascending weight (insertion sort), as the language requires of
   * `Array.prototype.sort`. The result is a permutation of the list.
   */
  function SortByWeight(nodes: seq<Tree>): (r: seq<Tree>)
    ensures |r| == |nodes|
    ensures multiset(r) == multiset(nodes)
  {
    if nodes == [] then []
    else
      var r := InsertByWeight(nodes[0], SortByWeight(nodes[1..]));
      assert nodes == [nodes[0]] + nodes[1..];
      r
  }

  lemma {:induction false} InsertSorted(x: Tree, nodes: seq<Tree>)
    requires SortedByWeight(nodes)
    ensures SortedByWeight(InsertByWeight(x, nodes))
  {
    if nodes != [] && x.w > nodes[0].w {
      InsertSorted(x, nodes[1..]);
      InsertLowerBound(x, nodes[1..], nodes[0].w);
    }
  }

  /** Inserting keeps a lower bound that `x` and every node respect. */
  lemma {:induction false} InsertLowerBound(x: Tree, nodes: seq<Tree>, bound: nat)
    requires bound <= x.w && forall i :: 0 <= i < |nodes| ==> bound <= nodes[i].w
    ensures forall i :: 0 <= i < |InsertByWeight(x, nodes)| ==> bound <= InsertByWeight(x, nodes)[i].w
  {
    if nodes != [] && x.w > nodes[0].w {
      InsertLowerBound(x, nodes[1..], bound);
    }
  }

  /** The sorted list is ordered by weight: its two front nodes are two lightest ones. */
  lemma {:induction false} SortSorted(nodes: seq<Tree>)
    ensures SortedByWeight(SortByWeight(nodes))
  {
    if nodes != [] {
      SortSorted(nodes[1..]);
      InsertSorted(nodes[0], SortByWeight(nodes[1..]));
    }
  }

  /** The nodes of weight `w` in `nodes`, in list order. */
  function WithWeight(nodes: seq<Tree>, w: nat): seq<Tree> {
    if nodes == [] then []
    else (if nodes[0].w == w then [nodes[0]] else []) + WithWeight(nodes[1..], w)
  }

  /**
   * `x` lands in front of every node of its own weight and leaves the nodes
   * of every other weight as they were.
   */
  lemma {:induction false} InsertWithWeight(x: Tree, nodes: seq<Tree>, w: nat)
    ensures x.w == w ==> WithWeight(InsertByWeight(x, nodes), w) == [x] + WithWeight(nodes, w)
    ensures x.w != w ==> WithWeight(InsertByWeight(x, nodes), w) == WithWeight(nodes, w)
  {
    if nodes == [] {
      ConsWithWeight(x, [], w);
    } else if x.w <= nodes[0].w {
      ConsWithWeight(x, nodes, w);
    } else {
      var head, tail := nodes[0], nodes[1..];
      var inserted := InsertByWeight(x, tail);
      assert InsertByWeight(x, nodes) == [head] + inserted;
      assert [head] + tail == nodes;
      InsertWithWeight(x, tail, w);
      ConsWithWeight(head, inserted, w);
      ConsWithWeight(head, tail, w);
    }
  }

  lemma ConsWithWeight(t: Tree, rest: seq<Tree>, w: nat)
    ensures t.w == w ==> WithWeight([t] + rest, w) == [t] + WithWeight(rest, w)
    ensures t.w != w ==> WithWeight([t] + rest, w) == WithWeight(rest, w)
  {
    assert ([t] + rest)[1..] == rest;
    assert [] + WithWeight(rest, w) == WithWeight(rest, w);
  }

  /**
   * The sort is stable: the nodes of each weight come out in the order they
   * went in.
   */
  lemma {:induction false} SortStable(nodes: seq<Tree>, w: nat)
    ensures WithWeight(SortByWeight(nodes), w) == WithWeight(nodes, w)
  {
    if nodes != [] {
      SortStable(nodes[1..], w);
      InsertWithWeight(nodes[0], SortByWeight(nodes[1..]), w);
    }
  }

  lemma {:induction false} InsertWork(x: Tree, nodes: seq<Tree>)
    ensures multiset(AllLeaves(InsertByWeight(x, nodes))) == multiset(Leaves(x)) + multiset(AllLeaves(nodes))
    ensures TotalWeight(InsertByWeight(x, nodes)) == x.w + TotalWeight(nodes)
  {
    if nodes == [] {
      ConsWork(x, []);
    } else if x.w <= nodes[0].w {
      ConsWork(x, nodes);
    } else {
      var rest := InsertByWeight(x, nodes[1..]);
      var first, later := Leaves(nodes[0]), AllLeaves(nodes[1..]);
      InsertWork(x, nodes[1..]);
      ConsWork(nodes[0], rest);
      ConsWork(nodes[0], nodes[1..]);
      assert [nodes[0]] + nodes[1..] == nodes;
      assert AllLeaves(InsertByWeight(x, nodes)) == first + AllLeaves(rest);
      MoveFront(first, Leaves(x), later, AllLeaves(rest));
    }
  }

  /** Leaves `moved` that stand behind `first` count as if they stood before it. */
  lemma MoveFront(first: seq<Tree>, moved: seq<Tree>, later: seq<Tree>, behind: seq<Tree>)
    requires multiset(behind) == multiset(moved) + multiset(later)
    ensures multiset(first + behind) == multiset(moved) + multiset(first + later)
  {
  }

  /** A node put in front contributes its leaves first and adds its weight. */
  lemma ConsWork(t: Tree, rest: seq<Tree>)
    ensures AllLeaves([t] + rest) == Leaves(t) + AllLeaves(rest)
    ensures TotalWeight([t] + rest) == t.w + TotalWeight(rest)
  {
    assert ([t] + rest)[1..] == rest;
  }

  /** Sorting moves nodes around but keeps the leaves and the total weight. */
  lemma {:induction false} SortWork(nodes: seq<Tree>)
    ensures multiset(AllLeaves(SortByWeight(nodes))) == multiset(AllLeaves(nodes))
    ensures TotalWeight(SortByWeight(nodes)) == TotalWeight(nodes)
  {
    if nodes != [] {
      SortWork(nodes[1..]);
      InsertWork(nodes[0], SortByWeight(nodes[1..]));
    }
  }

  // ---------------------------------------------------------------------
  // Construction

  /** The parent node built from the two nodes taken off the front. */
  function Merge(left: Tree, right: Tree): Tree {
    Internal(left.w + right.w, left, right)
  }

  /**
   * What the merge loop leaves in `nodes[0]`: nothing for an empty list,
   * the node itself for a single node.
   */
  function Combine(nodes: seq<Tree>): (root: Option<Tree>)
    ensures root.None? <==> nodes == []
    decreases |nodes|
  {
    if |nodes| == 0 then None
    else if |nodes| == 1 then Some(nodes[0])
    else
      Combine(MergeStep(nodes))
  }

  /** The work list after one pass of the loop. */
  function MergeStep(nodes: seq<Tree>): (next: seq<Tree>)
    requires |nodes| >= 2
    ensures |next| == |nodes| - 1
  {
    var sorted := SortByWeight(nodes);
    sorted[2..] + [Merge(sorted[0], sorted[1])]
  }

  /** The loop body computes exactly one `MergeStep`. */
  lemma MergeStepUnfolds(nodes: seq<Tree>, sorted: seq<Tree>)
    requires |nodes| >= 2 && sorted == SortByWeight(nodes)
    ensures Combine(nodes) == Combine(sorted[2..] + [Internal(sorted[0].w + sorted[1].w, sorted[0], sorted[1])])
  {
  }

  /** One pass keeps every leaf of the work list, with its weight. */
  lemma MergeStepLeaves(nodes: seq<Tree>)
    requires |nodes| >= 2
    ensures multiset(AllLeaves(MergeStep(nodes))) == multiset(AllLeaves(nodes))
  {
    var sorted := SortByWeight(nodes);
    SortWork(nodes);
    ReplaceFrontPairLeaves(sorted);
    assert MergeStep(nodes) == sorted[2..] + [Merge(sorted[0], sorted[1])];
  }

  /** Replacing the two front nodes by their parent at the back keeps the leaves. */
  lemma ReplaceFrontPairLeaves(s: seq<Tree>)
    requires |s| >= 2
    ensures multiset(AllLeaves(s[2..] + [Merge(s[0], s[1])])) == multiset(AllLeaves(s))
  {
    var parent := Merge(s[0], s[1]);
    var a, b, rest := Leaves(s[0]), Leaves(s[1]), AllLeaves(s[2..]);
    AppendWork(s[2..], [parent]);
    SingleLeaves(parent);
    FrontPairLeaves(s);
    calc {
      multiset(AllLeaves(s[2..] + [parent]));
      multiset(rest + (a + b));
      multiset(rest) + (multiset(a) + multiset(b));
      multiset(a) + (multiset(b) + multiset(rest));
      multiset(a + (b + rest));
    }
  }

  lemma SingleLeaves(t: Tree)
    ensures AllLeaves([t]) == Leaves(t)
  {
    assert [t][1..] == [];
  }

  lemma FrontPairLeaves(s: seq<Tree>)
    requires |s| >= 2
    ensures AllLeaves(s) == Leaves(s[0]) + (Leaves(s[1]) + AllLeaves(s[2..]))
  {
    assert s[1..][1..] == s[2..];
  }

  /** One pass keeps the total weight of the work list. */
  lemma MergeStepWeight(nodes: seq<Tree>)
    requires |nodes| >= 2
    ensures TotalWeight(MergeStep(nodes)) == TotalWeight(nodes)
  {
    var sorted := SortByWeight(nodes);
    var parent := Merge(sorted[0], sorted[1]);
    SortWork(nodes);
    AppendWork(sorted[2..], [parent]);
    assert sorted[1..][1..] == sorted[2..];
    assert TotalWeight(sorted) == sorted[0].w + (sorted[1].w + TotalWeight(sorted[2..]));
    assert TotalWeight([parent]) == parent.w + TotalWeight([]);
  }

  /** One pass keeps a well-weighted work list well-weighted. */
  lemma MergeStepWellWeighted(nodes: seq<Tree>)
    requires |nodes| >= 2 && AllWellWeighted(nodes)
    ensures AllWellWeighted(MergeStep(nodes))
  {
    var sorted := SortByWeight(nodes);
    var next := MergeStep(nodes);
    forall i | 0 <= i < |next| ensures WellWeighted(next[i]) {
      if i < |next| - 1 {
        assert next[i] == sorted[i + 2];
        assert sorted[i + 2] in multiset(nodes);
      } else {
        assert sorted[0] in multiset(nodes) && sorted[1] in multiset(nodes);
      }
    }
  }

  /**
   * Merging down to one node keeps every leaf of the work list (with its
   * weight), makes the total weight the root's weight, and keeps every node
   * well-weighted.
   */
  lemma {:induction false} CombineKeepsWork(nodes: seq<Tree>)
    requires nodes != []
    ensures var t := Combine(nodes).value;
      && multiset(Leaves(t)) == multiset(AllLeaves(nodes))
      && t.w == TotalWeight(nodes)
      && (AllWellWeighted(nodes) ==> WellWeighted(t))
    decreases |nodes|
  {
    if |nodes| == 1 {
      assert AllLeaves(nodes) == Leaves(nodes[0]) + AllLeaves([]);
      assert TotalWeight(nodes) == nodes[0].w + TotalWeight([]);
    } else {
      assert Combine(nodes) == Combine(MergeStep(nodes));
      CombineKeepsWork(MergeStep(nodes));
      MergeStepLeaves(nodes);
      MergeStepWeight(nodes);
      if AllWellWeighted(nodes) {
        MergeStepWellWeighted(nodes);
      }
    }
  }

  /** `Object.entries(frequencies).map(([symbol, freq]) => new Node(symbol, freq))`. */
  function LeafNodes(frequencies: map<char, nat>): (nodes: seq<Tree>)
    requires frequencies.Keys <= Alphabet
    ensures |nodes| == |frequencies|
  {
    var ks := KeysInOrder(frequencies);
    seq(|ks|, i requires 0 <= i < |ks| => Leaf(ks[i], frequencies[ks[i]]))
  }

  /** The tree the construction builds from a frequency table. */
  function HuffmanTreeOf(frequencies: map<char, nat>): Option<Tree>
    requires frequencies.Keys <= Alphabet
  {
    Combine(LeafNodes(frequencies))
  }

  /**
   * The shape promised for the tree built from `frequencies`: exactly one
   * leaf per symbol, carrying that symbol's count; one internal node per
   * merge; internal weights are sums of their children, so the root weighs
   * the sum of all counts.
   */
  ghost predicate HuffmanShape(t: Tree, frequencies: map<char, nat>)
    requires frequencies.Keys <= Alphabet
  {
    var ls := Leaves(t);
    && |ls| == |frequencies|
    && (forall i :: 0 <= i < |ls| ==> ls[i].Leaf? && ls[i].sym in frequencies && ls[i].w == frequencies[ls[i].sym])
    && (forall c :: c in frequencies ==> Leaf(c, frequencies[c]) in ls)
    && (forall i, j :: 0 <= i < j < |ls| ==> ls[i].sym != ls[j].sym)
    && InternalCount(t) == |frequencies| - 1
    && WellWeighted(t)
    && t.w == TotalWeight(LeafNodes(frequencies))
  }

  lemma {:induction false} LeafNodesLeaves(nodes: seq<Tree>)
    requires forall i :: 0 <= i < |nodes| ==> nodes[i].Leaf?
    ensures AllLeaves(nodes) == nodes
    ensures AllWellWeighted(nodes)
  {
    if nodes != [] {
      LeafNodesLeaves(nodes[1..]);
      assert nodes == [nodes[0]] + nodes[1..];
    }
  }

  /** A symbol that occurs at two positions occurs at least twice. */
  lemma RepeatedTwice<T>(s: seq<T>, i: int, j: int)
    requires 0 <= i < j < |s| && s[i] == s[j]
    ensures multiset(s)[s[i]] >= 2
  {
    assert s == s[..j] + s[j..];
    assert s[i] in s[..j];
    assert s[j] in s[j..];
  }

  lemma {:induction false} DistinctOnce<T>(s: seq<T>, x: T)
    requires Distinct(s)
    ensures multiset(s)[x] <= 1
  {
    if s != [] {
      DistinctOnce(s[1..], x);
      assert s == [s[0]] + s[1..];
      assert s[0] !in s[1..];
    }
  }

  /** The initial work list: distinct leaves, one per table entry. */
  lemma LeafNodesFacts(frequencies: map<char, nat>)
    requires frequencies.Keys <= Alphabet
    ensures var nodes := LeafNodes(frequencies);
      && AllLeaves(nodes) == nodes
      && AllWellWeighted(nodes)
      && Distinct(nodes)
      && (forall x :: x in nodes ==> x.Leaf? && x.sym in frequencies && x.w == frequencies[x.sym])
      && (forall c :: c in frequencies ==> Leaf(c, frequencies[c]) in nodes)
  {
    var nodes := LeafNodes(frequencies);
    var ks := KeysInOrder(frequencies);
    LeafNodesLeaves(nodes);
    forall i, j | 0 <= i < j < |nodes| ensures nodes[i] != nodes[j] {
      assert nodes[i].sym == ks[i] && nodes[j].sym == ks[j];
    }
    forall c | c in frequencies ensures Leaf(c, frequencies[c]) in nodes {
      var k :| 0 <= k < |ks| && ks[k] == c;
      assert nodes[k] == Leaf(c, frequencies[c]);
    }
  }

  /** A sequence with the same elements as a repetition-free leaf list repeats no symbol. */
  lemma PermutedLeavesDistinct(ls: seq<Tree>, nodes: seq<Tree>, frequencies: map<char, nat>)
    requires forall i :: 0 <= i < |ls| ==> ls[i].Leaf?
    requires multiset(ls) == multiset(nodes) && Distinct(nodes)
    requires forall x :: x in nodes ==> x.Leaf? && x.sym in frequencies && x.w == frequencies[x.sym]
    ensures forall i, j :: 0 <= i < j < |ls| ==> ls[i].sym != ls[j].sym
  {
    forall i, j | 0 <= i < j < |ls| ensures ls[i].sym != ls[j].sym {
      assert ls[i] in multiset(nodes) && ls[j] in multiset(nodes);
      if ls[i].sym == ls[j].sym {
        assert ls[i] == ls[j];
        RepeatedTwice(ls, i, j);
        DistinctOnce(nodes, ls[i]);
        assert false;
      }
    }
  }

  /** The tree built from a non-empty frequency table has the promised shape. */
  lemma HuffmanTreeShape(frequencies: map<char, nat>)
    requires frequencies.Keys <= Alphabet && |frequencies| > 0
    ensures HuffmanTreeOf(frequencies).Some?
    ensures HuffmanShape(HuffmanTreeOf(frequencies).value, frequencies)
  {
    LeafNodesFacts(frequencies);
    CombinedShape(LeafNodes(frequencies), frequencies);
  }

  /** Merging a repetition-free list of leaves down to one tree. */
  lemma CombinedShape(nodes: seq<Tree>, frequencies: map<char, nat>)
    requires nodes != []
    requires AllLeaves(nodes) == nodes && AllWellWeighted(nodes) && Distinct(nodes)
    requires forall x :: x in nodes ==> x.Leaf? && x.sym in frequencies && x.w == frequencies[x.sym]
    requires forall c :: c in frequencies ==> Leaf(c, frequencies[c]) in nodes
    ensures var t := Combine(nodes).value;
      var ls := Leaves(t);
      && |ls| == |nodes|
      && (forall i :: 0 <= i < |ls| ==> ls[i].Leaf? && ls[i].sym in frequencies && ls[i].w == frequencies[ls[i].sym])
      && (forall c :: c in frequencies ==> Leaf(c, frequencies[c]) in ls)
      && (forall i, j :: 0 <= i < j < |ls| ==> ls[i].sym != ls[j].sym)
      && InternalCount(t) == |nodes| - 1
      && WellWeighted(t)
      && t.w == TotalWeight(nodes)
  {
    var t := Combine(nodes).value;
    var ls := Leaves(t);
    CombineKeepsWork(nodes);
    assert multiset(ls) == multiset(nodes);
    assert |ls| == |nodes| by {
      assert |multiset(ls)| == |ls| && |multiset(nodes)| == |nodes|;
    }
    LeavesAreLeaves(t);
    forall i | 0 <= i < |ls| ensures ls[i].Leaf? && ls[i].sym in frequencies && ls[i].w == frequencies[ls[i].sym] {
      assert ls[i] in multiset(nodes);
    }
    forall c | c in frequencies ensures Leaf(c, frequencies[c]) in ls {
      assert Leaf(c, frequencies[c]) in multiset(nodes);
    }
    PermutedLeavesDistinct(ls, nodes, frequencies);
    LeafCount(t);
  }

  /**
   * `buildHuffmanTree`: the work list starts as one leaf per table entry
   * and is merged down to the root; an empty table leaves no root.
   */
  method BuildHuffmanTree(frequencies: map<char, nat>) returns (root: Option<Tree>)
    requires frequencies.Keys <= Alphabet
    ensures root == HuffmanTreeOf(frequencies)
    ensures root.None? <==> |frequencies| == 0
    ensures root.Some? ==> HuffmanShape(root.value, frequencies)
  {
    var nodes := LeafNodes(frequencies);
    root := MergeNodes(nodes);
    if root.Some? {
      HuffmanTreeShape(frequencies);
    }
  }

  /**
   * The merge loop of `buildHuffmanTree`: each pass sorts the work list by
   * weight, removes the two front nodes and pushes their parent, so the list
   * shrinks by exactly one; the last node left is the root.
   */
  method MergeNodes(nodes: seq<Tree>) returns (root: Option<Tree>)
    ensures root == Combine(nodes)
  {
    var work := nodes;
    while |work| > 1
      invariant Combine(work) == Combine(nodes)
      decreases |work|
    {
      ghost var before := work;
      var sorted := SortByWeight(work);
      var left := sorted[0];
      var right := sorted[1];
      var newNode := Internal(left.w + right.w, left, right);
      work := sorted[2..] + [newNode];
      MergeStepUnfolds(before, sorted);
    }
    if |work| == 0 {
      root := None;
    } else {
      root := Some(work[0]);
    }
  }

}
