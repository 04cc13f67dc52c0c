/**
 * Code assignment: a depth-first walk of the Huffman tree that appends '0'
 * for a left branch and '1' for a right branch and records the path to
 * every leaf in the code table, which is passed into each call and returned.
 */
module HuffmanCodes {
  import opened Wrappers
  import opened HuffmanTree

  /** `y` starts with `x` (every word is a prefix of itself). */
  predicate IsPrefix(x: string, y: string) {
    |x| <= |y| && y[..|x|] == x
  }

  /** No code is a prefix of the code of another symbol. */
  predicate PrefixFree(codes: map<char, string>) {
    forall a, b :: a in codes && b in codes && a != b ==> !IsPrefix(codes[a], codes[b])
  }

  /** The symbols of the leaves in a list of nodes. */
  function Syms(ls: seq<Tree>): set<char> {
    set i | 0 <= i < |ls| && ls[i].Leaf? :: ls[i].sym
  }

  /**
   * The entries the walk writes below `t` when it reaches `t` with path
   * `prefix`: a leaf writes its own path; an internal node writes nothing
   * itself, then the left subtree's entries, then the right subtree's,
   * a later write to the same symbol replacing an earlier one.
   */
  function CodeTable(t: Tree, prefix: string): map<char, string> {
    match t
    case Leaf(c, _) => map[c := prefix]
    case Internal(_, l, r) => CodeTable(l, prefix + ['0']) + CodeTable(r, prefix + ['1'])
  }

  /** The table `buildHuffmanCodes` returns: empty when there is no root. */
  function CodesOf(root: Option<Tree>): map<char, string> {
    match root
    case None => map[]
    case Some(t) => CodeTable(t, [])
  }

  /** A word over the bit characters '0' and '1'. */
  predicate Bits(s: string) {
    forall i :: 0 <= i < |s| ==> s[i] == '0' || s[i] == '1'
  }

  /** Reached along a bit-string path, a node writes only bit-string codes. */
  lemma {:induction false} CodeTableBits(t: Tree, prefix: string)
    requires Bits(prefix)
    ensures forall c :: c in CodeTable(t, prefix) ==> Bits(CodeTable(t, prefix)[c])
  {
    match t
    case Leaf(_, _) =>
    case Internal(_, l, r) =>
      CodeTableBits(l, prefix + ['0']);
      CodeTableBits(r, prefix + ['1']);
  }

  /** Every code of the table built from a root is a bit string. */
  lemma CodesOfBits(root: Option<Tree>)
    ensures forall c :: c in CodesOf(root) ==> Bits(CodesOf(root)[c])
  {
    if root.Some? {
      CodeTableBits(root.value, []);
    }
  }

  /**
   * The recursive walk. The source writes into one `codes` object shared by
   * all calls; here the table is passed into each call and handed back, and
   * the caller continues with the table returned. Since that object is only
   * read through the value returned at the end, the result is the same: the
   * table after the walk is the table before it updated with the entries
   * written below `t`.
   */
  method AssignCodes(t: Tree, prefix: string, codes: map<char, string>) returns (out: map<char, string>)
    ensures out == codes + CodeTable(t, prefix)
    decreases t
  {
    out := codes;
    match t {
      case Leaf(c, _) =>
        out := out[c := prefix];
      case Internal(_, l, r) =>
        out := AssignCodes(l, prefix + ['0'], out);
        out := AssignCodes(r, prefix + ['1'], out);
    }
  }

  /**
   * `buildHuffmanCodes(root)`: one code per leaf symbol of the tree, none for
   * internal nodes, no code a prefix of another; non-empty codes below an
   * internal root, the empty code for a lone leaf.
   */
  method BuildHuffmanCodes(root: Option<Tree>) returns (codes: map<char, string>)
    ensures codes == CodesOf(root)
    ensures root.None? ==> codes == map[]
    ensures root.Some? ==> codes.Keys == Syms(Leaves(root.value))
    ensures PrefixFree(codes)
    ensures root.Some? && root.value.Internal? ==> forall c :: c in codes ==> |codes[c]| > 0
    ensures root.Some? && root.value.Leaf? ==> codes == map[root.value.sym := []]
  {
    if root.None? {
      codes := map[];
    } else {
      codes := AssignCodes(root.value, [], map[]);
      assert codes == CodeTable(root.value, []);
      CodeTableKeys(root.value, []);
      CodeTablePrefixFree(root.value, []);
      CodeTableExtends(root.value, []);
    }
  }

  lemma SymsAppend(a: seq<Tree>, b: seq<Tree>)
    ensures Syms(a + b) == Syms(a) + Syms(b)
  {
    forall c | c in Syms(a) ensures c in Syms(a + b) {
      var i :| 0 <= i < |a| && a[i].Leaf? && a[i].sym == c;
      assert (a + b)[i] == a[i];
    }
    forall c | c in Syms(b) ensures c in Syms(a + b) {
      var i :| 0 <= i < |b| && b[i].Leaf? && b[i].sym == c;
      assert (a + b)[|a| + i] == b[i];
    }
  }

  /** Exactly the leaf symbols get a code. */
  lemma {:induction false} CodeTableKeys(t: Tree, prefix: string)
    ensures CodeTable(t, prefix).Keys == Syms(Leaves(t))
  {
    match t
    case Leaf(c, _) =>
      assert Leaves(t)[0] == t;
    case Internal(_, l, r) =>
      CodeTableKeys(l, prefix + ['0']);
      CodeTableKeys(r, prefix + ['1']);
      SymsAppend(Leaves(l), Leaves(r));
  }

  /**
   * Every code written below `t` extends the path to `t`, strictly when `t`
   * is an internal node.
   */
  lemma {:induction false} CodeTableExtends(t: Tree, prefix: string)
    ensures forall c :: c in CodeTable(t, prefix) ==> IsPrefix(prefix, CodeTable(t, prefix)[c])
    ensures t.Internal? ==> forall c :: c in CodeTable(t, prefix) ==> |CodeTable(t, prefix)[c]| > |prefix|
  {
    match t
    case Leaf(_, _) =>
    case Internal(_, l, r) =>
      CodeTableExtends(l, prefix + ['0']);
      CodeTableExtends(r, prefix + ['1']);
      forall c | c in CodeTable(t, prefix)
        ensures IsPrefix(prefix, CodeTable(t, prefix)[c]) && |CodeTable(t, prefix)[c]| > |prefix|
      {
        var p := if c in CodeTable(r, prefix + ['1']) then prefix + ['1'] else prefix + ['0'];
        var code := CodeTable(t, prefix)[c];
        assert IsPrefix(p, code);
        assert code[..|prefix|] == code[..|p|][..|prefix|];
      }
  }

  /** Two words that differ at some position shared by both are not prefixes of each other. */
  lemma DivergentNotPrefix(x: string, y: string, k: int)
    requires 0 <= k < |x| && k < |y| && x[k] != y[k]
    ensures !IsPrefix(x, y) && !IsPrefix(y, x)
  {
  }

  /** The walk produces a prefix-free table. */
  lemma {:induction false} CodeTablePrefixFree(t: Tree, prefix: string)
    ensures PrefixFree(CodeTable(t, prefix))
  {
    match t
    case Leaf(_, _) =>
    case Internal(_, l, r) =>
      var left, right := CodeTable(l, prefix + ['0']), CodeTable(r, prefix + ['1']);
      CodeTablePrefixFree(l, prefix + ['0']);
      CodeTablePrefixFree(r, prefix + ['1']);
      CodeTableExtends(l, prefix + ['0']);
      CodeTableExtends(r, prefix + ['1']);
      var codes := CodeTable(t, prefix);
      forall a, b | a in codes && b in codes && a != b ensures !IsPrefix(codes[a], codes[b]) {
        if a in right && b in right {
        } else if a !in right && b !in right {
        } else if a in right {
          SplitBranchesNotPrefix(prefix, codes[b], codes[a]);
        } else {
          SplitBranchesNotPrefix(prefix, codes[a], codes[b]);
        }
      }
  }

  /** A code below the left branch and one below the right branch are not prefixes of each other. */
  lemma SplitBranchesNotPrefix(prefix: string, x: string, y: string)
    requires IsPrefix(prefix + ['0'], x) && IsPrefix(prefix + ['1'], y)
    ensures !IsPrefix(x, y) && !IsPrefix(y, x)
  {
    var k := |prefix|;
    assert x[k] == (prefix + ['0'])[k] by {
      assert x[..k + 1][k] == x[k];
    }
    assert y[k] == (prefix + ['1'])[k] by {
      assert y[..k + 1][k] == y[k];
    }
    DivergentNotPrefix(x, y, k);
  }

}
