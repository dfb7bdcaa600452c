/**
 * Codes from the Huffman tree (huffman.go's `GenerateCodes`) and the walk
 * that reads one symbol back (`decodeNextSymbol`). A code is a bit string,
 * `false` for Go's '0' (go left) and `true` for '1' (go right).
 */
module HuffmanCodes {
  import opened Common
  import opened Bits
  import opened BitReading
  import opened HuffmanTree
  import opened LZ77Codes

  /**
   * Go's `GenerateCodes`: a pre-order walk that records each leaf's path in
   * `table`. A leaf visited later overwrites an earlier leaf with the same
   * symbol.
   */
  function GenerateCodes(node: Tree, code: seq<bool>, table: map<int, seq<bool>>): (r: map<int, seq<bool>>)
    ensures r.Keys == table.Keys + Symbols(node)
  {
    if node == Nil then table
    else
      var here := if IsLeaf(node) then table[node.symbol := code] else table;
      GenerateCodes(node.right, code + [true], GenerateCodes(node.left, code + [false], here))
  }

  /** The symbols of the leaves of `t`. */
  function Symbols(t: Tree): set<int>
  {
    if t == Nil then {}
    else if IsLeaf(t) then {t.symbol}
    else Symbols(t.left) + Symbols(t.right)
  }

  /** The table `HuffmanCompress` builds from the root. */
  function Codes(root: Tree): map<int, seq<bool>>
  {
    GenerateCodes(root, [], map[])
  }

  /** The node reached from `node` along `path`, or `Nil` once the path leaves the tree. */
  function Follow(node: Tree, path: seq<bool>): Tree
    decreases |path|
  {
    if node == Nil || path == [] then node
    else Follow(if path[0] then node.right else node.left, path[1..])
  }

  /** `c` is `code` followed by a path from `node` to a leaf holding `s`. */
  ghost predicate PathTo(node: Tree, code: seq<bool>, c: seq<bool>, s: int)
  {
    |code| <= |c| && c[..|code|] == code && IsLeaf(Follow(node, c[|code|..]))
    && Follow(node, c[|code|..]).symbol == s
  }

  /** An entry of the table either came in with `table` or was set along a path through `node`. */
  ghost predicate Recorded(node: Tree, code: seq<bool>, table: map<int, seq<bool>>, r: map<int, seq<bool>>, s: int)
    requires s in r
  {
    (s in table && r[s] == table[s]) || PathTo(node, code, r[s], s)
  }

  /**
   * Every code in the table leads from the root to a leaf with that symbol;
   * symbols first seen in `node` get `code` followed by their path in `node`.
   */
  lemma {:induction false} GenerateCodesPaths(node: Tree, code: seq<bool>, table: map<int, seq<bool>>)
    ensures forall s :: s in GenerateCodes(node, code, table) ==>
      Recorded(node, code, table, GenerateCodes(node, code, table), s)
    decreases node
  {
    if node != Nil {
      var here := if IsLeaf(node) then table[node.symbol := code] else table;
      var afterLeft := GenerateCodes(node.left, code + [false], here);
      GenerateCodesPaths(node.left, code + [false], here);
      GenerateCodesPaths(node.right, code + [true], afterLeft);
      var r := GenerateCodes(node, code, table);
      assert r == GenerateCodes(node.right, code + [true], afterLeft);
      forall s | s in r
        ensures Recorded(node, code, table, r, s)
      {
        assert Recorded(node.right, code + [true], afterLeft, r, s);
        RecordedStep(node, code, table, here, afterLeft, r, s);
      }
    }
  }

  /** One entry of `GenerateCodesPaths`' inductive step. */
  lemma RecordedStep(node: Tree, code: seq<bool>, table: map<int, seq<bool>>,
                     here: map<int, seq<bool>>, afterLeft: map<int, seq<bool>>, r: map<int, seq<bool>>, s: int)
    requires node != Nil && here == (if IsLeaf(node) then table[node.symbol := code] else table)
    requires afterLeft.Keys <= r.Keys && here.Keys <= afterLeft.Keys && table.Keys <= here.Keys
    requires s in r
    requires Recorded(node.right, code + [true], afterLeft, r, s)
    requires s in afterLeft ==> Recorded(node.left, code + [false], here, afterLeft, s)
    ensures Recorded(node, code, table, r, s)
  {
    if !(s in afterLeft && r[s] == afterLeft[s]) {
      PathBelow(node, code, true, r[s]);
    } else if !(s in here && afterLeft[s] == here[s]) {
      PathBelow(node, code, false, r[s]);
    } else if !(s in table && here[s] == table[s]) {
      assert r[s] == code && r[s][|code|..] == [];
    }
  }

  /** A path through the `dir` child of `node`, seen from `node`. */
  lemma PathBelow(node: Tree, code: seq<bool>, dir: bool, c: seq<bool>)
    requires node != Nil && |code + [dir]| <= |c| && c[..|code| + 1] == code + [dir]
    ensures |code| <= |c| && c[..|code|] == code
    ensures Follow(node, c[|code|..]) == Follow(if dir then node.right else node.left, c[|code| + 1..])
  {
    assert c[|code|] == dir;
    assert c[|code|..][1..] == c[|code| + 1..];
  }

  /** What `decodeNextSymbol` returns: the symbol and the bits it leaves unread. */
  datatype Decoded = Decoded(symbol: int, rest: seq<bool>)

  /**
   * Go's `decodeNextSymbol` from node `curr` on the bit stream `bits`: stops
   * at a leaf, returns the end-of-block symbol when the bits run out, and on
   * a missing child returns the symbol of the node it stands on, after the
   * bit it read.
   */
  function NextSymbol(curr: Tree, bits: seq<bool>): (d: Decoded)
    requires curr.Node?
    ensures |d.rest| <= |bits|
    decreases curr
  {
    if curr.left == Nil && curr.right == Nil then Decoded(curr.symbol, bits)
    else if |bits| == 0 then Decoded(EndOfBlock, bits)
    else
      var next := if bits[0] then curr.right else curr.left;
      if next == Nil then Decoded(curr.symbol, bits[1..])
      else
        NextSymbol(next, bits[1..])
  }

  /** Walking a path to a leaf reads exactly that path and returns the leaf's symbol. */
  lemma {:induction false} DecodePath(node: Tree, path: seq<bool>, rest: seq<bool>)
    requires IsLeaf(Follow(node, path))
    ensures node.Node? && NextSymbol(node, path + rest) == Decoded(Follow(node, path).symbol, rest)
    decreases |path|
  {
    if path != [] {
      var next := if path[0] then node.right else node.left;
      assert (path + rest)[1..] == path[1..] + rest;
      DecodePath(next, path[1..], rest);
    }
  }

  /** Decoding the code of a symbol in the table gives back that symbol and consumes exactly its code. */
  lemma DecodeCode(root: Tree, s: int, rest: seq<bool>)
    requires s in Codes(root)
    ensures root.Node? && NextSymbol(root, Codes(root)[s] + rest) == Decoded(s, rest)
  {
    GenerateCodesPaths(root, [], map[]);
    assert Recorded(root, [], map[], Codes(root), s);
    assert Codes(root)[s][0..] == Codes(root)[s];
    DecodePath(root, Codes(root)[s], rest);
  }

  /** The codes are prefix-free: no symbol's code begins another symbol's code. */
  lemma CodesPrefixFree(root: Tree, s: int, t: int)
    requires s in Codes(root) && t in Codes(root) && s != t
    ensures var cs, ct := Codes(root)[s], Codes(root)[t];
      !(|cs| <= |ct| && ct[..|cs|] == cs)
  {
    var cs, ct := Codes(root)[s], Codes(root)[t];
    if |cs| <= |ct| && ct[..|cs|] == cs {
      var rest := ct[|cs|..];
      assert cs + rest == ct + [];
      DecodeCode(root, t, []);
      DecodeCode(root, s, rest);
      assert false;
    }
  }

  /** A code is as long as its leaf is deep: it is the leaf's path from the root. */
  lemma CodeIsPath(root: Tree, s: int)
    requires s in Codes(root)
    ensures IsLeaf(Follow(root, Codes(root)[s])) && Follow(root, Codes(root)[s]).symbol == s
  {
    GenerateCodesPaths(root, [], map[]);
    assert Recorded(root, [], map[], Codes(root), s);
    assert Codes(root)[s][0..] == Codes(root)[s];
  }

  /** A root that is a lone leaf gets the empty code. */
  lemma LoneLeafCode(symbol: int, freq: int)
    ensures Codes(Leaf(symbol, freq)) == map[symbol := []]
  {
    var t := Leaf(symbol, freq);
    var m: map<int, seq<bool>> := map[symbol := []];
    assert IsLeaf(t);
    assert GenerateCodes(t.left, [false], m) == m;
    assert GenerateCodes(t, [], map[]) == GenerateCodes(t.right, [true], GenerateCodes(t.left, [false], m));
  }

  /** A bit string of length one read as a number. */
  lemma FromOneBit(bs: seq<bool>)
    requires |bs| == 1
    ensures FromBits(bs) == (if bs[0] then 1 else 0)
  {
    assert bs[..0] == [];
  }

  /**
   * Go's `decodeNextSymbol` on the reader: one `ReadBits(1)` per step down
   * the tree.
   */
  method DecodeNextSymbol(root: Tree, br: BitReader) returns (symbol: int)
    requires root.Node? && br.Valid()
    modifies br
    ensures br.Valid()
    ensures Decoded(symbol, br.Remaining()) == NextSymbol(root, old(br.Remaining()))
  {
    var curr := root;
    while curr.left != Nil || curr.right != Nil
      invariant curr.Node? && br.Valid()
      invariant NextSymbol(curr, br.Remaining()) == NextSymbol(root, old(br.Remaining()))
      decreases curr
    {
      ghost var bits := br.Remaining();
      var bit, ok := br.ReadBits(1);
      if !ok {
        return EndOfBlock;
      }
      FromOneBit(bits[..1]);
      if bit == 0 {
        if curr.left == Nil {
          break;
        }
        curr := curr.left;
      } else {
        if curr.right == Nil {
          break;
        }
        curr := curr.right;
      }
    }
    symbol := curr.symbol;
  }
}
