/**
 * The explicit tree that precedes the Huffman payload (compress.go's
 * `serializeTree` and `deserializeTree`): a pre-order walk writing a tag bit
 * per node, 1 for a leaf followed by its symbol in 9 bits, 0 for an internal
 * node followed by its left and then its right subtree.
 */
module TreeSerialization {
  import opened Bits
  import opened BitWriting
  import opened BitReading
  import opened HuffmanTree
  import opened HuffmanCodes

  /** Bits per serialised leaf symbol. */
  const SymbolBits: nat := 9

  /** A tree `serializeTree` can walk: every node is a leaf or has both children. */
  predicate Full(t: Tree)
  {
    t.Node? && (IsLeaf(t) || (Full(t.left) && Full(t.right)))
  }

  function LeafCount(t: Tree): nat
  {
    if t == Nil then 0 else if IsLeaf(t) then 1 else LeafCount(t.left) + LeafCount(t.right)
  }

  function InternalCount(t: Tree): nat
  {
    if t == Nil || IsLeaf(t) then 0 else 1 + InternalCount(t.left) + InternalCount(t.right)
  }

  /** The bits `serializeTree` writes for `t`. */
  function Serialize(t: Tree): seq<bool>
    requires Full(t)
  {
    if IsLeaf(t) then [true] + ToBits(t.symbol, SymbolBits)
    else [false] + Serialize(t.left) + Serialize(t.right)
  }

  /** A tree read back, and the bits after it. */
  datatype Parsed = Parsed(tree: Tree, rest: seq<bool>)

  /**
   * What `deserializeTree` builds from `bits`: `Nil` when the bits run out
   * at a tag, a leaf with symbol 0 when they run out inside a leaf's symbol,
   * and internal nodes with symbol and frequency 0 (their children may be
   * `Nil`).
   */
  function Deserialize(bits: seq<bool>): (p: Parsed)
    ensures |p.rest| <= |bits|
    ensures p.tree == Nil <==> |bits| == 0
    ensures p.tree != Nil ==> |p.rest| < |bits|
    decreases |bits|
  {
    if |bits| == 0 then Parsed(Nil, bits)
    else if bits[0] then
      if |bits| > SymbolBits then Parsed(Leaf(FromBits(bits[1..SymbolBits + 1]), 0), bits[SymbolBits + 1..])
      else Parsed(Leaf(0, 0), bits[1..])
    else
      var l := Deserialize(bits[1..]);
      var r := Deserialize(l.rest);
      Parsed(Node(0, 0, l.tree, r.tree), r.rest)
  }

  /** `t` as it comes back from the stream: leaf symbols cut to 9 bits, all other fields 0. */
  function Shape(t: Tree): (s: Tree)
    ensures (s == Nil) == (t == Nil) && IsLeaf(s) == IsLeaf(t)
  {
    if t == Nil then Nil
    else if IsLeaf(t) then Leaf(t.symbol % Pow2(SymbolBits), 0)
    else Node(0, 0, Shape(t.left), Shape(t.right))
  }

  /** A tree takes one bit per internal node and ten per leaf. */
  lemma {:induction false} SerializeSize(t: Tree)
    requires Full(t)
    ensures |Serialize(t)| == 10 * LeafCount(t) + InternalCount(t)
  {
    if !IsLeaf(t) {
      SerializeSize(t.left);
      SerializeSize(t.right);
    }
  }

  /** Reading back a serialised tree gives its shape and stops exactly where the tree's bits end. */
  lemma {:induction false} DeserializeSerialize(t: Tree, rest: seq<bool>)
    requires Full(t)
    ensures Deserialize(Serialize(t) + rest) == Parsed(Shape(t), rest)
  {
    if IsLeaf(t) {
      DeserializeLeaf(t, rest);
    } else {
      var sl, sr := Serialize(t.left), Serialize(t.right);
      DeserializeSerialize(t.left, sr + rest);
      DeserializeSerialize(t.right, rest);
      DeserializeInternal(t, rest);
    }
  }

  /** The leaf case of `DeserializeSerialize`. */
  lemma DeserializeLeaf(t: Tree, rest: seq<bool>)
    requires IsLeaf(t)
    ensures Deserialize(Serialize(t) + rest) == Parsed(Shape(t), rest)
  {
    var bits := Serialize(t) + rest;
    var sym := ToBits(t.symbol, SymbolBits);
    assert bits[1..SymbolBits + 1] == sym;
    assert bits[SymbolBits + 1..] == rest;
    FromToBits(t.symbol, SymbolBits);
  }

  /** The internal-node case of `DeserializeSerialize`, given both subtrees' cases. */
  lemma DeserializeInternal(t: Tree, rest: seq<bool>)
    requires Full(t) && !IsLeaf(t)
    requires Deserialize(Serialize(t.left) + (Serialize(t.right) + rest)) == Parsed(Shape(t.left), Serialize(t.right) + rest)
    requires Deserialize(Serialize(t.right) + rest) == Parsed(Shape(t.right), rest)
    ensures Deserialize(Serialize(t) + rest) == Parsed(Shape(t), rest)
  {
    var sl, sr := Serialize(t.left), Serialize(t.right);
    var bits := Serialize(t) + rest;
    ConcatAssoc([false] + sl, sr, rest);
    ConcatAssoc([false], sl, sr + rest);
    assert bits[0] == false && bits[1..] == sl + (sr + rest);
    var l := Deserialize(bits[1..]);
    assert l.rest == sr + rest;
  }

  /** A stream that ends inside a leaf's symbol gives a leaf with symbol 0 and keeps the short tail. */
  lemma TruncatedLeaf(bits: seq<bool>)
    requires 1 <= |bits| <= SymbolBits && bits[0]
    ensures Deserialize(bits) == Parsed(Leaf(0, 0), bits[1..])
  {
  }

  /** Symbols in `t` that fit in 9 bits. */
  predicate SymbolsFit(t: Tree)
  {
    t == Nil || (if IsLeaf(t) then 0 <= t.symbol < Pow2(SymbolBits) else SymbolsFit(t.left) && SymbolsFit(t.right))
  }

  /** When every leaf symbol fits in 9 bits, the tree read back has the same codes. */
  lemma {:induction false} ShapeCodes(t: Tree, code: seq<bool>, table: map<int, seq<bool>>)
    requires SymbolsFit(t)
    ensures GenerateCodes(Shape(t), code, table) == GenerateCodes(t, code, table)
  {
    if t != Nil {
      var here := if IsLeaf(t) then table[t.symbol := code] else table;
      if IsLeaf(t) {
        assert Shape(t).symbol == t.symbol;
      }
      ShapeCodes(t.left, code + [false], here);
      ShapeCodes(t.right, code + [true], GenerateCodes(t.left, code + [false], here));
    }
  }

  /** Every tree `BuildTree` returns is one `serializeTree` can walk. */
  lemma {:induction false} WellBuiltFull(t: Tree)
    requires WellBuilt(t)
    ensures Full(t)
  {
    if !IsLeaf(t) {
      WellBuiltFull(t.left);
      WellBuiltFull(t.right);
    }
  }

  /** Go's `serializeTree`: appends `Serialize(t)` to the writer's stream. */
  method SerializeTree(t: Tree, bw: BitWriter)
    requires Full(t) && bw.Valid()
    modifies bw
    ensures bw.Valid() && bw.Stream() == old(bw.Stream()) + Serialize(t)
    decreases t
  {
    if t.left == Nil && t.right == Nil {
      WriteLeaf(t, bw);
      return;
    }
    bw.WriteBits(0, 1);
    SerializeTree(t.left, bw);
    SerializeTree(t.right, bw);
    InternalBits(old(bw.Stream()), t);
  }

  /** The leaf case of `serializeTree`: tag 1, then the symbol's low 9 bits. */
  method WriteLeaf(t: Tree, bw: BitWriter)
    requires IsLeaf(t) && bw.Valid()
    modifies bw
    ensures bw.Valid() && bw.Stream() == old(bw.Stream()) + Serialize(t)
  {
    bw.WriteBits(1, 1);
    // Go converts the symbol to uint64 and keeps its low 9 bits.
    bw.WriteBits(t.symbol % Pow2(SymbolBits), SymbolBits);
    LeafBits(old(bw.Stream()), t);
  }

  /** The leaf case of `Serialize`, as the writer produces it. */
  lemma LeafBits(before: seq<bool>, t: Tree)
    requires IsLeaf(t)
    ensures before + ToBits(1, 1) + ToBits(t.symbol % Pow2(SymbolBits), SymbolBits) == before + Serialize(t)
  {
    ToBitsMod(t.symbol, SymbolBits);
    assert ToBits(1, 1) == [true];
    ConcatAssoc(before, [true], ToBits(t.symbol, SymbolBits));
  }

  /** The internal-node case of `Serialize`, regrouped as the writer produces it. */
  lemma InternalBits(before: seq<bool>, t: Tree)
    requires Full(t) && !IsLeaf(t)
    ensures before + ToBits(0, 1) + Serialize(t.left) + Serialize(t.right) == before + Serialize(t)
  {
    assert ToBits(0, 1) == [false];
    ConcatAssoc(before + [false], Serialize(t.left), Serialize(t.right));
    ConcatAssoc(before, [false], Serialize(t.left) + Serialize(t.right));
    ConcatAssoc([false], Serialize(t.left), Serialize(t.right));
  }

  /** Go's `deserializeTree`: reads a tree off the reader as `Deserialize` describes. */
  method DeserializeTree(br: BitReader) returns (t: Tree)
    requires br.Valid()
    modifies br
    ensures br.Valid() && Parsed(t, br.Remaining()) == Deserialize(old(br.Remaining()))
    decreases |br.Remaining()|
  {
    ghost var bits := br.Remaining();
    var tag, ok := br.ReadBits(1);
    if !ok {
      return Nil;
    }
    FromOneBit(bits[..1]);
    if tag == 1 {
      // A failed read of the symbol leaves it 0.
      var symbol, _ := br.ReadBits(SymbolBits);
      if |bits| > SymbolBits {
        assert bits[1..][..SymbolBits] == bits[1..SymbolBits + 1];
        assert bits[1..][SymbolBits..] == bits[SymbolBits + 1..];
      }
      return Leaf(symbol, 0);
    }
    var left := DeserializeTree(br);
    var right := DeserializeTree(br);
    t := Node(0, 0, left, right);
  }
}
