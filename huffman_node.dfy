/**
 * Huffman tree nodes. The PHP class HuffmanNode is not part of this model's
 * sources; this datatype follows its uses in HuffmanCoding.php and
 * HuffmanNodeQueue.php: a leaf carries a symbol and a weight, an inner node two
 * children and a weight, `join` makes an inner node, `getCodeHash` collects codes.
 */
module HuffmanTree {

  /** A data byte, or the `'EOF'` marker symbol outside the byte range. */
  datatype Symbol = Char(c: char) | Eof

  datatype HuffmanNode =
    | Leaf(symbol: Symbol, weight: nat)
    | Node(left: HuffmanNode, right: HuffmanNode, weight: nat)

  /** `HuffmanNode::join`: the lighter node goes left. */
  function Join(first: HuffmanNode, second: HuffmanNode): HuffmanNode {
    Node(first, second, first.weight + second.weight)
  }

  /** The leaves' (symbol, weight) pairs, left to right. */
  function LeafEntries(t: HuffmanNode): seq<(Symbol, nat)> {
    match t
    case Leaf(s, w) => [(s, w)]
    case Node(l, r, _) => LeafEntries(l) + LeafEntries(r)
  }

  /** The symbols of a list of (symbol, weight) pairs. */
  function SymbolsOf(entries: seq<(Symbol, nat)>): (syms: seq<Symbol>)
    ensures |syms| == |entries|
  {
    if entries == [] then [] else [entries[0].0] + SymbolsOf(entries[1..])
  }

  /** The `i`-th symbol is the `i`-th entry's. */
  lemma {:induction false} SymbolsOfIndex(entries: seq<(Symbol, nat)>, i: nat)
    requires i < |entries|
    ensures SymbolsOf(entries)[i] == entries[i].0
  {
    if i > 0 {
      SymbolsOfIndex(entries[1..], i - 1);
    }
  }

  /** A symbol is listed exactly when some entry carries it. */
  lemma SymbolsOfMember(entries: seq<(Symbol, nat)>, s: Symbol)
    ensures s in SymbolsOf(entries) <==> exists i :: 0 <= i < |entries| && entries[i].0 == s
  {
    if s in SymbolsOf(entries) {
      var i :| 0 <= i < |entries| && SymbolsOf(entries)[i] == s;
      SymbolsOfIndex(entries, i);
    }
    if exists i :: 0 <= i < |entries| && entries[i].0 == s {
      var i :| 0 <= i < |entries| && entries[i].0 == s;
      SymbolsOfIndex(entries, i);
    }
  }

  lemma {:induction false} SymbolsOfAppend(a: seq<(Symbol, nat)>, b: seq<(Symbol, nat)>)
    ensures SymbolsOf(a + b) == SymbolsOf(a) + SymbolsOf(b)
  {
    if a != [] {
      assert (a + b)[0] == a[0] && (a + b)[1..] == a[1..] + b;
      SymbolsOfAppend(a[1..], b);
    } else {
      assert a + b == b;
    }
  }

  /** Every internal node weighs what its two children weigh together. */
  predicate WeightsConsistent(t: HuffmanNode) {
    match t
    case Leaf(_, _) => true
    case Node(l, r, w) => w == l.weight + r.weight && WeightsConsistent(l) && WeightsConsistent(r)
  }

  /** Sum of the weights of a list of (symbol, weight) pairs. */
  function EntryWeight(entries: seq<(Symbol, nat)>): nat {
    if entries == [] then 0 else entries[0].1 + EntryWeight(entries[1..])
  }

  lemma {:induction false} EntryWeightAppend(a: seq<(Symbol, nat)>, b: seq<(Symbol, nat)>)
    ensures EntryWeight(a + b) == EntryWeight(a) + EntryWeight(b)
  {
    if a != [] {
      assert (a + b)[1..] == a[1..] + b;
      EntryWeightAppend(a[1..], b);
    } else {
      assert a + b == b;
    }
  }

  /** A consistently weighted tree weighs as much as all its leaves together. */
  lemma {:induction false} WeightIsLeafTotal(t: HuffmanNode)
    requires WeightsConsistent(t)
    ensures t.weight == EntryWeight(LeafEntries(t))
  {
    match t
    case Leaf(_, _) =>
    case Node(l, r, _) =>
      WeightIsLeafTotal(l);
      WeightIsLeafTotal(r);
      EntryWeightAppend(LeafEntries(l), LeafEntries(r));
  }

  /** The symbols the leaves carry. */
  function LeafSymbols(t: HuffmanNode): set<Symbol> {
    match t
    case Leaf(s, _) => {s}
    case Node(l, r, _) => LeafSymbols(l) + LeafSymbols(r)
  }

  /**
   * The code of one symbol: the path from the root to its leaf, `'0'` for a left edge and
   * `'1'` for a right edge. A symbol found twice keeps the code of its rightmost leaf,
   * and a lone leaf has the empty code.
   */
  function CodeOf(t: HuffmanNode, s: Symbol): string
    requires s in LeafSymbols(t)
  {
    match t
    case Leaf(_, _) => ""
    case Node(l, r, _) => if s in LeafSymbols(r) then ['1'] + CodeOf(r, s) else ['0'] + CodeOf(l, s)
  }

  /** `getCodeHash`: every leaf symbol with its code. */
  function Codes(t: HuffmanNode): map<Symbol, string> {
    map s | s in LeafSymbols(t) :: CodeOf(t, s)
  }

  /** A text made of the digits `'0'` and `'1'` only. */
  predicate IsDigitString(code: string) {
    forall i :: 0 <= i < |code| ==> code[i] == '0' || code[i] == '1'
  }

  /** A symbol has a code exactly when some leaf carries it. */
  lemma {:induction false} CodesOfLeaves(t: HuffmanNode)
    ensures forall s :: s in LeafSymbols(t) <==> s in SymbolsOf(LeafEntries(t))
  {
    match t
    case Leaf(_, _) =>
    case Node(l, r, _) =>
      CodesOfLeaves(l);
      CodesOfLeaves(r);
      SymbolsOfAppend(LeafEntries(l), LeafEntries(r));
  }

  /** Every code is a string of binary digits. */
  lemma {:induction false} CodeIsDigits(t: HuffmanNode, s: Symbol)
    requires s in LeafSymbols(t)
    ensures IsDigitString(CodeOf(t, s))
  {
    match t
    case Leaf(_, _) =>
    case Node(l, r, _) =>
      if s in LeafSymbols(r) {
        CodeIsDigits(r, s);
      } else {
        CodeIsDigits(l, s);
      }
  }

  predicate IsPrefix(a: string, b: string) {
    |a| <= |b| && b[..|a|] == a
  }

  /** The codes form a prefix code: no symbol's code begins another symbol's code. */
  lemma {:induction false} CodesArePrefixFree(t: HuffmanNode, s1: Symbol, s2: Symbol)
    requires s1 in LeafSymbols(t) && s2 in LeafSymbols(t) && s1 != s2
    ensures !IsPrefix(CodeOf(t, s1), CodeOf(t, s2))
  {
    match t
    case Leaf(_, _) =>
    case Node(l, r, _) =>
      var c1, c2 := CodeOf(t, s1), CodeOf(t, s2);
      var right1, right2 := s1 in LeafSymbols(r), s2 in LeafSymbols(r);
      var k1 := if right1 then CodeOf(r, s1) else CodeOf(l, s1);
      var k2 := if right2 then CodeOf(r, s2) else CodeOf(l, s2);
      if IsPrefix(c1, c2) {
        assert c2[0] == c1[0];
        assert right1 == right2;
        assert k1 == c1[1..];
        assert k2[..|k1|] == c2[..|c1|][1..];
        if right1 {
          CodesArePrefixFree(r, s1, s2);
        } else {
          CodesArePrefixFree(l, s1, s2);
        }
      }
  }

  /** The tree with all weights set to zero: what decoding looks at. */
  function Erase(t: HuffmanNode): HuffmanNode {
    match t
    case Leaf(s, _) => Leaf(s, 0)
    case Node(l, r, _) => Node(Erase(l), Erase(r), 0)
  }
}
