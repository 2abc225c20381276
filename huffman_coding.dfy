/** The Huffman codec (src/Compression/Huffman/HuffmanCoding.php). */
module HuffmanCoding {
  import opened Common
  import opened Bits
  import opened HuffmanTree
  import opened NodeQueue
  import opened CodeTree
  import opened BinaryWriter
  import opened BinaryReader

  /**
   * The unseen tree text format: `(string) $codeTree` and `HuffmanNode::loadFromString`,
   * which reads a tree off the front of a buffer and gives back what follows it
   * (`None` when no tree can be read).
   */
  type TreeWriter = HuffmanNode -> string
  type TreeLoader = string -> Option<(HuffmanNode, string)>

  /**
   * The tree format reads back what it wrote, whatever follows it: the same tree up to
   * weights (which decoding never looks at), and the rest of the buffer untouched.
   */
  ghost predicate TreeFormatRoundTrip(write: TreeWriter, load: TreeLoader) {
    forall t: HuffmanNode, rest: string {:trigger load(write(t) + rest)} ::
      var r := load(write(t) + rest);
      r.Some? && Erase(r.value.0) == Erase(t) && r.value.1 == rest
  }

  // ---- createCodeTree ----

  /**
   * The counting loop of `createCodeTree`: a missing key is created at 0, then
   * `$weights[$sample[$i]]` goes up by one.
   */
  method CountSymbols(sample: string) returns (weights: WeightTable)
    ensures weights == CountWeights(sample)
    ensures DistinctKeys(weights) && IndexOf(weights, Eof).None?
    ensures forall c :: IndexOf(weights, Char(c)).Some? <==> c in sample
    ensures forall c :: WeightOf(weights, Char(c)) == multiset(sample)[c]
  {
    weights := [];
    var i := 0;
    while i < |sample|
      invariant 0 <= i <= |sample|
      invariant weights == CountWeights(sample[..i])
    {
      var s := Char(sample[i]);
      assert sample[..i + 1][..i] == sample[..i];
      var k := IndexOf(weights, s);
      if k.None? {
        weights := weights + [(s, 0)];
        k := Some(|weights| - 1);
      }
      weights := weights[k.value := (s, weights[k.value].1 + 1)];
      i := i + 1;
    }
    assert sample[..i] == sample;
    CountWeightsDistinct(sample);
    forall c ensures IndexOf(weights, Char(c)).Some? <==> c in sample {
      CountWeightsOf(sample, c);
    }
    forall c ensures WeightOf(weights, Char(c)) == multiset(sample)[c] {
      CountWeightsOf(sample, c);
    }
  }

  /** Count the sample, add EOF, load the queue heaviest first, and join the two lightest nodes until one is left. */
  method CreateCodeTree(sample: string) returns (root: HuffmanNode)
    ensures root == BuildTree(sample)
    ensures root.weight == |sample| + 1 && WeightsConsistent(root)
    ensures Eof in Codes(root) && forall i :: 0 <= i < |sample| ==> Char(sample[i]) in Codes(root)
  {
    var counted := CountSymbols(sample);
    var weights := WithEof(counted);
    assert weights == SampleTable(sample);

    var queue := new HuffmanNodeQueue();
    var sorted := SortDesc(weights);
    var j := 0;
    while j < |sorted|
      invariant 0 <= j <= |sorted|
      invariant queue.nodes == LoadAll(sorted[..j])
    {
      assert sorted[..j + 1][..j] == sorted[..j];
      queue.AddNode(Leaf(sorted[j].0, sorted[j].1));
      j := j + 1;
    }
    assert sorted[..j] == sorted;
    ghost var drained := Drain(queue.nodes);
    DrainLoaded(sample);

    while true
      invariant Drain(queue.nodes) == drained
      decreases |queue.nodes|
    {
      var pair := queue.PopTwoNodes();
      if pair.None? {
        break;
      }
      queue.AddNode(Join(pair.value.0, pair.value.1));
    }
    var only := queue.GetOnlyNode();
    root := only.value;
    CodeTreeLeaves(sample);
    CodeTreeSymbols(sample);
  }

  /** Draining the loaded queue leaves the single node `BuildTree` names. */
  lemma DrainLoaded(sample: string)
    ensures Drain(LoadAll(SortDesc(SampleTable(sample)))) == [BuildTree(sample)]
  {
    var table := SampleTable(sample);
    var sorted := SortDesc(table);
    WithEofMeaning(sample);
    SortDescFacts(table);
    assert |sorted| == |multiset(sorted)| == |table| >= 1;
    LoadAllContents(sorted);
    DrainFacts(LoadAll(sorted));
  }

  // ---- encode ----

  /** The codes of `data`'s bytes, one after the other; `None` as soon as a byte has no code. */
  function CodeString(codes: map<Symbol, string>, data: string): Option<string> {
    if data == [] then Some("")
    else if Char(data[0]) !in codes then None
    else match CodeString(codes, data[1..])
      case None => None
      case Some(rest) => Some(codes[Char(data[0])] + rest)
  }

  /** The code text exists exactly when every byte of the data has a code. */
  lemma {:induction false} CodeStringDefined(codes: map<Symbol, string>, data: string)
    ensures CodeString(codes, data).Some? <==> forall i :: 0 <= i < |data| ==> Char(data[i]) in codes
  {
    if data != [] {
      CodeStringDefined(codes, data[1..]);
      assert forall i :: 1 <= i < |data| ==> data[i] == data[1..][i - 1];
    }
  }

  /** A byte without a code makes the whole code text undefined. */
  lemma {:induction false} CodeStringMissing(codes: map<Symbol, string>, data: string, i: nat)
    requires i < |data| && Char(data[i]) !in codes
    ensures CodeString(codes, data).None?
  {
    if i > 0 {
      assert data[1..][i - 1] == data[i];
      CodeStringMissing(codes, data[1..], i - 1);
    }
  }

  /** Coding one more byte appends its code. */
  lemma {:induction false} CodeStringSnoc(codes: map<Symbol, string>, data: string, c: char)
    requires CodeString(codes, data).Some? && Char(c) in codes
    ensures CodeString(codes, data + [c]) == Some(CodeString(codes, data).value + codes[Char(c)])
  {
    if data == [] {
      assert data + [c] == [c] && [c][1..] == [];
      assert CodeString(codes, [c][1..]) == Some("");
      assert CodeString(codes, data).value == "";
      assert "" + codes[Char(c)] == codes[Char(c)] + "" == codes[Char(c)];
    } else {
      var head := codes[Char(data[0])];
      var tail := CodeString(codes, data[1..]).value;
      assert CodeString(codes, data).value == head + tail;
      assert (data + [c])[0] == data[0];
      assert (data + [c])[1..] == data[1..] + [c];
      CodeStringSnoc(codes, data[1..], c);
      assert CodeString(codes, data + [c]) == Some(head + (tail + codes[Char(c)]));
      assert head + (tail + codes[Char(c)]) == (head + tail) + codes[Char(c)];
    }
  }

  /** The EOF code; a tree without an EOF leaf gives PHP `null`, which writes no bits. */
  function EofCode(codes: map<Symbol, string>): string {
    if Eof in codes then codes[Eof] else ""
  }

  /** What `encode($data, $codeTree)` returns: the tree's text, then the packed codes of the data and of EOF. */
  function EncodeSpec(data: string, codeTree: HuffmanNode, write: TreeWriter): Result<string> {
    var codes := Codes(codeTree);
    match CodeString(codes, data)
    case None => Err(CompressionError(SymbolNotInTree))
    case Some(body) => Ok(write(codeTree) + PackPadded(StringBits(body + EofCode(codes))))
  }

  /**
   * The loop of `encode`: write the code of each byte of the data into a new stream, and stop
   * with `false` at the first byte the code table does not hold.
   */
  method WriteCodes(data: string, codeHash: map<Symbol, string>) returns (ok: bool, stream: BitStreamWriter)
    ensures fresh(stream) && stream.Valid()
    ensures ok <==> CodeString(codeHash, data).Some?
    ensures ok ==> stream.written == StringBits(CodeString(codeHash, data).value)
  {
    stream := new BitStreamWriter();
    var i := 0;
    while i < |data|
      invariant 0 <= i <= |data|
      invariant fresh(stream) && stream.Valid()
      invariant CodeString(codeHash, data[..i]).Some?
      invariant stream.written == StringBits(CodeString(codeHash, data[..i]).value)
    {
      var symbol := Char(data[i]);
      if symbol !in codeHash {
        CodeStringMissing(codeHash, data, i);
        return false, stream;
      }
      CodeStringSnoc(codeHash, data[..i], data[i]);
      assert data[..i + 1] == data[..i] + [data[i]];
      stream.WriteString(codeHash[symbol]);
      StringBitsAppend(CodeString(codeHash, data[..i]).value, codeHash[symbol]);
      i := i + 1;
    }
    assert data[..i] == data;
    return true, stream;
  }

  /** Write each byte's code, then the EOF code, and put the tree's text in front of the packed bits. */
  method Encode(data: string, codeTree: HuffmanNode, write: TreeWriter) returns (r: Result<string>)
    ensures r == EncodeSpec(data, codeTree, write)
  {
    var codeHash := Codes(codeTree);
    var ok, stream := WriteCodes(data, codeHash);
    if !ok {
      return Err(CompressionError(SymbolNotInTree));
    }
    stream.WriteString(EofCode(codeHash));
    StringBitsAppend(CodeString(codeHash, data).value, EofCode(codeHash));
    var encodedTree := write(codeTree);
    var encodedData := stream.GetData();
    r := Ok(encodedTree + encodedData);
  }

  /** `encode` throws exactly when some byte of the data has no code in the tree. */
  lemma EncodeFailsExactly(data: string, codeTree: HuffmanNode, write: TreeWriter)
    ensures EncodeSpec(data, codeTree, write).Err? <==> exists i :: 0 <= i < |data| && Char(data[i]) !in Codes(codeTree)
  {
    CodeStringDefined(Codes(codeTree), data);
  }

  // ---- decode ----

  /**
   * The decoding loop from `node` on, with `bits` unread and `decoded` emitted so far:
   * a leaf emits its byte and restarts at the root, the EOF leaf ends the loop, an
   * internal node reads a bit (`1` right, `0` left), and running out of bits is an error.
   * When the root itself is a byte leaf, the PHP loop emits that byte forever.
   */
  function Walk(root: HuffmanNode, node: HuffmanNode, bits: seq<bool>, decoded: string): Result<string>
    decreases |bits|, if node.Leaf? then 1 else 0
  {
    if node.Leaf? then
      if node.symbol == Eof then Ok(decoded)
      else if root.Leaf? then Err(NonTermination)
      else Walk(root, root, bits, decoded + [node.symbol.c])
    else if bits == [] then Err(CompressionError(TruncatedStream))
    else Walk(root, if bits[0] then node.right else node.left, bits[1..], decoded)
  }

  /** What `decode($data)` returns: load the tree off the front, then walk the bits of the rest. */
  function DecodeSpec(data: string, load: TreeLoader): Result<string> {
    match load(data)
    case None => Err(CompressionError(MalformedTree))
    case Some((root, rest)) => Walk(root, root, Unpack(rest), "")
  }

  /** Load the tree, then walk it bit by bit until the EOF leaf. */
  method Decode(data: string, load: TreeLoader) returns (r: Result<string>)
    ensures r == DecodeSpec(data, load)
  {
    var loaded := load(data);
    if loaded.None? {
      return Err(CompressionError(MalformedTree));
    }
    var rootNode, rest := loaded.value.0, loaded.value.1;
    var currentNode := rootNode;
    var reader := new BitStreamReader(rest);
    var decoded := "";
    while true
      invariant reader.Valid()
      invariant Walk(rootNode, currentNode, reader.Remaining(), decoded) == DecodeSpec(data, load)
      decreases |reader.Remaining()|, if currentNode.Leaf? then 1 else 0
    {
      if currentNode.Leaf? {
        var nextSymbol := currentNode.symbol;
        if nextSymbol == Eof {
          return Ok(decoded);
        } else if rootNode.Leaf? {
          // The PHP loop restarts at this same leaf and never returns.
          return Err(NonTermination);
        } else {
          decoded := decoded + [nextSymbol.c];
          currentNode := rootNode;
        }
      } else {
        var bit := reader.ReadBit();
        if bit.None? {
          return Err(CompressionError(TruncatedStream));
        }
        currentNode := if bit.value then currentNode.right else currentNode.left;
      }
    }
  }

  // ---- properties of the codec ----

  /** Decoding never looks at weights. */
  lemma {:induction false} WalkIgnoresWeights(root: HuffmanNode, node: HuffmanNode, bits: seq<bool>, decoded: string)
    ensures Walk(Erase(root), Erase(node), bits, decoded) == Walk(root, node, bits, decoded)
    decreases |bits|, if node.Leaf? then 1 else 0
  {
    if node.Leaf? {
      if node.symbol != Eof && !root.Leaf? {
        WalkIgnoresWeights(root, root, bits, decoded + [node.symbol.c]);
      }
    } else if bits != [] {
      WalkIgnoresWeights(root, if bits[0] then node.right else node.left, bits[1..], decoded);
    }
  }

  /** Reading a symbol's code from `node` leads to that symbol's leaf. */
  lemma {:induction false} WalkAlongCode(root: HuffmanNode, node: HuffmanNode, s: Symbol, rest: seq<bool>, decoded: string)
    requires s in LeafSymbols(node)
    ensures Walk(root, node, StringBits(CodeOf(node, s)) + rest, decoded) == Walk(root, Leaf(s, 0), rest, decoded)
  {
    match node
    case Leaf(_, _) =>
      assert StringBits(CodeOf(node, s)) + rest == rest;
    case Node(l, r, _) =>
      var right := s in LeafSymbols(r);
      var child, d := if right then r else l, if right then '1' else '0';
      var sub := CodeOf(child, s);
      assert CodeOf(node, s) == [d] + sub;
      StringBitsCons(d, sub);
      var bits := StringBits(CodeOf(node, s)) + rest;
      assert bits == [right] + (StringBits(sub) + rest);
      assert bits[0] == right && bits[1..] == StringBits(sub) + rest;
      WalkAlongCode(root, child, s, rest, decoded);
  }

  /** Walking the codes of `data` and then the EOF code gives back `data`, whatever bits follow. */
  lemma {:induction false} WalkDecodesCodes(root: HuffmanNode, data: string, trailing: seq<bool>, decoded: string)
    requires CodeString(Codes(root), data).Some? && Eof in Codes(root)
    ensures Walk(root, root, StringBits(CodeString(Codes(root), data).value + Codes(root)[Eof]) + trailing, decoded)
         == Ok(decoded + data)
  {
    var codes := Codes(root);
    if data == [] {
      WalkEofCode(root, trailing, decoded);
      assert CodeString(codes, data).value + codes[Eof] == codes[Eof];
      assert decoded + data == decoded;
    } else {
      var rest := StringBits(CodeString(codes, data[1..]).value + codes[Eof]) + trailing;
      CodeBitsSplit(codes, data, codes[Eof], trailing);
      WalkOneByte(root, data[0], rest, decoded);
      WalkDecodesCodes(root, data[1..], trailing, decoded + [data[0]]);
      assert decoded + [data[0]] + data[1..] == decoded + data;
    }
  }

  /** The bits of a non-empty code text start with the first byte's code. */
  lemma CodeBitsSplit(codes: map<Symbol, string>, data: string, last: string, trailing: seq<bool>)
    requires data != [] && CodeString(codes, data).Some?
    ensures Char(data[0]) in codes && CodeString(codes, data[1..]).Some?
    ensures StringBits(CodeString(codes, data).value + last) + trailing
         == StringBits(codes[Char(data[0])]) + (StringBits(CodeString(codes, data[1..]).value + last) + trailing)
  {
    var head := codes[Char(data[0])];
    var tail := CodeString(codes, data[1..]).value;
    assert CodeString(codes, data).value + last == head + (tail + last);
    StringBitsAppend(head, tail + last);
  }

  /** Reading the EOF code from the root ends the walk. */
  lemma WalkEofCode(root: HuffmanNode, trailing: seq<bool>, decoded: string)
    requires Eof in LeafSymbols(root)
    ensures Walk(root, root, StringBits(CodeOf(root, Eof)) + trailing, decoded) == Ok(decoded)
  {
    WalkAlongCode(root, root, Eof, trailing, decoded);
  }

  /** Reading one byte's code from the root emits that byte and comes back to the root. */
  lemma WalkOneByte(root: HuffmanNode, c: char, rest: seq<bool>, decoded: string)
    requires Char(c) in LeafSymbols(root) && Eof in LeafSymbols(root)
    ensures Walk(root, root, StringBits(CodeOf(root, Char(c))) + rest, decoded) == Walk(root, root, rest, decoded + [c])
  {
    WalkAlongCode(root, root, Char(c), rest, decoded);
  }

  /** Without the EOF code, the codes of the data run out before an EOF leaf: a truncated stream. */
  lemma {:induction false} WalkWithoutEofFails(root: HuffmanNode, data: string, decoded: string)
    requires root.Node? && CodeString(Codes(root), data).Some?
    ensures Walk(root, root, StringBits(CodeString(Codes(root), data).value), decoded)
         == Err(CompressionError(TruncatedStream))
  {
    var codes := Codes(root);
    if data != [] {
      var c := Char(data[0]);
      var tail := CodeString(codes, data[1..]).value;
      StringBitsAppend(codes[c], tail);
      WalkAlongCode(root, root, c, StringBits(tail), decoded);
      WalkWithoutEofFails(root, data[1..], decoded + [data[0]]);
    }
  }

  /** Once the walk has ended, bits after the ones it read change nothing (the padding is ignored). */
  lemma {:induction false} WalkIgnoresTrailingBits(root: HuffmanNode, node: HuffmanNode, bits: seq<bool>, more: seq<bool>, decoded: string)
    requires Walk(root, node, bits, decoded).Ok?
    ensures Walk(root, node, bits + more, decoded) == Walk(root, node, bits, decoded)
    decreases |bits|, if node.Leaf? then 1 else 0
  {
    if node.Leaf? {
      if node.symbol != Eof {
        WalkIgnoresTrailingBits(root, root, bits, more, decoded + [node.symbol.c]);
      }
    } else {
      assert (bits + more)[0] == bits[0] && (bits + more)[1..] == bits[1..] + more;
      WalkIgnoresTrailingBits(root, if bits[0] then node.right else node.left, bits[1..], more, decoded);
    }
  }

  /**
   * Decoding what `encode` produced gives the data back, for any tree in which every byte of
   * the data and EOF have a code, given a tree format that reads back what it wrote.
   */
  lemma HuffmanRoundTrip(data: string, codeTree: HuffmanNode, write: TreeWriter, load: TreeLoader)
    requires TreeFormatRoundTrip(write, load)
    requires forall i :: 0 <= i < |data| ==> Char(data[i]) in Codes(codeTree)
    requires Eof in Codes(codeTree)
    ensures EncodeSpec(data, codeTree, write).Ok?
    ensures DecodeSpec(EncodeSpec(data, codeTree, write).value, load) == Ok(data)
  {
    var codes := Codes(codeTree);
    CodeStringDefined(codes, data);
    var bits := StringBits(CodeString(codes, data).value + EofCode(codes));
    var packed := PackPadded(bits);
    assert EncodeSpec(data, codeTree, write) == Ok(write(codeTree) + packed);
    DecodeWritten(codeTree, packed, write, load);
    PackPaddedFacts(bits);
    assert EofCode(codes) == codes[Eof];
    var padding := Zeros(PadLength(|bits|));
    assert Unpack(packed) == bits + padding;
    WalkDecodesCodes(codeTree, data, padding, "");
    assert "" + data == data;
  }

  /** Decoding a written tree followed by `packed` walks the original tree over the bits of `packed`. */
  lemma DecodeWritten(codeTree: HuffmanNode, packed: string, write: TreeWriter, load: TreeLoader)
    requires TreeFormatRoundTrip(write, load)
    ensures DecodeSpec(write(codeTree) + packed, load) == Walk(codeTree, codeTree, Unpack(packed), "")
  {
    var loaded := load(write(codeTree) + packed);
    assert loaded.Some? && Erase(loaded.value.0) == Erase(codeTree) && loaded.value.1 == packed;
    var t := loaded.value.0;
    WalkIgnoresWeights(t, t, Unpack(packed), "");
    WalkIgnoresWeights(codeTree, codeTree, Unpack(packed), "");
  }

  /** `decode(encode($d, createCodeTree($d))) == $d`: the tree built from the data codes all of it. */
  lemma CompressRoundTrip(data: string, write: TreeWriter, load: TreeLoader)
    requires TreeFormatRoundTrip(write, load)
    ensures EncodeSpec(data, BuildTree(data), write).Ok?
    ensures DecodeSpec(EncodeSpec(data, BuildTree(data), write).value, load) == Ok(data)
  {
    CodeTreeSymbols(data);
    HuffmanRoundTrip(data, BuildTree(data), write, load);
  }
}
