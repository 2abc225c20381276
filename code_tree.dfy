/**
 * What `HuffmanCoding::createCodeTree` (src/Compression/Huffman/HuffmanCoding.php)
 * computes, step by step, as functions: the weight table, its `arsort` order, the
 * loaded queue, and the queue drained down to the root.
 */
module CodeTree {
  import opened Common
  import opened HuffmanTree
  import opened NodeQueue

  /** The ordered PHP array `$weights`: (symbol, weight) pairs in insertion order. */
  type WeightTable = seq<(Symbol, nat)>

  /** Where key `s` sits in the table, if it is there (`isset($weights[$s])`). */
  function IndexOf(t: WeightTable, s: Symbol): (r: Option<nat>)
    ensures r.Some? ==> r.value < |t| && t[r.value].0 == s
  {
    if t == [] then None
    else if t[0].0 == s then Some(0)
    else match IndexOf(t[1..], s)
      case None => None
      case Some(k) => Some(k + 1)
  }

  /** `$weights[$s]`, or 0 for a missing key. */
  function WeightOf(t: WeightTable, s: Symbol): nat {
    match IndexOf(t, s)
    case Some(k) => t[k].1
    case None => 0
  }

  /** No key occurs twice. */
  predicate DistinctKeys(t: WeightTable) {
    forall i, j :: 0 <= i < j < |t| ==> t[i].0 != t[j].0
  }

  /** A key is found exactly when some entry carries it. */
  lemma {:induction false} IndexOfMember(t: WeightTable, s: Symbol)
    ensures IndexOf(t, s).Some? <==> s in SymbolsOf(t)
  {
    if t != [] && t[0].0 != s {
      IndexOfMember(t[1..], s);
    }
  }

  /** With distinct keys, each entry is found at its own position. */
  lemma {:induction false} IndexOfEntry(t: WeightTable, i: nat)
    requires DistinctKeys(t) && i < |t|
    ensures IndexOf(t, t[i].0) == Some(i)
  {
    if i > 0 {
      assert DistinctKeys(t[1..]) by {
        forall a, b | 0 <= a < b < |t[1..]| ensures t[1..][a].0 != t[1..][b].0 {
          assert t[1..][a] == t[a + 1] && t[1..][b] == t[b + 1];
        }
      }
      assert t[1..][i - 1] == t[i];
      IndexOfEntry(t[1..], i - 1);
    }
  }

  /** Changing weights but not keys changes no position. */
  lemma {:induction false} IndexOfSameKeys(t: WeightTable, u: WeightTable, s: Symbol)
    requires |t| == |u| && forall i :: 0 <= i < |t| ==> t[i].0 == u[i].0
    ensures IndexOf(u, s) == IndexOf(t, s)
  {
    if t != [] && t[0].0 != s {
      assert forall i :: 0 <= i < |t[1..]| ==> t[1..][i] == t[i + 1] && u[1..][i] == u[i + 1];
      IndexOfSameKeys(t[1..], u[1..], s);
    }
  }

  /** Appending an entry finds the old keys where they were and the new key at the end. */
  lemma {:induction false} IndexOfAppend(t: WeightTable, e: (Symbol, nat), s: Symbol)
    ensures IndexOf(t + [e], s)
         == if IndexOf(t, s).Some? then IndexOf(t, s) else if e.0 == s then Some(|t|) else None
  {
    if t == [] {
      assert t + [e] == [e];
    } else {
      assert (t + [e])[0] == t[0] && (t + [e])[1..] == t[1..] + [e];
      if t[0].0 != s {
        IndexOfAppend(t[1..], e, s);
      }
    }
  }

  /** `$weights[$s]++`, the key created at 0 first when missing: one more occurrence of `s`. */
  function Bump(t: WeightTable, s: Symbol): WeightTable {
    match IndexOf(t, s)
    case Some(k) => t[k := (s, t[k].1 + 1)]
    case None => t + [(s, 1)]
  }

  /** `$weights` after the counting loop has read `sample`. */
  function CountWeights(sample: string): WeightTable
    decreases |sample|
  {
    if sample == [] then [] else Bump(CountWeights(sample[..|sample| - 1]), Char(sample[|sample| - 1]))
  }

  /** `$weights['EOF'] = 1`: the EOF marker joins the table, last unless already there. */
  function WithEof(t: WeightTable): WeightTable {
    match IndexOf(t, Eof)
    case Some(k) => t[k := (Eof, 1)]
    case None => t + [(Eof, 1)]
  }

  /** Bumping `s` finds the same keys plus `s`, and adds one to the weight of `s` only. */
  lemma BumpWeight(t: WeightTable, s: Symbol, x: Symbol)
    requires DistinctKeys(t)
    ensures IndexOf(Bump(t, s), x).Some? <==> IndexOf(t, x).Some? || x == s
    ensures WeightOf(Bump(t, s), x) == WeightOf(t, x) + (if x == s then 1 else 0)
  {
    var u := Bump(t, s);
    match IndexOf(t, s)
    case Some(k) =>
      IndexOfSameKeys(t, u, x);
      if IndexOf(t, x).Some? && IndexOf(t, x).value != k {
        var j := IndexOf(t, x).value;
        assert t[j].0 == x && t[k].0 == s;
      }
    case None =>
      IndexOfAppend(t, (s, 1), x);
      if IndexOf(t, x).Some? {
        IndexOfMember(t, s);
        IndexOfMember(t, x);
        SymbolsOfIndex(t, IndexOf(t, x).value);
      }
  }

  /** Bumping keeps the keys distinct. */
  lemma BumpDistinct(t: WeightTable, s: Symbol)
    requires DistinctKeys(t)
    ensures DistinctKeys(Bump(t, s))
  {
    if IndexOf(t, s).None? {
      forall i | 0 <= i < |t| ensures t[i].0 != s {
        IndexOfMember(t, s);
        SymbolsOfIndex(t, i);
      }
    }
  }

  /** Changing one entry changes the total by the difference of the weights. */
  lemma {:induction false} EntryWeightSet(t: WeightTable, k: nat, e: (Symbol, nat))
    requires k < |t|
    ensures EntryWeight(t[k := e]) + t[k].1 == EntryWeight(t) + e.1
  {
    if k > 0 {
      assert t[k := e][1..] == t[1..][k - 1 := e];
      EntryWeightSet(t[1..], k - 1, e);
    } else {
      assert t[k := e][1..] == t[1..];
    }
  }

  /** Bumping adds one to the total. */
  lemma BumpTotal(t: WeightTable, s: Symbol)
    ensures EntryWeight(Bump(t, s)) == EntryWeight(t) + 1
  {
    match IndexOf(t, s)
    case Some(k) => EntryWeightSet(t, k, (s, t[k].1 + 1));
    case None => EntryWeightAppend(t, [(s, 1)]);
  }

  /** The counted table has distinct keys and no EOF key. */
  lemma {:induction false} CountWeightsDistinct(sample: string)
    ensures DistinctKeys(CountWeights(sample)) && IndexOf(CountWeights(sample), Eof).None?
    decreases |sample|
  {
    if sample != [] {
      var t0 := CountWeights(sample[..|sample| - 1]);
      CountWeightsDistinct(sample[..|sample| - 1]);
      BumpDistinct(t0, Char(sample[|sample| - 1]));
      BumpWeight(t0, Char(sample[|sample| - 1]), Eof);
    }
  }

  /** Counting lists each byte of the sample and weights it by its number of occurrences. */
  lemma {:induction false} CountWeightsOf(sample: string, c: char)
    ensures IndexOf(CountWeights(sample), Char(c)).Some? <==> c in sample
    ensures WeightOf(CountWeights(sample), Char(c)) == multiset(sample)[c]
    decreases |sample|
  {
    if sample != [] {
      var init, last := sample[..|sample| - 1], sample[|sample| - 1];
      assert sample == init + [last];
      CountWeightsOf(init, c);
      CountWeightsDistinct(init);
      BumpWeight(CountWeights(init), Char(last), Char(c));
      assert c in sample <==> c in init || c == last;
      assert multiset(sample) == multiset(init) + multiset{last};
    }
  }

  /** The counts add up to the sample length. */
  lemma {:induction false} CountWeightsTotal(sample: string)
    ensures EntryWeight(CountWeights(sample)) == |sample|
    decreases |sample|
  {
    if sample != [] {
      CountWeightsTotal(sample[..|sample| - 1]);
      BumpTotal(CountWeights(sample[..|sample| - 1]), Char(sample[|sample| - 1]));
    }
  }

  /** The table `createCodeTree` builds for `sample`, EOF included. */
  function SampleTable(sample: string): WeightTable {
    WithEof(CountWeights(sample))
  }

  /** The complete table: the counted bytes, then EOF with weight 1; distinct keys, total one more than the sample length. */
  lemma WithEofMeaning(sample: string)
    ensures SampleTable(sample) == CountWeights(sample) + [(Eof, 1)]
    ensures DistinctKeys(SampleTable(sample))
    ensures EntryWeight(SampleTable(sample)) == |sample| + 1
  {
    var t0 := CountWeights(sample);
    CountWeightsDistinct(sample);
    CountWeightsTotal(sample);
    EntryWeightAppend(t0, [(Eof, 1)]);
    forall i | 0 <= i < |t0| ensures t0[i].0 != Eof {
      IndexOfMember(t0, Eof);
      SymbolsOfIndex(t0, i);
    }
  }

  // ---- arsort: a stable sort by weight, heaviest first ----

  /** A non-empty list is its front followed by its last entry, in contents and in weight. */
  lemma EntrySnoc(es: seq<(Symbol, nat)>)
    requires es != []
    ensures multiset(es) == multiset(es[..|es| - 1]) + multiset{es[|es| - 1]}
    ensures EntryWeight(es) == EntryWeight(es[..|es| - 1]) + es[|es| - 1].1
  {
    var init, last := es[..|es| - 1], [es[|es| - 1]];
    assert es == init + last;
    EntryWeightAppend(init, last);
    assert EntryWeight(last) == last[0].1 + EntryWeight(last[1..]) && last[1..] == [];
  }

  /** Put `e` after every entry at least as heavy (the earlier ones win ties). */
  function InsertDesc(sorted: seq<(Symbol, nat)>, e: (Symbol, nat)): seq<(Symbol, nat)> {
    if sorted == [] then [e]
    else if sorted[0].1 >= e.1 then [sorted[0]] + InsertDesc(sorted[1..], e)
    else [e] + sorted
  }

  /** `arsort($weights)`: heaviest first, equal weights in their original order. */
  function SortDesc(es: seq<(Symbol, nat)>): seq<(Symbol, nat)>
    decreases |es|
  {
    if es == [] then [] else InsertDesc(SortDesc(es[..|es| - 1]), es[|es| - 1])
  }

  predicate SortedDesc(es: seq<(Symbol, nat)>) {
    forall i, j :: 0 <= i < j < |es| ==> es[i].1 >= es[j].1
  }

  /** Every entry weighs at most `w`. */
  predicate AllAtMost(es: seq<(Symbol, nat)>, w: nat) {
    forall i :: 0 <= i < |es| ==> es[i].1 <= w
  }

  /** Inserting keeps the same entries plus `e`. */
  lemma {:induction false} InsertDescMultiset(sorted: seq<(Symbol, nat)>, e: (Symbol, nat))
    ensures multiset(InsertDesc(sorted, e)) == multiset(sorted) + multiset{e}
  {
    if sorted != [] && sorted[0].1 >= e.1 {
      InsertDescMultiset(sorted[1..], e);
      assert sorted == [sorted[0]] + sorted[1..];
    }
  }

  /** Inserting adds the entry's weight to the total. */
  lemma {:induction false} InsertDescWeight(sorted: seq<(Symbol, nat)>, e: (Symbol, nat))
    ensures EntryWeight(InsertDesc(sorted, e)) == EntryWeight(sorted) + e.1
  {
    if sorted != [] && sorted[0].1 >= e.1 {
      var rest := InsertDesc(sorted[1..], e);
      InsertDescWeight(sorted[1..], e);
      assert ([sorted[0]] + rest)[1..] == rest;
    } else if sorted != [] {
      assert ([e] + sorted)[1..] == sorted;
    }
  }

  /** Inserting an entry no heavier than `w` among entries no heavier than `w` keeps that bound. */
  lemma {:induction false} InsertDescBound(sorted: seq<(Symbol, nat)>, e: (Symbol, nat), w: nat)
    requires AllAtMost(sorted, w) && e.1 <= w
    ensures AllAtMost(InsertDesc(sorted, e), w)
  {
    if sorted != [] && sorted[0].1 >= e.1 {
      assert AllAtMost(sorted[1..], w) by {
        forall i | 0 <= i < |sorted[1..]| ensures sorted[1..][i].1 <= w {
          assert sorted[1..][i] == sorted[i + 1];
        }
      }
      InsertDescBound(sorted[1..], e, w);
    }
  }

  /** An entry at least as heavy as every entry of a sorted list heads a sorted list. */
  lemma ConsSorted(x: (Symbol, nat), rest: seq<(Symbol, nat)>)
    requires SortedDesc(rest) && AllAtMost(rest, x.1)
    ensures SortedDesc([x] + rest)
  {
    var r := [x] + rest;
    forall i, j | 0 <= i < j < |r| ensures r[i].1 >= r[j].1 {
      assert r[j] == rest[j - 1];
      if i > 0 {
        assert r[i] == rest[i - 1];
      }
    }
  }

  lemma {:induction false} InsertDescSorted(sorted: seq<(Symbol, nat)>, e: (Symbol, nat))
    requires SortedDesc(sorted)
    ensures SortedDesc(InsertDesc(sorted, e))
  {
    if sorted == [] {
    } else if sorted[0].1 >= e.1 {
      var tail := sorted[1..];
      assert SortedDesc(tail) && AllAtMost(tail, sorted[0].1) by {
        forall i | 0 <= i < |tail| ensures tail[i] == sorted[i + 1] {}
      }
      InsertDescSorted(tail, e);
      InsertDescBound(tail, e, sorted[0].1);
      ConsSorted(sorted[0], InsertDesc(tail, e));
    } else {
      assert AllAtMost(sorted, e.1);
      ConsSorted(e, sorted);
    }
  }

  /** `arsort` keeps the same entries and the same total weight. */
  lemma {:induction false} SortDescFacts(es: seq<(Symbol, nat)>)
    ensures multiset(SortDesc(es)) == multiset(es)
    ensures EntryWeight(SortDesc(es)) == EntryWeight(es)
    decreases |es|
  {
    if es != [] {
      var init, last := es[..|es| - 1], es[|es| - 1];
      SortDescFacts(init);
      InsertDescMultiset(SortDesc(init), last);
      InsertDescWeight(SortDesc(init), last);
      EntrySnoc(es);
    }
  }

  /** `arsort` orders the entries heaviest first. */
  lemma {:induction false} SortDescSorted(es: seq<(Symbol, nat)>)
    ensures SortedDesc(SortDesc(es))
    decreases |es|
  {
    if es != [] {
      SortDescSorted(es[..|es| - 1]);
      InsertDescSorted(SortDesc(es[..|es| - 1]), es[|es| - 1]);
    }
  }

  // ---- the queue: loading the leaves, then joining the two lightest nodes ----

  /** The queue after `addNode(new HuffmanNode($symbol, $weight))` for each entry, in order. */
  function LoadAll(es: seq<(Symbol, nat)>): seq<HuffmanNode>
    decreases |es|
  {
    if es == [] then [] else Insert(LoadAll(es[..|es| - 1]), Leaf(es[|es| - 1].0, es[|es| - 1].1))
  }

  /** All leaves of all nodes of a queue, front to back. */
  function QueueEntries(q: seq<HuffmanNode>): seq<(Symbol, nat)> {
    if q == [] then [] else LeafEntries(q[0]) + QueueEntries(q[1..])
  }

  /** Total weight of the nodes of a queue. */
  function QueueWeight(q: seq<HuffmanNode>): nat {
    if q == [] then 0 else q[0].weight + QueueWeight(q[1..])
  }

  predicate AllConsistent(q: seq<HuffmanNode>) {
    forall i :: 0 <= i < |q| ==> WeightsConsistent(q[i])
  }

  lemma {:induction false} QueueAppend(a: seq<HuffmanNode>, b: seq<HuffmanNode>)
    ensures QueueEntries(a + b) == QueueEntries(a) + QueueEntries(b)
    ensures QueueWeight(a + b) == QueueWeight(a) + QueueWeight(b)
  {
    if a != [] {
      assert (a + b)[0] == a[0] && (a + b)[1..] == a[1..] + b;
      QueueAppend(a[1..], b);
    } else {
      assert a + b == b;
    }
  }

  lemma QueueOfOne(n: HuffmanNode)
    ensures QueueEntries([n]) == LeafEntries(n) && QueueWeight([n]) == n.weight
  {
    assert [n][1..] == [];
  }

  /** `addNode` adds the node's leaves and weight to the queue's. */
  lemma InsertQueueCounts(q: seq<HuffmanNode>, n: HuffmanNode)
    ensures multiset(QueueEntries(Insert(q, n))) == multiset(QueueEntries(q)) + multiset(LeafEntries(n))
    ensures QueueWeight(Insert(q, n)) == QueueWeight(q) + n.weight
  {
    var k := InsertionIndex(q, n.weight);
    var a, b := q[..k], q[k..];
    assert q == a + b;
    QueueAppend(a, b);
    QueueAppend(a + [n], b);
    QueueAppend(a, [n]);
    QueueOfOne(n);
    assert QueueEntries(Insert(q, n)) == QueueEntries(a) + LeafEntries(n) + QueueEntries(b);
  }

  /** `addNode` keeps the queue sorted and every node consistently weighted. */
  lemma InsertQueueShape(q: seq<HuffmanNode>, n: HuffmanNode)
    ensures |Insert(q, n)| == |q| + 1
    ensures SortedByWeight(q) ==> SortedByWeight(Insert(q, n))
    ensures AllConsistent(q) && WeightsConsistent(n) ==> AllConsistent(Insert(q, n))
  {
    var k := InsertionIndex(q, n.weight);
    InsertPlacement(q, n);
    if SortedByWeight(q) { InsertKeepsSorted(q, n); }
    var r := Insert(q, n);
    if AllConsistent(q) && WeightsConsistent(n) {
      forall i | 0 <= i < |r| ensures WeightsConsistent(r[i]) {
        if i < k { assert r[i] == q[i]; } else if i > k { assert r[i] == q[i - 1]; }
      }
    }
  }

  /** The loaded queue holds one leaf per entry and weighs what the entries weigh. */
  lemma {:induction false} LoadAllContents(es: seq<(Symbol, nat)>)
    ensures multiset(QueueEntries(LoadAll(es))) == multiset(es)
    ensures QueueWeight(LoadAll(es)) == EntryWeight(es)
    ensures |LoadAll(es)| == |es|
    decreases |es|
  {
    if es != [] {
      var init, last := es[..|es| - 1], es[|es| - 1];
      LoadAllContents(init);
      InsertQueueCounts(LoadAll(init), Leaf(last.0, last.1));
      InsertLength(LoadAll(init), Leaf(last.0, last.1));
      EntrySnoc(es);
    }
  }

  /** The loaded queue is sorted by weight and made of leaves. */
  lemma {:induction false} LoadAllShape(es: seq<(Symbol, nat)>)
    ensures SortedByWeight(LoadAll(es)) && AllConsistent(LoadAll(es))
    decreases |es|
  {
    if es != [] {
      var init, last := es[..|es| - 1], es[|es| - 1];
      LoadAllShape(init);
      InsertQueueShape(LoadAll(init), Leaf(last.0, last.1));
    }
  }

  /** The `while ($nodes = $queue->popTwoNodes())` loop: join the two front nodes and put the result back, until fewer than two remain. */
  function Drain(q: seq<HuffmanNode>): seq<HuffmanNode>
    decreases |q|
  {
    if |q| < 2 then q else Drain(Insert(q[2..], Join(q[0], q[1])))
  }

  /** The two front nodes and the rest of a queue, as leaves and weight. */
  lemma SplitFront(q: seq<HuffmanNode>)
    requires |q| >= 2
    ensures QueueEntries(q) == LeafEntries(q[0]) + LeafEntries(q[1]) + QueueEntries(q[2..])
    ensures QueueWeight(q) == q[0].weight + q[1].weight + QueueWeight(q[2..])
  {
    assert q[1..][0] == q[1] && q[1..][1..] == q[2..];
  }

  /** Draining a non-empty queue leaves exactly one node and keeps the leaves and the total weight. */
  lemma {:induction false} DrainFacts(q: seq<HuffmanNode>)
    requires |q| >= 1
    ensures |Drain(q)| == 1
    ensures multiset(QueueEntries(Drain(q))) == multiset(QueueEntries(q))
    ensures QueueWeight(Drain(q)) == QueueWeight(q)
    decreases |q|
  {
    if |q| >= 2 {
      var j := Join(q[0], q[1]);
      var next := Insert(q[2..], j);
      InsertQueueCounts(q[2..], j);
      InsertLength(q[2..], j);
      SplitFront(q);
      DrainFacts(next);
    }
  }

  /** Draining keeps every node consistently weighted. */
  lemma {:induction false} DrainConsistent(q: seq<HuffmanNode>)
    requires AllConsistent(q)
    ensures AllConsistent(Drain(q))
    decreases |q|
  {
    if |q| >= 2 {
      var j := Join(q[0], q[1]);
      assert WeightsConsistent(q[0]) && WeightsConsistent(q[1]);
      assert AllConsistent(q[2..]) by {
        forall i | 0 <= i < |q[2..]| ensures WeightsConsistent(q[2..][i]) {
          assert q[2..][i] == q[i + 2];
        }
      }
      InsertQueueShape(q[2..], j);
      InsertLength(q[2..], j);
      DrainConsistent(Insert(q[2..], j));
    }
  }

  /** The tree `createCodeTree($sample)` returns. */
  function BuildTree(sample: string): HuffmanNode {
    var t := SampleTable(sample);
    var es := SortDesc(t);
    WithEofMeaning(sample);
    SortDescFacts(t);
    assert |es| == |multiset(es)| == |t| >= 1;
    LoadAllContents(es);
    DrainFacts(LoadAll(es));
    Drain(LoadAll(es))[0]
  }

  lemma MultisetSameMembers<T>(a: seq<T>, b: seq<T>, x: T)
    requires multiset(a) == multiset(b)
    ensures x in a <==> x in b
  {
    assert x in a <==> x in multiset(a);
    assert x in b <==> x in multiset(b);
  }

  /**
   * The code tree for `sample`: its leaves are the table's entries (one leaf per distinct byte
   * of the sample, weighted by its count, and one EOF leaf of weight 1), internal weights add
   * up, and the root weighs the sample length plus one.
   */
  lemma CodeTreeLeaves(sample: string)
    ensures var root := BuildTree(sample);
      && multiset(LeafEntries(root)) == multiset(SampleTable(sample))
      && WeightsConsistent(root)
      && root.weight == |sample| + 1
  {
    var t := SampleTable(sample);
    WithEofMeaning(sample);
    var es := SortDesc(t);
    SortDescFacts(t);
    LoadAllContents(es);
    LoadAllShape(es);
    var q := LoadAll(es);
    DrainFacts(q);
    DrainConsistent(q);
    var root := BuildTree(sample);
    assert Drain(q) == [root];
    QueueOfOne(root);
    WeightIsLeafTotal(root);
  }

  /** A symbol of `a` is a symbol of any list with the same entries. */
  lemma SymbolsOfSameEntries(a: seq<(Symbol, nat)>, b: seq<(Symbol, nat)>, s: Symbol)
    requires multiset(a) == multiset(b) && s in SymbolsOf(a)
    ensures s in SymbolsOf(b)
  {
    SymbolsOfMember(a, s);
    var i :| 0 <= i < |a| && a[i].0 == s;
    MultisetSameMembers(a, b, a[i]);
    var j :| 0 <= j < |b| && b[j] == a[i];
    SymbolsOfMember(b, s);
  }

  /** The symbols of the sample table: the sample's bytes, and EOF. */
  lemma SampleTableSymbols(sample: string, s: Symbol)
    ensures s in SymbolsOf(SampleTable(sample)) <==> s == Eof || (s.Char? && s.c in sample)
  {
    var t0 := CountWeights(sample);
    WithEofMeaning(sample);
    IndexOfMember(SampleTable(sample), s);
    IndexOfAppend(t0, (Eof, 1), s);
    if s.Char? {
      CountWeightsOf(sample, s.c);
    }
  }

  /** Exactly the bytes of the sample, and EOF, have a code in the tree built from it. */
  lemma CodeTreeSymbols(sample: string)
    ensures var root := BuildTree(sample);
      && (forall c :: Char(c) in Codes(root) <==> c in sample)
      && Eof in Codes(root)
  {
    var t := SampleTable(sample);
    var root := BuildTree(sample);
    CodeTreeLeaves(sample);
    CodesOfLeaves(root);
    forall s ensures s in LeafSymbols(root) <==> s == Eof || (s.Char? && s.c in sample) {
      SampleTableSymbols(sample, s);
      if s in SymbolsOf(LeafEntries(root)) {
        SymbolsOfSameEntries(LeafEntries(root), t, s);
      }
      if s in SymbolsOf(t) {
        SymbolsOfSameEntries(t, LeafEntries(root), s);
      }
    }
  }

  /** Each leaf of the tree built from the sample is weighted by its byte's count, or is EOF with weight 1. */
  lemma CodeTreeLeafWeights(sample: string)
    ensures var root := BuildTree(sample);
      forall e :: e in LeafEntries(root) ==> e == (Eof, 1) || (e.0.Char? && e.1 == multiset(sample)[e.0.c])
  {
    var t, t0 := SampleTable(sample), CountWeights(sample);
    var root := BuildTree(sample);
    WithEofMeaning(sample);
    CodeTreeLeaves(sample);
    forall e | e in LeafEntries(root) ensures e == (Eof, 1) || (e.0.Char? && e.1 == multiset(sample)[e.0.c]) {
      MultisetSameMembers(LeafEntries(root), t, e);
      var j :| 0 <= j < |t| && t[j] == e;
      if j < |t0| {
        assert e == t0[j];
        CountWeightsDistinct(sample);
        IndexOfMember(t0, Eof);
        SymbolsOfIndex(t0, j);
        IndexOfEntry(t0, j);
        CountWeightsOf(sample, e.0.c);
      }
    }
  }
}
