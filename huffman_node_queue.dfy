/** The weight-ordered node queue (src/Compression/Huffman/HuffmanNodeQueue.php). */
module NodeQueue {
  import opened Common
  import opened HuffmanTree

  /** Weights never decrease from front to back. */
  predicate SortedByWeight(q: seq<HuffmanNode>) {
    forall i, j :: 0 <= i < j < |q| ==> q[i].weight <= q[j].weight
  }

  /** Where `addNode` puts a node of weight `w`: the first index whose weight is at least `w`. */
  function InsertionIndex(q: seq<HuffmanNode>, w: nat): (k: nat)
    ensures k <= |q|
  {
    if q == [] || q[0].weight >= w then 0 else 1 + InsertionIndex(q[1..], w)
  }

  /** Every node before the insertion index is lighter than `w`, and the one at it is not. */
  lemma {:induction false} InsertionIndexFacts(q: seq<HuffmanNode>, w: nat)
    ensures var k := InsertionIndex(q, w);
      && (forall i :: 0 <= i < k ==> q[i].weight < w)
      && (k < |q| ==> q[k].weight >= w)
  {
    if q != [] && q[0].weight < w {
      InsertionIndexFacts(q[1..], w);
      assert forall i :: 1 <= i < InsertionIndex(q, w) ==> q[i] == q[1..][i - 1];
    }
  }

  /** The first-index property pins the insertion index down. */
  lemma {:induction false} InsertionIndexUnique(q: seq<HuffmanNode>, w: nat, k: nat)
    requires k <= |q|
    requires forall i :: 0 <= i < k ==> q[i].weight < w
    requires k < |q| ==> q[k].weight >= w
    ensures k == InsertionIndex(q, w)
  {
    if k > 0 {
      assert forall i :: 0 <= i < k - 1 ==> q[1..][i] == q[i + 1];
      InsertionIndexUnique(q[1..], w, k - 1);
    }
  }

  /** The queue after `addNode(n)`. */
  function Insert(q: seq<HuffmanNode>, n: HuffmanNode): seq<HuffmanNode> {
    var k := InsertionIndex(q, n.weight);
    q[..k] + [n] + q[k..]
  }

  /** On an empty queue `addNode` yields the one-node queue. */
  lemma InsertIntoEmpty(n: HuffmanNode)
    ensures Insert([], n) == [n]
  {
  }

  /**
   * The node lands at the first index whose weight is at least its own, so it follows every
   * lighter node and precedes every node of equal weight; the old nodes keep their order.
   */
  lemma InsertPlacement(q: seq<HuffmanNode>, n: HuffmanNode)
    ensures var r, k := Insert(q, n), InsertionIndex(q, n.weight);
      && |r| == |q| + 1
      && r[k] == n
      && (forall i :: 0 <= i < k ==> r[i] == q[i] && q[i].weight < n.weight)
      && (forall i :: k <= i < |q| ==> r[i + 1] == q[i])
      && (k < |q| ==> n.weight <= q[k].weight)
  {
    var r, k := Insert(q, n), InsertionIndex(q, n.weight);
    InsertionIndexFacts(q, n.weight);
    forall i | 0 <= i < k ensures r[i] == q[i] {
      assert r[i] == q[..k][i];
    }
    forall i | k <= i < |q| ensures r[i + 1] == q[i] {
      assert r[i + 1] == q[k..][i - k];
    }
  }

  /** `addNode` grows the queue by one. */
  lemma InsertLength(q: seq<HuffmanNode>, n: HuffmanNode)
    ensures |Insert(q, n)| == |q| + 1
  {
  }

  /** `addNode` adds the node to the queue's contents and nothing else. */
  lemma InsertMultiset(q: seq<HuffmanNode>, n: HuffmanNode)
    ensures multiset(Insert(q, n)) == multiset(q) + multiset{n}
  {
    var k := InsertionIndex(q, n.weight);
    assert q[..k] + q[k..] == q;
    assert multiset(q[..k] + q[k..]) == multiset(q[..k]) + multiset(q[k..]);
  }

  /** `addNode` keeps a sorted queue sorted. */
  lemma InsertKeepsSorted(q: seq<HuffmanNode>, n: HuffmanNode)
    requires SortedByWeight(q)
    ensures SortedByWeight(Insert(q, n))
  {
    var r, k := Insert(q, n), InsertionIndex(q, n.weight);
    InsertPlacement(q, n);
    forall i, j | 0 <= i < j < |r| ensures r[i].weight <= r[j].weight {
      if j < k {
      } else if j == k {
      } else if i < k {
        assert r[j] == q[j - 1];
        assert q[i].weight <= q[j - 1].weight;
      } else if i == k {
        assert r[j] == q[j - 1];
        assert q[k].weight <= q[j - 1].weight;
      } else {
        assert r[i] == q[i - 1] && r[j] == q[j - 1];
      }
    }
  }

  class HuffmanNodeQueue {
    var nodes: seq<HuffmanNode>

    constructor ()
      ensures nodes == []
    {
      nodes := [];
    }

    /** Put `node` into the queue before the first node at least as heavy. */
    method AddNode(node: HuffmanNode)
      modifies this
      ensures nodes == Insert(old(nodes), node)
    {
      if |nodes| == 0 {
        nodes := [node];
        return;
      }
      var index := 0;
      while index < |nodes| && nodes[index].weight < node.weight
        invariant 0 <= index <= |nodes|
        invariant forall i :: 0 <= i < index ==> nodes[i].weight < node.weight
      {
        index := index + 1;
      }
      InsertionIndexUnique(nodes, node.weight, index);
      nodes := nodes[..index] + [node] + nodes[index..];
    }

    /** The two front (lightest) nodes, removed from the queue; `false` (None) with fewer than two. */
    method PopTwoNodes() returns (pair: Option<(HuffmanNode, HuffmanNode)>)
      modifies this
      ensures |old(nodes)| > 1 ==> pair == Some((old(nodes)[0], old(nodes)[1])) && nodes == old(nodes)[2..]
      ensures |old(nodes)| <= 1 ==> pair == None && nodes == old(nodes)
    {
      if |nodes| > 1 {
        var first := nodes[0];
        nodes := nodes[1..];
        var second := nodes[0];
        nodes := nodes[1..];
        pair := Some((first, second));
      } else {
        pair := None;
      }
    }

    /** The single remaining node; a CompressionException for any other count. */
    method GetOnlyNode() returns (r: Result<HuffmanNode>)
      ensures r.Ok? <==> |nodes| == 1
      ensures r.Ok? ==> r.value == nodes[0]
      ensures r.Err? ==> r.error == CompressionError(WrongNodeCount)
    {
      if |nodes| == 1 {
        r := Ok(nodes[0]);
      } else {
        r := Err(CompressionError(WrongNodeCount));
      }
    }
  }
}
