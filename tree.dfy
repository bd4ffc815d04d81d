/** The Huffman tree and its construction (`HuffmanNode`, `buildTree`, `createNodeQueue`). */
module HuffmanTree {
  import opened Results

  /** A `HuffmanNode`. A leaf carries a character; a node made by a merge carries two
      children. The Java class allows a node with one null child, but no code path builds
      one, so the type admits only full binary trees. Merged nodes hold the char '\0',
      which nothing reads, so `Internal` has no char. */
  datatype Node =
    | Leaf(ch: char, frequency: nat)
    | Internal(frequency: nat, left: Node, right: Node)

  /** A frequency table: the entries of a `Map<Character, Integer>` in iteration order. */
  type FrequencyTable = seq<(char, nat)>

  /** The leaves of a tree, left to right, as (char, frequency) entries. */
  function Leaves(t: Node): seq<(char, nat)>
  {
    match t
    case Leaf(c, f) => [(c, f)]
    case Internal(_, l, r) => Leaves(l) + Leaves(r)
  }

  /** The chars of the leaves, left to right (the order of a preorder walk). */
  function LeafChars(t: Node): seq<char>
  {
    match t
    case Leaf(c, _) => [c]
    case Internal(_, l, r) => LeafChars(l) + LeafChars(r)
  }

  function LeafCount(t: Node): nat
  {
    match t
    case Leaf(_, _) => 1
    case Internal(_, l, r) => LeafCount(l) + LeafCount(r)
  }

  function InternalCount(t: Node): nat
  {
    match t
    case Leaf(_, _) => 0
    case Internal(_, l, r) => 1 + InternalCount(l) + InternalCount(r)
  }

  /** Every merged node weighs what its two children weigh together. */
  predicate WellWeighted(t: Node)
  {
    match t
    case Leaf(_, _) => true
    case Internal(f, l, r) => f == l.frequency + r.frequency && WellWeighted(l) && WellWeighted(r)
  }

  /** Every tree of a queue is well weighted. */
  predicate AllWellWeighted(q: seq<Node>)
  {
    forall i :: 0 <= i < |q| ==> WellWeighted(q[i])
  }

  /** The chars of a table's entries, in order. */
  function Keys(entries: FrequencyTable): (ks: seq<char>)
    ensures |ks| == |entries|
    ensures forall k :: 0 <= k < |entries| ==> ks[k] == entries[k].0
  {
    seq(|entries|, k requires 0 <= k < |entries| => entries[k].0)
  }

  /** The sum of all counts of a table. */
  function SumCounts(entries: FrequencyTable): nat
  {
    if entries == [] then 0 else SumCounts(entries[..|entries| - 1]) + entries[|entries| - 1].1
  }

  /** The leaves of every tree in a queue, queue order first. */
  function QueueLeaves(q: seq<Node>): FrequencyTable
  {
    if q == [] then [] else QueueLeaves(q[..|q| - 1]) + Leaves(q[|q| - 1])
  }

  /** The combined frequency of the trees in a queue. */
  function QueueWeight(q: seq<Node>): nat
  {
    if q == [] then 0 else QueueWeight(q[..|q| - 1]) + q[|q| - 1].frequency
  }

  /** A full binary tree has one more leaf than it has merged nodes, and its leaf lists agree. */
  lemma {:induction false} FullTreeCounts(t: Node)
    ensures LeafCount(t) == InternalCount(t) + 1
    ensures |Leaves(t)| == LeafCount(t) && |LeafChars(t)| == LeafCount(t)
    ensures LeafChars(t) == Keys(Leaves(t))
  {
    match t
    case Leaf(_, _) =>
    case Internal(_, l, r) =>
      FullTreeCounts(l);
      FullTreeCounts(r);
  }

  /** In a well-weighted tree the root's frequency is the sum of its leaves' frequencies. */
  lemma {:induction false} RootWeighsLeaves(t: Node)
    requires WellWeighted(t)
    ensures t.frequency == SumCounts(Leaves(t))
  {
    match t
    case Leaf(_, _) =>
      assert Leaves(t)[..0] == [];
    case Internal(_, l, r) =>
      RootWeighsLeaves(l);
      RootWeighsLeaves(r);
      SumCountsAppend(Leaves(l), Leaves(r));
  }

  lemma {:induction false} SumCountsAppend(a: FrequencyTable, b: FrequencyTable)
    ensures SumCounts(a + b) == SumCounts(a) + SumCounts(b)
    decreases |b|
  {
    if b == [] {
      assert a + b == a;
    } else {
      var b' := b[..|b| - 1];
      assert (a + b)[..|a + b| - 1] == a + b';
      SumCountsAppend(a, b');
    }
  }

  lemma {:induction false} QueueAppendLeaves(a: seq<Node>, b: seq<Node>)
    ensures QueueLeaves(a + b) == QueueLeaves(a) + QueueLeaves(b)
    decreases |b|
  {
    if b == [] {
      assert a + b == a;
    } else {
      var b' := b[..|b| - 1];
      assert (a + b)[..|a + b| - 1] == a + b';
      QueueAppendLeaves(a, b');
    }
  }

  lemma {:induction false} QueueAppendWeight(a: seq<Node>, b: seq<Node>)
    ensures QueueWeight(a + b) == QueueWeight(a) + QueueWeight(b)
    decreases |b|
  {
    if b == [] {
      assert a + b == a;
    } else {
      var b' := b[..|b| - 1];
      assert (a + b)[..|a + b| - 1] == a + b';
      QueueAppendWeight(a, b');
    }
  }

  /** Taking the node at index k out of a queue takes exactly its leaves and its weight out. */
  lemma {:induction false} RemoveFromQueue(q: seq<Node>, k: nat)
    requires k < |q|
    ensures multiset(QueueLeaves(q)) == multiset(Leaves(q[k])) + multiset(QueueLeaves(RemoveAt(q, k)))
    ensures QueueWeight(q) == q[k].frequency + QueueWeight(RemoveAt(q, k))
  {
    var a, x, b := q[..k], q[k], q[k + 1..];
    assert q == (a + [x]) + b;
    QueueAppendLeaves(a + [x], b);
    QueueAppendWeight(a + [x], b);
    AppendOne(a, x);
    QueueAppendLeaves(a, b);
    QueueAppendWeight(a, b);
    calc {
      multiset(QueueLeaves(q));
      multiset(QueueLeaves(a) + Leaves(x) + QueueLeaves(b));
      multiset(Leaves(x)) + multiset(QueueLeaves(a) + QueueLeaves(b));
    }
  }

  lemma {:induction false} AppendOne(q: seq<Node>, x: Node)
    ensures QueueLeaves(q + [x]) == QueueLeaves(q) + Leaves(x)
    ensures QueueWeight(q + [x]) == QueueWeight(q) + x.frequency
  {
    assert (q + [x])[..|q|] == q;
  }

  /** The head of the priority queue: the first node of least frequency, so that ties
      leave in insertion order. */
  function MinIndex(q: seq<Node>): (k: nat)
    requires |q| > 0
    ensures k < |q|
    ensures forall j :: 0 <= j < |q| ==> q[k].frequency <= q[j].frequency
    ensures forall j :: 0 <= j < k ==> q[j].frequency > q[k].frequency
  {
    if |q| == 1 then 0
    else
      var k := MinIndex(q[..|q| - 1]);
      if q[|q| - 1].frequency < q[k].frequency then |q| - 1 else k
  }

  /** The queue without its node at index k. */
  function RemoveAt(q: seq<Node>, k: nat): (r: seq<Node>)
    requires k < |q|
    ensures |r| == |q| - 1
  {
    q[..k] + q[k + 1..]
  }

  /** The merged node `buildTree` creates: it weighs what its two children weigh together. */
  function Merge(first: Node, second: Node): Node
  {
    Internal(first.frequency + second.frequency, first, second)
  }

  /** The node `remove` takes out of a non-empty queue. */
  function Head(q: seq<Node>): Node
    requires |q| > 0
  {
    q[MinIndex(q)]
  }

  /** The queue `remove` leaves behind. */
  function Rest(q: seq<Node>): (r: seq<Node>)
    requires |q| > 0
    ensures |r| == |q| - 1
  {
    RemoveAt(q, MinIndex(q))
  }

  /** The queue after one turn of the merge loop: the two lightest trees leave and their
      merge joins at the back. */
  function MergeStep(q: seq<Node>): (next: seq<Node>)
    requires |q| > 1
    ensures |next| == |q| - 1
  {
    Rest(Rest(q)) + [Merge(Head(q), Head(Rest(q)))]
  }

  /** The tree the merge loop ends with: merge until one tree remains. */
  function MergeAll(q: seq<Node>): Node
    requires |q| > 0
    decreases |q|
  {
    if |q| == 1 then q[0] else MergeAll(MergeStep(q))
  }

  /** The queue `createNodeQueue` builds: one leaf per entry, in the table's order. */
  function LeafQueue(entries: FrequencyTable): (q: seq<Node>)
    ensures |q| == |entries|
  {
    seq(|entries|, i requires 0 <= i < |entries| => Leaf(entries[i].0, entries[i].1))
  }

  /** One merge keeps the leaves the queue holds. */
  lemma {:induction false} MergeStepKeepsLeaves(q: seq<Node>)
    requires |q| > 1
    ensures multiset(QueueLeaves(MergeStep(q))) == multiset(QueueLeaves(q))
  {
    var k1 := MinIndex(q);
    var q1 := RemoveAt(q, k1);
    var k2 := MinIndex(q1);
    var q2 := RemoveAt(q1, k2);
    var node := Merge(q[k1], q1[k2]);
    RemoveFromQueue(q, k1);
    RemoveFromQueue(q1, k2);
    AppendOne(q2, node);
  }

  /** One merge keeps the weight the queue holds. */
  lemma {:induction false} MergeStepKeepsWeight(q: seq<Node>)
    requires |q| > 1
    ensures QueueWeight(MergeStep(q)) == QueueWeight(q)
  {
    var k1 := MinIndex(q);
    var q1 := RemoveAt(q, k1);
    var k2 := MinIndex(q1);
    var q2 := RemoveAt(q1, k2);
    var node := Merge(q[k1], q1[k2]);
    RemoveFromQueue(q, k1);
    RemoveFromQueue(q1, k2);
    AppendOne(q2, node);
  }

  /** One merge keeps every tree of the queue well weighted. */
  lemma {:induction false} MergeStepKeepsWeighting(q: seq<Node>)
    requires |q| > 1 && AllWellWeighted(q)
    ensures AllWellWeighted(MergeStep(q))
  {
    var k1 := MinIndex(q);
    var q1 := RemoveAt(q, k1);
    var k2 := MinIndex(q1);
    var q2 := RemoveAt(q1, k2);
    assert AllWellWeighted(q1) by {
      forall i | 0 <= i < |q1| ensures WellWeighted(q1[i]) {
        assert q1[i] == q[if i < k1 then i else i + 1];
      }
    }
    assert AllWellWeighted(q2) by {
      forall i | 0 <= i < |q2| ensures WellWeighted(q2[i]) {
        assert q2[i] == q1[if i < k2 then i else i + 1];
      }
    }
  }

  /** The merged tree holds exactly the leaves of the queue it was merged from. */
  lemma {:induction false} MergeAllKeepsLeaves(q: seq<Node>)
    requires |q| > 0
    ensures multiset(Leaves(MergeAll(q))) == multiset(QueueLeaves(q))
    decreases |q|
  {
    if |q| == 1 {
      AppendOne([], q[0]);
      assert q == [] + [q[0]];
    } else {
      MergeStepKeepsLeaves(q);
      MergeAllKeepsLeaves(MergeStep(q));
    }
  }

  /** Merging well-weighted trees gives a well-weighted tree as heavy as the whole queue. */
  lemma {:induction false} MergeAllKeepsWeight(q: seq<Node>)
    requires |q| > 0 && AllWellWeighted(q)
    ensures WellWeighted(MergeAll(q)) && MergeAll(q).frequency == QueueWeight(q)
    decreases |q|
  {
    if |q| == 1 {
      AppendOne([], q[0]);
      assert q == [] + [q[0]];
    } else {
      MergeStepKeepsWeight(q);
      MergeStepKeepsWeighting(q);
      MergeAllKeepsWeight(MergeStep(q));
      assert MergeAll(q) == MergeAll(MergeStep(q));
    }
  }

  /** The leaf queue holds the table's entries and their total count, as well-weighted leaves. */
  lemma {:induction false} LeafQueueHoldsTable(entries: FrequencyTable)
    ensures QueueLeaves(LeafQueue(entries)) == entries
    ensures QueueWeight(LeafQueue(entries)) == SumCounts(entries)
    ensures AllWellWeighted(LeafQueue(entries))
    decreases |entries|
  {
    if entries != [] {
      var init := entries[..|entries| - 1];
      LeafQueueHoldsTable(init);
      assert LeafQueue(entries)[..|entries| - 1] == LeafQueue(init);
    }
  }

  /** The tree `buildTree` returns for a table, or the exception it throws on an empty one. */
  function Huffman(entries: FrequencyTable): Result<Node>
  {
    if |entries| == 0 then Failure(NoSuchElement) else Success(MergeAll(LeafQueue(entries)))
  }

  /** `buildTree` fails exactly on an empty table. Otherwise the tree holds one leaf per
      entry with that entry's count, the root weighs the sum of all counts, every merged
      node weighs its children's sum, and there is one merged node fewer than there are
      leaves. */
  lemma HuffmanBuildsFullTree(entries: FrequencyTable)
    ensures Huffman(entries).Failure? <==> |entries| == 0
    ensures Huffman(entries).Failure? ==> Huffman(entries).error == NoSuchElement
    ensures Huffman(entries).Success? ==>
      var root := Huffman(entries).value;
      && multiset(Leaves(root)) == multiset(entries)
      && root.frequency == SumCounts(entries)
      && WellWeighted(root)
      && LeafCount(root) == |entries|
      && InternalCount(root) == |entries| - 1
  {
    if |entries| > 0 {
      var q := LeafQueue(entries);
      LeafQueueHoldsTable(entries);
      MergeAllKeepsLeaves(q);
      MergeAllKeepsWeight(q);
      var root := MergeAll(q);
      FullTreeCounts(root);
      assert |Leaves(root)| == |multiset(Leaves(root))| == |entries|;
    }
  }

  /** The chars at the leaves of the built tree are exactly the table's chars. */
  lemma HuffmanLeafChars(entries: FrequencyTable)
    requires |entries| > 0
    ensures forall c :: c in LeafChars(Huffman(entries).value) <==> c in Keys(entries)
  {
    HuffmanBuildsFullTree(entries);
    var root := Huffman(entries).value;
    FullTreeCounts(root);
    forall c | c in Keys(entries)
      ensures c in LeafChars(root)
    {
      var j :| 0 <= j < |entries| && Keys(entries)[j] == c;
      assert entries[j] in multiset(Leaves(root));
      var h :| 0 <= h < |Leaves(root)| && Leaves(root)[h] == entries[j];
      assert LeafChars(root)[h] == c;
    }
    forall c | c in LeafChars(root)
      ensures c in Keys(entries)
    {
      var h :| 0 <= h < |LeafChars(root)| && LeafChars(root)[h] == c;
      assert Leaves(root)[h] in multiset(entries);
      var j :| 0 <= j < |entries| && entries[j] == Leaves(root)[h];
      assert Keys(entries)[j] == c;
    }
  }

  /** The `PriorityQueue<HuffmanNode>`, ordered by frequency; among equal frequencies the
      node added first leaves first. */
  class NodeQueue {
    var nodes: seq<Node>

    constructor ()
      ensures nodes == []
    {
      nodes := [];
    }

    /** `add`: the node joins at the back. */
    method Add(n: Node)
      modifies this
      ensures nodes == old(nodes) + [n]
    {
      nodes := nodes + [n];
    }

    /** `remove`: takes the head out, or throws NoSuchElementException on an empty queue. */
    method Remove() returns (r: Result<Node>)
      modifies this
      ensures old(nodes) == [] ==> r == Failure(NoSuchElement) && nodes == []
      ensures old(nodes) != [] ==> r == Success(Head(old(nodes))) && nodes == Rest(old(nodes))
    {
      if nodes == [] {
        return Failure(NoSuchElement);
      }
      r := Success(Head(nodes));
      nodes := Rest(nodes);
    }
  }

  /** `createNodeQueue`: a fresh queue holding one leaf per table entry, added in the
      table's order. */
  method CreateNodeQueue(entries: FrequencyTable) returns (pq: NodeQueue)
    ensures fresh(pq)
    ensures pq.nodes == LeafQueue(entries)
  {
    pq := new NodeQueue();
    var i := 0;
    while i < |entries|
      invariant i <= |entries|
      invariant pq.nodes == LeafQueue(entries[..i])
    {
      assert LeafQueue(entries[..i + 1]) == LeafQueue(entries[..i]) + [Leaf(entries[i].0, entries[i].1)];
      pq.Add(Leaf(entries[i].0, entries[i].1));
      i := i + 1;
    }
    assert entries[..i] == entries;
  }

  /** `buildTree`: merge the two lightest trees until one remains, then take that one out;
      an empty table makes the final `remove()` throw. The result is the same for the
      same table on every run. */
  method BuildTree(entries: FrequencyTable) returns (r: Result<Node>)
    ensures r == Huffman(entries)
  {
    var nodeQueue := CreateNodeQueue(entries);
    ghost var initial := nodeQueue.nodes;
    while |nodeQueue.nodes| > 1
      invariant nodeQueue.nodes == [] <==> initial == []
      invariant nodeQueue.nodes != [] ==> MergeAll(nodeQueue.nodes) == MergeAll(initial)
      decreases |nodeQueue.nodes|
    {
      ghost var q := nodeQueue.nodes;
      var node1 := nodeQueue.Remove();
      assert node1 == Success(Head(q)) && nodeQueue.nodes == Rest(q);
      var node2 := nodeQueue.Remove();
      assert node2 == Success(Head(Rest(q))) && nodeQueue.nodes == Rest(Rest(q));
      var node := Merge(node1.value, node2.value);
      nodeQueue.Add(node);
      assert nodeQueue.nodes == MergeStep(q);
    }
    r := nodeQueue.Remove();
  }
}
