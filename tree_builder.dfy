/** get_huffman_tree of Greedy/Huffman_coding.py: one leaf per distinct
    character goes into a min-priority queue ordered by frequency, and the two
    lightest nodes are merged under a new internal node until one node, the
    root, is left.

    The queue is a sequence of nodes that the loop reassigns. Only the bag of
    nodes it holds matters: RemoveMin hands back SOME node of least frequency,
    so neither the heap layout nor the way the heap breaks ties between equal
    frequencies is fixed by the model. */
module TreeBuilder {
  import opened HuffmanTree
  import opened Frequency

  /** heappop: take out a node that no node left behind is Less than. Among
      several nodes of least frequency any one may be the one returned. */
  method RemoveMin(pq: seq<Node>) returns (m: Node, rest: seq<Node>)
    requires |pq| > 0
    ensures multiset(pq) == multiset(rest) + multiset{m}
    ensures |rest| == |pq| - 1
    ensures forall n | n in rest :: !Less(n, m)
  {
    var least := pq[0].freq;
    ghost var at := 0;
    var k := 1;
    while k < |pq|
      invariant 1 <= k <= |pq|
      invariant 0 <= at < k && pq[at].freq == least
      invariant forall i | 0 <= i < k :: least <= pq[i].freq
    {
      if pq[k].freq < least {
        least, at := pq[k].freq, k;
      }
      k := k + 1;
    }
    var i :| 0 <= i < |pq| && pq[i].freq == least;
    m, rest := pq[i], pq[..i] + pq[i + 1..];
    assert pq == pq[..i] + [m] + pq[i + 1..];
    assert forall n | n in rest :: n in pq[..i] || n in pq[i + 1..];
  }

  /** The list of leaves built from the table's items, in whatever order the
      table yields its keys. */
  method InitialQueue(freq: map<char, nat>) returns (pq: seq<Node>)
    ensures |pq| == |freq.Keys|
    ensures forall n | n in pq :: n.Leaf? && n.ch in freq && n.freq == freq[n.ch]
    ensures LeavesOf(pq) == Items(freq)
    ensures LeafCharsOf(pq) == multiset(freq.Keys)
  {
    pq := [];
    var todo := freq.Keys;
    while todo != {}
      invariant QueueCovers(freq, pq, todo)
      decreases todo
    {
      var k :| k in todo;
      AppendLeaf(freq, pq, todo, k);
      pq := pq + [Leaf(k, freq[k])];
      todo := todo - {k};
    }
    assert freq.Keys - todo == freq.Keys;
  }

  /** The queue holds one leaf for each key already taken from the table,
      todo being the keys still to take. */
  predicate QueueCovers(freq: map<char, nat>, pq: seq<Node>, todo: set<char>)
  {
    && todo <= freq.Keys
    && |pq| + |todo| == |freq.Keys|
    && (forall n | n in pq :: n.Leaf? && n.ch in freq && n.freq == freq[n.ch])
    && LeavesOf(pq) == multiset(ItemsOver(freq, freq.Keys - todo))
    && LeafCharsOf(pq) == multiset(freq.Keys - todo)
  }

  /** Appending the leaf of one more key appends that key's entry. */
  lemma AppendLeaf(freq: map<char, nat>, pq: seq<Node>, todo: set<char>, k: char)
    requires QueueCovers(freq, pq, todo) && k in todo
    ensures QueueCovers(freq, pq + [Leaf(k, freq[k])], todo - {k})
  {
    var leaf := Leaf(k, freq[k]);
    var done := freq.Keys - todo;
    assert freq.Keys - (todo - {k}) == done + {k};
    ConcatLeaves(pq, [leaf]);
    ConcatLeafChars(pq, [leaf]);
    ItemsOverAdd(freq, done, k);
    assert forall n | n in pq + [leaf] :: n in pq || n == leaf;
  }

  /** One round of the loop: pop two nodes, push their parent. The first node
      popped is no heavier than the second, the second no heavier than any
      node left, the queue shrinks by one and keeps its weight and leaves. */
  method MergeStep(pq: seq<Node>) returns (left: Node, right: Node, next: seq<Node>)
    requires |pq| > 1
    ensures multiset{left, right} <= multiset(pq)
    ensures !Less(right, left)
    ensures forall n | n in multiset(pq) - multiset{left, right} :: !Less(n, right)
    ensures multiset(next) ==
      multiset(pq) - multiset{left, right} + multiset{Internal(left.freq + right.freq, left, right)}
    ensures |next| == |pq| - 1
    ensures SumFreq(next) == SumFreq(pq)
    ensures LeavesOf(next) == LeavesOf(pq)
    ensures LeafCharsOf(next) == LeafCharsOf(pq)
    ensures (forall n | n in pq :: WellFormed(n)) ==> (forall n | n in next :: WellFormed(n))
  {
    var rest1, rest2;
    left, rest1 := RemoveMin(pq);
    right, rest2 := RemoveMin(rest1);
    // heappush: the parent joins the bag; its place in the sequence is immaterial.
    next := [Internal(left.freq + right.freq, left, right)] + rest2;
    TwoPops(pq, left, rest1, right, rest2);
    MergeAccounting(pq, left, right, rest2);
    if forall n | n in pq :: WellFormed(n) {
      MergeKeepsWellFormed(pq, left, right, rest2);
    }
  }

  /** Two pops in a row take out a pair of nodes, the first no heavier than
      the second and the second no heavier than what they leave behind. */
  lemma TwoPops(pq: seq<Node>, left: Node, rest1: seq<Node>, right: Node, rest2: seq<Node>)
    requires multiset(pq) == multiset(rest1) + multiset{left}
    requires forall n | n in rest1 :: !Less(n, left)
    requires multiset(rest1) == multiset(rest2) + multiset{right}
    requires forall n | n in rest2 :: !Less(n, right)
    ensures multiset(pq) == multiset(rest2) + multiset{left, right}
    ensures multiset(rest2) == multiset(pq) - multiset{left, right}
    ensures multiset{left, right} <= multiset(pq)
    ensures !Less(right, left)
    ensures forall n | n in multiset(pq) - multiset{left, right} :: !Less(n, right)
  {
    assert right in rest1 by {
      assert right in multiset(rest1);
    }
  }

  /** A parent in front of a queue weighs, and holds, what its two children
      in front of the same queue do. */
  lemma ParentReplacesChildren(left: Node, right: Node, rest: seq<Node>)
    ensures var parent := Internal(left.freq + right.freq, left, right);
      && SumFreq([parent] + rest) == SumFreq([left, right] + rest)
      && LeavesOf([parent] + rest) == LeavesOf([left, right] + rest)
      && LeafCharsOf([parent] + rest) == LeafCharsOf([left, right] + rest)
  {
    assert ([left, right] + rest)[1..] == [right] + rest;
    assert ([right] + rest)[1..] == rest;
    assert ([Internal(left.freq + right.freq, left, right)] + rest)[1..] == rest;
  }

  /** Replacing two nodes of a queue by their parent keeps the queue's weight,
      leaves and leaf characters. */
  lemma MergeAccounting(pq: seq<Node>, left: Node, right: Node, rest: seq<Node>)
    requires multiset(pq) == multiset(rest) + multiset{left, right}
    ensures var next := [Internal(left.freq + right.freq, left, right)] + rest;
      && SumFreq(next) == SumFreq(pq)
      && LeavesOf(next) == LeavesOf(pq)
      && LeafCharsOf(next) == LeafCharsOf(pq)
  {
    var popped := [left, right] + rest;
    assert multiset(pq) == multiset(popped) by {
      assert multiset(popped) == multiset{left, right} + multiset(rest);
    }
    PermutedForest(pq, popped);
    ParentReplacesChildren(left, right, rest);
  }

  /** The parent of two well-formed nodes is well formed. */
  lemma MergeKeepsWellFormed(pq: seq<Node>, left: Node, right: Node, rest: seq<Node>)
    requires multiset(pq) == multiset(rest) + multiset{left, right}
    requires forall n | n in pq :: WellFormed(n)
    ensures forall n | n in [Internal(left.freq + right.freq, left, right)] + rest :: WellFormed(n)
  {
    assert left in multiset(pq) && right in multiset(pq);
    assert forall n | n in rest :: n in multiset(pq);
  }

  /** The loop of get_huffman_tree: merge until one node is left. The root
      weighs what the whole queue weighed and holds all of its leaves. */
  method MergeAll(start: seq<Node>) returns (root: Node)
    requires |start| >= 1
    ensures root.freq == SumFreq(start)
    ensures Leaves(root) == LeavesOf(start)
    ensures LeafChars(root) == LeafCharsOf(start)
    ensures (forall n | n in start :: WellFormed(n)) ==> WellFormed(root)
  {
    var pq := start;
    while |pq| > 1
      invariant |pq| >= 1
      invariant SumFreq(pq) == SumFreq(start)
      invariant LeavesOf(pq) == LeavesOf(start)
      invariant LeafCharsOf(pq) == LeafCharsOf(start)
      invariant (forall n | n in start :: WellFormed(n)) ==> (forall n | n in pq :: WellFormed(n))
      decreases |pq|
    {
      var left, right, next := MergeStep(pq);
      pq := next;
    }
    root := pq[0];
    assert pq == [root];
  }

  /** A queue of leaves, each weighing its count in the text, weighs the
      counts of its characters. */
  lemma {:induction false} QueueWeight(text: string, pq: seq<Node>)
    requires forall n | n in pq :: n.Leaf? && n.freq == Count(text, n.ch)
    ensures SumFreq(pq) == CountIn(text, LeafCharsOf(pq))
  {
    if pq != [] {
      var x := pq[0];
      assert x in pq;
      assert LeafChars(x) == multiset{x.ch};
      assert forall n | n in pq[1..] :: n in pq;
      QueueWeight(text, pq[1..]);
      CountInAdd(text, x.ch, LeafCharsOf(pq[1..]));
    } else {
      CountInNothing(text);
    }
  }

  /** get_huffman_tree: no tree for the empty text; otherwise a well-formed
      tree that weighs the length of the text and whose leaves are the
      distinct characters of the text, each once, with its count. */
  method GetHuffmanTree(text: string) returns (root: Option<Node>)
    ensures root.None? <==> |text| == 0
    ensures root.Some? ==> WellFormed(root.value)
    ensures root.Some? ==> root.value.freq == |text|
    ensures root.Some? ==> Leaves(root.value) == Items(Frequencies(text))
    ensures root.Some? ==> LeafChars(root.value) == multiset(Frequencies(text).Keys)
    ensures |Frequencies(text).Keys| == 1 ==> root.Some? && root.value.Leaf?
  {
    if |text| == 0 {
      return None;
    }
    var freq := Frequencies(text);
    var pq := InitialQueue(freq);
    // heapify only arranges the list as a heap; as a bag the queue is unchanged.
    assert text[0] in freq;
    assert |pq| >= 1;
    forall n | n in pq ensures n.Leaf? && n.freq == Count(text, n.ch) {
    }
    QueueWeight(text, pq);
    CountInOnce(text, LeafCharsOf(pq));
    var tree := MergeAll(pq);
    root := Some(tree);
    LeafCount(tree);
  }
}
