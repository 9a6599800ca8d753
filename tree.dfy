/** The Huffman tree of Greedy/Huffman_coding.py. The source uses one record
    for both kinds of node and marks an internal node by a missing character;
    here the two kinds are the two constructors of a datatype. */
module HuffmanTree {

  datatype Option<T> = None | Some(value: T)

  /** A leaf owns a character and its number of occurrences; an internal node
      owns only a frequency and its two children. */
  datatype Node =
    | Leaf(ch: char, freq: nat)
    | Internal(freq: nat, left: Node, right: Node)

  /** The order of the priority queue: two nodes are compared by frequency
      alone, whatever their shape or character. */
  predicate Less(a: Node, b: Node)
  {
    a.freq < b.freq
  }

  /** Less is a strict order in which nodes of equal frequency are
      incomparable: the queue cannot tell them apart. */
  lemma LessOrder(a: Node, b: Node, c: Node)
    ensures !Less(a, a)
    ensures Less(a, b) && Less(b, c) ==> Less(a, c)
    ensures !Less(a, b) && !Less(b, a) <==> a.freq == b.freq
  {
  }

  /** Every internal node weighs exactly what its two children weigh. */
  predicate WellFormed(n: Node)
  {
    match n
    case Leaf(_, _) => true
    case Internal(f, l, r) => f == l.freq + r.freq && WellFormed(l) && WellFormed(r)
  }

  /** The (character, frequency) pairs found at the leaves. */
  function Leaves(n: Node): multiset<(char, nat)>
  {
    match n
    case Leaf(c, f) => multiset{(c, f)}
    case Internal(_, l, r) => Leaves(l) + Leaves(r)
  }

  /** The characters found at the leaves, with their multiplicity. */
  function LeafChars(n: Node): multiset<char>
  {
    match n
    case Leaf(c, _) => multiset{c}
    case Internal(_, l, r) => LeafChars(l) + LeafChars(r)
  }

  /** The characters found at the leaves, as a set. */
  function Symbols(n: Node): set<char>
  {
    match n
    case Leaf(c, _) => {c}
    case Internal(_, l, r) => Symbols(l) + Symbols(r)
  }

  /** The sum of the leaf frequencies. */
  function LeafWeight(n: Node): nat
  {
    match n
    case Leaf(_, f) => f
    case Internal(_, l, r) => LeafWeight(l) + LeafWeight(r)
  }

  /** No character labels two leaves, told recursively: the two subtrees of
      every internal node have no character in common. */
  predicate DistinctLeaves(n: Node)
  {
    match n
    case Leaf(_, _) => true
    case Internal(_, l, r) =>
      DistinctLeaves(l) && DistinctLeaves(r) && Symbols(l) !! Symbols(r)
  }

  // A forest, the contents of the priority queue, summarised node by node.

  function SumFreq(pq: seq<Node>): nat
  {
    if pq == [] then 0 else pq[0].freq + SumFreq(pq[1..])
  }

  function LeavesOf(pq: seq<Node>): multiset<(char, nat)>
  {
    if pq == [] then multiset{} else Leaves(pq[0]) + LeavesOf(pq[1..])
  }

  function LeafCharsOf(pq: seq<Node>): multiset<char>
  {
    if pq == [] then multiset{} else LeafChars(pq[0]) + LeafCharsOf(pq[1..])
  }

  /** The weight of a well-formed tree is the total weight of its leaves. */
  lemma {:induction false} RootWeighsItsLeaves(n: Node)
    requires WellFormed(n)
    ensures n.freq == LeafWeight(n)
  {
    match n
    case Leaf(_, _) =>
    case Internal(_, l, r) =>
      RootWeighsItsLeaves(l);
      RootWeighsItsLeaves(r);
  }

  /** The set of symbols is the support of the multiset of leaf characters. */
  lemma {:induction false} SymbolsAreLeafChars(n: Node)
    ensures forall c :: c in Symbols(n) <==> c in LeafChars(n)
  {
    match n
    case Leaf(_, _) =>
    case Internal(_, l, r) =>
      SymbolsAreLeafChars(l);
      SymbolsAreLeafChars(r);
  }

  /** Every tree has a leaf, and an internal node has at least two. */
  lemma {:induction false} LeafCount(n: Node)
    ensures |LeafChars(n)| >= 1
    ensures n.Internal? ==> |LeafChars(n)| >= 2
  {
    match n
    case Leaf(_, _) =>
    case Internal(_, l, r) =>
      LeafCount(l);
      LeafCount(r);
  }

  /** A tree whose leaf characters occur at most once each has distinct
      leaves. */
  lemma {:induction false} DistinctFromMultiplicity(n: Node)
    requires forall c | c in LeafChars(n) :: LeafChars(n)[c] == 1
    ensures DistinctLeaves(n)
  {
    match n
    case Leaf(_, _) =>
    case Internal(_, l, r) =>
      SymbolsAreLeafChars(l);
      SymbolsAreLeafChars(r);
      forall c | c in LeafChars(l) ensures LeafChars(l)[c] == 1 {
        assert LeafChars(n)[c] == LeafChars(l)[c] + LeafChars(r)[c];
      }
      forall c | c in LeafChars(r) ensures LeafChars(r)[c] == 1 {
        assert LeafChars(n)[c] == LeafChars(l)[c] + LeafChars(r)[c];
      }
      DistinctFromMultiplicity(l);
      DistinctFromMultiplicity(r);
      forall c | c in Symbols(l) ensures c !in Symbols(r) {
        assert LeafChars(n)[c] == LeafChars(l)[c] + LeafChars(r)[c];
      }
  }

  /** With distinct leaves, there are as many symbols as leaves. */
  lemma {:induction false} DistinctLeavesCount(n: Node)
    requires DistinctLeaves(n)
    ensures |Symbols(n)| == |LeafChars(n)|
  {
    match n
    case Leaf(_, _) =>
    case Internal(_, l, r) =>
      DistinctLeavesCount(l);
      DistinctLeavesCount(r);
      assert Symbols(l) * Symbols(r) == {};
  }

  // Splitting a queue splits its weight, leaves and leaf characters.

  lemma {:induction false} ConcatLeaves(a: seq<Node>, b: seq<Node>)
    ensures LeavesOf(a + b) == LeavesOf(a) + LeavesOf(b)
  {
    if a == [] {
      assert a + b == b;
    } else {
      assert (a + b)[1..] == a[1..] + b;
      ConcatLeaves(a[1..], b);
    }
  }

  lemma {:induction false} ConcatLeafChars(a: seq<Node>, b: seq<Node>)
    ensures LeafCharsOf(a + b) == LeafCharsOf(a) + LeafCharsOf(b)
  {
    if a == [] {
      assert a + b == b;
    } else {
      assert (a + b)[1..] == a[1..] + b;
      ConcatLeafChars(a[1..], b);
    }
  }

  lemma {:induction false} SumAt(b: seq<Node>, j: nat)
    requires j < |b|
    ensures SumFreq(b) == b[j].freq + SumFreq(b[..j] + b[j + 1..])
  {
    if j == 0 {
      assert b[..0] + b[1..] == b[1..];
    } else {
      var t := b[1..];
      SumAt(t, j - 1);
      var rest := b[..j] + b[j + 1..];
      assert t[j - 1] == b[j];
      assert rest[0] == b[0];
      assert rest[1..] == t[..j - 1] + t[j..];
    }
  }

  lemma {:induction false} LeavesAt(b: seq<Node>, j: nat)
    requires j < |b|
    ensures LeavesOf(b) == Leaves(b[j]) + LeavesOf(b[..j] + b[j + 1..])
  {
    if j == 0 {
      assert b[..0] + b[1..] == b[1..];
    } else {
      var t := b[1..];
      LeavesAt(t, j - 1);
      var rest := b[..j] + b[j + 1..];
      assert t[j - 1] == b[j];
      assert rest[0] == b[0];
      assert rest[1..] == t[..j - 1] + t[j..];
      var behind := LeavesOf(t[..j - 1] + t[j..]);
      assert LeavesOf(rest) == Leaves(b[0]) + behind;
      assert LeavesOf(b) == Leaves(b[0]) + (Leaves(b[j]) + behind);
      Rotate(Leaves(b[0]), Leaves(b[j]), behind);
    }
  }

  lemma {:induction false} LeafCharsAt(b: seq<Node>, j: nat)
    requires j < |b|
    ensures LeafCharsOf(b) == LeafChars(b[j]) + LeafCharsOf(b[..j] + b[j + 1..])
  {
    if j == 0 {
      assert b[..0] + b[1..] == b[1..];
    } else {
      var t := b[1..];
      LeafCharsAt(t, j - 1);
      var rest := b[..j] + b[j + 1..];
      assert t[j - 1] == b[j];
      assert rest[0] == b[0];
      assert rest[1..] == t[..j - 1] + t[j..];
      var behind := LeafCharsOf(t[..j - 1] + t[j..]);
      assert LeafCharsOf(rest) == LeafChars(b[0]) + behind;
      assert LeafCharsOf(b) == LeafChars(b[0]) + (LeafChars(b[j]) + behind);
      Rotate(LeafChars(b[0]), LeafChars(b[j]), behind);
    }
  }

  lemma Rotate<T>(x: multiset<T>, y: multiset<T>, z: multiset<T>)
    ensures x + (y + z) == y + (x + z)
  {
  }

  lemma BagWithout(b: seq<Node>, j: nat)
    requires j < |b|
    ensures multiset(b[..j] + b[j + 1..]) == multiset(b) - multiset{b[j]}
  {
    assert b == b[..j] + [b[j]] + b[j + 1..];
  }

  // The weight, leaves and leaf characters of a queue do not depend on the
  // order of its nodes.

  lemma {:induction false} PermutedSum(a: seq<Node>, b: seq<Node>)
    requires multiset(a) == multiset(b)
    ensures SumFreq(a) == SumFreq(b)
    decreases |a|
  {
    if a == [] {
      assert |b| == |multiset(b)|;
    } else {
      assert a[0] in multiset(b);
      var j :| 0 <= j < |b| && b[j] == a[0];
      var rest := b[..j] + b[j + 1..];
      assert multiset(a[1..]) == multiset(rest) by {
        assert a == [a[0]] + a[1..];
        BagWithout(b, j);
      }
      PermutedSum(a[1..], rest);
      SumAt(b, j);
    }
  }

  lemma {:induction false} PermutedLeaves(a: seq<Node>, b: seq<Node>)
    requires multiset(a) == multiset(b)
    ensures LeavesOf(a) == LeavesOf(b)
    decreases |a|
  {
    if a == [] {
      assert |b| == |multiset(b)|;
    } else {
      assert a[0] in multiset(b);
      var j :| 0 <= j < |b| && b[j] == a[0];
      var rest := b[..j] + b[j + 1..];
      assert multiset(a[1..]) == multiset(rest) by {
        assert a == [a[0]] + a[1..];
        BagWithout(b, j);
      }
      PermutedLeaves(a[1..], rest);
      LeavesAt(b, j);
    }
  }

  lemma {:induction false} PermutedLeafChars(a: seq<Node>, b: seq<Node>)
    requires multiset(a) == multiset(b)
    ensures LeafCharsOf(a) == LeafCharsOf(b)
    decreases |a|
  {
    if a == [] {
      assert |b| == |multiset(b)|;
    } else {
      assert a[0] in multiset(b);
      var j :| 0 <= j < |b| && b[j] == a[0];
      var rest := b[..j] + b[j + 1..];
      assert multiset(a[1..]) == multiset(rest) by {
        assert a == [a[0]] + a[1..];
        BagWithout(b, j);
      }
      PermutedLeafChars(a[1..], rest);
      LeafCharsAt(b, j);
    }
  }

  /** The three summaries of a queue together. */
  lemma PermutedForest(a: seq<Node>, b: seq<Node>)
    requires multiset(a) == multiset(b)
    ensures SumFreq(a) == SumFreq(b)
    ensures LeavesOf(a) == LeavesOf(b)
    ensures LeafCharsOf(a) == LeafCharsOf(b)
  {
    PermutedSum(a, b);
    PermutedLeaves(a, b);
    PermutedLeafChars(a, b);
  }
}
