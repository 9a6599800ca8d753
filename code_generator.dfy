/** generate_huffman_code of Greedy/Huffman_coding.py: a depth-first walk that
    records, for the character of every leaf, the path from the root to that
    leaf, '0' for each step to a left child and '1' for each step to a right
    child. The table being filled is passed along and handed back, left
    subtree first, instead of living in a shared default argument. */
module CodeGenerator {
  import opened HuffmanTree

  /** Follows bits from n, '0' to the left child and '1' to the right: the
      character of the leaf where the bits run out, or None when they run out
      at an internal node, overrun a leaf, or hold another character. */
  function LeafAt(n: Node, bits: string): Option<char>
    decreases |bits|
  {
    if bits == [] then
      match n
      case Leaf(c, _) => Some(c)
      case Internal(_, _, _) => None
    else
      match n
      case Leaf(_, _) => None
      case Internal(_, l, r) =>
        if bits[0] == '0' then LeafAt(l, bits[1..])
        else if bits[0] == '1' then LeafAt(r, bits[1..])
        else None
  }

  predicate IsBinary(s: string)
  {
    forall i | 0 <= i < |s| :: s[i] == '0' || s[i] == '1'
  }

  /** No code is a prefix of the code of another character. */
  predicate PrefixFree(codes: map<char, string>)
  {
    forall a, b | a in codes && b in codes && a != b :: !(codes[a] <= codes[b])
  }

  /** A leaf carrying c lies d levels below n. */
  predicate AtDepth(n: Node, c: char, d: nat)
  {
    match n
    case Leaf(x, _) => x == c && d == 0
    case Internal(_, l, r) => d > 0 && (AtDepth(l, c, d - 1) || AtDepth(r, c, d - 1))
  }

  /** The recursive walk from n, reached by the path code, into codes: the
      table gains an entry for each leaf character of n. */
  function Walk(n: Node, code: string, codes: map<char, string>): (r: map<char, string>)
    ensures r.Keys == codes.Keys + Symbols(n)
    decreases n
  {
    match n
    case Leaf(c, _) => codes[c := code]
    case Internal(_, l, r) => Walk(r, code + "1", Walk(l, code + "0", codes))
  }

  /** The walk leaves the entries of characters not in n as they were. */
  lemma {:induction false} WalkKeeps(n: Node, code: string, codes: map<char, string>)
    ensures forall c | c in codes && c !in Symbols(n) :: Walk(n, code, codes)[c] == codes[c]
  {
    match n
    case Leaf(_, _) =>
    case Internal(_, l, r) =>
      WalkKeeps(l, code + "0", codes);
      WalkKeeps(r, code + "1", Walk(l, code + "0", codes));
  }

  /** The walk gives every leaf character of n an extension of code that
      leads from n to a leaf carrying that character. */
  lemma {:induction false} WalkPaths(n: Node, code: string, codes: map<char, string>)
    ensures forall c | c in Symbols(n) ::
      code <= Walk(n, code, codes)[c] && LeafAt(n, Walk(n, code, codes)[c][|code|..]) == Some(c)
  {
    match n
    case Leaf(_, _) =>
    case Internal(_, l, r) =>
      var afterLeft := Walk(l, code + "0", codes);
      WalkPaths(l, code + "0", codes);
      WalkPaths(r, code + "1", afterLeft);
      WalkKeeps(r, code + "1", afterLeft);
      var res := Walk(r, code + "1", afterLeft);
      assert forall c | c in Symbols(l) && c !in Symbols(r) :: res[c] == afterLeft[c];
      DescendAll(n, code, res);
  }

  /** A path to a leaf of a child, prefixed by the step into that child,
      is a path to the same leaf from the parent. */
  lemma Descend(n: Node, code: string, s: string, c: char)
    requires n.Internal?
    requires (code + "0" <= s && LeafAt(n.left, s[|code| + 1..]) == Some(c))
          || (code + "1" <= s && LeafAt(n.right, s[|code| + 1..]) == Some(c))
    ensures code <= s && LeafAt(n, s[|code|..]) == Some(c)
  {
    var t := s[|code|..];
    assert t[1..] == s[|code| + 1..];
    assert t[0] == s[|code|] == (if code + "0" <= s then '0' else '1') by {
      if code + "0" <= s {
        assert s[|code|] == (code + "0")[|code|];
      } else {
        assert s[|code|] == (code + "1")[|code|];
      }
    }
    assert code == (if code + "0" <= s then code + "0" else code + "1")[..|code|];
  }

  lemma DescendAll(n: Node, code: string, res: map<char, string>)
    requires n.Internal?
    requires forall c | c in Symbols(n) :: c in res
    requires forall c | c in Symbols(n.right) ::
      code + "1" <= res[c] && LeafAt(n.right, res[c][|code| + 1..]) == Some(c)
    requires forall c | c in Symbols(n.left) && c !in Symbols(n.right) ::
      code + "0" <= res[c] && LeafAt(n.left, res[c][|code| + 1..]) == Some(c)
    ensures forall c | c in Symbols(n) :: code <= res[c] && LeafAt(n, res[c][|code|..]) == Some(c)
  {
    forall c | c in Symbols(n) ensures code <= res[c] && LeafAt(n, res[c][|code|..]) == Some(c) {
      Descend(n, code, res[c], c);
    }
  }

  /** generate_huffman_code: a missing root leaves the table as it was;
      otherwise the table gains an entry for each leaf character. */
  function GenerateHuffmanCode(root: Option<Node>, code: string, codes: map<char, string>): (r: map<char, string>)
    ensures root.None? ==> r == codes
    ensures root.Some? ==> r.Keys == codes.Keys + Symbols(root.value)
  {
    match root
    case None => codes
    case Some(n) => Walk(n, code, codes)
  }

  /** A table handed in, as the default table is when it is reused from an
      earlier call, keeps the entries of characters the tree does not
      hold; each character of the tree gets a path below code. */
  lemma GenerateKeepsOthers(root: Option<Node>, code: string, codes: map<char, string>)
    ensures var r := GenerateHuffmanCode(root, code, codes);
      && (forall c | c in codes && (root.None? || c !in Symbols(root.value)) :: r[c] == codes[c])
      && (root.Some? ==> forall c | c in Symbols(root.value) :: code <= r[c])
  {
    if root.Some? {
      WalkKeeps(root.value, code, codes);
      WalkPaths(root.value, code, codes);
    }
  }

  // What the bits of a path say about the leaf they reach.

  /** A path that ends at a leaf uses only '0' and '1'. */
  lemma {:induction false} LeafPathIsBinary(n: Node, p: string)
    requires LeafAt(n, p).Some?
    ensures IsBinary(p)
    decreases |p|
  {
    if p != [] {
      LeafPathIsBinary(if p[0] == '0' then n.left else n.right, p[1..]);
    }
  }

  /** Two paths that end at leaves are equal when one is a prefix of the
      other: a leaf has no children to go on to. */
  lemma {:induction false} LeafPathsNotNested(n: Node, p: string, q: string)
    requires LeafAt(n, p).Some? && LeafAt(n, q).Some?
    requires p <= q
    ensures p == q
    decreases |p|
  {
    if p != [] {
      assert q[0] == p[0];
      LeafPathsNotNested(if p[0] == '0' then n.left else n.right, p[1..], q[1..]);
    }
  }

  /** A path that ends at a leaf is as long as that leaf is deep. */
  lemma {:induction false} LeafPathDepth(n: Node, p: string)
    requires LeafAt(n, p).Some?
    ensures AtDepth(n, LeafAt(n, p).value, |p|)
    decreases |p|
  {
    if p != [] {
      LeafPathDepth(if p[0] == '0' then n.left else n.right, p[1..]);
    }
  }

  /** A character is at some depth only if it labels a leaf. */
  lemma {:induction false} DepthHasSymbol(n: Node, c: char, d: nat)
    requires AtDepth(n, c, d)
    ensures c in Symbols(n)
  {
    match n
    case Leaf(_, _) =>
    case Internal(_, l, r) =>
      if AtDepth(l, c, d - 1) {
        DepthHasSymbol(l, c, d - 1);
      } else {
        DepthHasSymbol(r, c, d - 1);
      }
  }

  /** With distinct leaves, each character is at one depth only. */
  lemma {:induction false} OneDepthPerSymbol(n: Node, c: char, d1: nat, d2: nat)
    requires DistinctLeaves(n)
    requires AtDepth(n, c, d1) && AtDepth(n, c, d2)
    ensures d1 == d2
  {
    match n
    case Leaf(_, _) =>
    case Internal(_, l, r) =>
      var side1 := if AtDepth(l, c, d1 - 1) then l else r;
      var side2 := if AtDepth(l, c, d2 - 1) then l else r;
      DepthHasSymbol(side1, c, d1 - 1);
      DepthHasSymbol(side2, c, d2 - 1);
      SameSide(n, c, side1, side2);
      OneDepthPerSymbol(side1, c, d1 - 1, d2 - 1);
  }

  /** With distinct leaves, a character is in one subtree only. */
  lemma SameSide(n: Node, c: char, side1: Node, side2: Node)
    requires n.Internal? && DistinctLeaves(n)
    requires side1 == n.left || side1 == n.right
    requires side2 == n.left || side2 == n.right
    requires c in Symbols(side1) && c in Symbols(side2)
    ensures side1 == side2 && DistinctLeaves(side1)
  {
  }

  // The table generated from the root with the empty path and an empty table.

  /** Each entry is the path from the root to a leaf carrying its character,
      and exactly the leaf characters have entries. */
  lemma CodesAreLeafPaths(root: Node)
    ensures var codes := GenerateHuffmanCode(Some(root), "", map[]);
      && codes.Keys == Symbols(root)
      && forall c | c in codes :: LeafAt(root, codes[c]) == Some(c)
  {
    var codes := GenerateHuffmanCode(Some(root), "", map[]);
    WalkPaths(root, "", map[]);
    assert forall c | c in codes :: codes[c][|""|..] == codes[c];
  }

  /** The codes are bit strings, and none is a prefix of another's. */
  lemma CodesArePrefixFree(root: Node)
    ensures var codes := GenerateHuffmanCode(Some(root), "", map[]);
      && PrefixFree(codes)
      && forall c | c in codes :: IsBinary(codes[c])
  {
    var codes := GenerateHuffmanCode(Some(root), "", map[]);
    CodesAreLeafPaths(root);
    forall a, b | a in codes && b in codes && a != b ensures !(codes[a] <= codes[b]) {
      if codes[a] <= codes[b] {
        LeafPathsNotNested(root, codes[a], codes[b]);
      }
    }
    forall c | c in codes ensures IsBinary(codes[c]) {
      LeafPathIsBinary(root, codes[c]);
    }
  }

  /** Every code is as long as its character's leaf is deep, and, with
      distinct leaves, every leaf has a code exactly as long as it is deep. */
  lemma CodeLengthsAreDepths(root: Node)
    ensures var codes := GenerateHuffmanCode(Some(root), "", map[]);
      forall c | c in codes :: AtDepth(root, c, |codes[c]|)
    ensures var codes := GenerateHuffmanCode(Some(root), "", map[]);
      DistinctLeaves(root) ==> forall c, d | AtDepth(root, c, d) :: c in codes && |codes[c]| == d
  {
    var codes := GenerateHuffmanCode(Some(root), "", map[]);
    CodesAreLeafPaths(root);
    forall c | c in codes ensures AtDepth(root, c, |codes[c]|) {
      LeafPathDepth(root, codes[c]);
    }
    if DistinctLeaves(root) {
      forall c, d | AtDepth(root, c, d) ensures c in codes && |codes[c]| == d {
        DepthHasSymbol(root, c, d);
        OneDepthPerSymbol(root, c, d, |codes[c]|);
      }
    }
  }

  /** With distinct leaves, there is one entry per leaf. */
  lemma OneCodePerLeaf(root: Node)
    requires DistinctLeaves(root)
    ensures |GenerateHuffmanCode(Some(root), "", map[])| == |LeafChars(root)|
  {
    DistinctLeavesCount(root);
  }

  /** A tree that is a single leaf gives its character the empty code. */
  lemma SingleLeafCode(c: char, f: nat)
    ensures GenerateHuffmanCode(Some(Leaf(c, f)), "", map[]) == map[c := ""]
  {
  }
}
