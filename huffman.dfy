/** The two functions of Greedy/Huffman_coding.py used one after the other,
    the way a caller uses them: build the tree of a text, then generate the
    code table from its root with the empty path and an empty table. */
module Huffman {
  import opened HuffmanTree
  import opened Frequency
  import TreeBuilder
  import opened CodeGenerator

  /** The code table of a text: one bit string per distinct character, none a
      prefix of another, each the path to that character's leaf and as long
      as the leaf is deep. The empty text has no tree and an empty table; a
      text of one distinct character gets the empty code. */
  method HuffmanCodes(text: string) returns (root: Option<Node>, codes: map<char, string>)
    ensures root.None? <==> |text| == 0
    ensures root.Some? ==> WellFormed(root.value) && root.value.freq == |text|
    ensures root.Some? ==> Leaves(root.value) == Items(Frequencies(text))
    ensures root.Some? ==> LeafChars(root.value) == multiset(Frequencies(text).Keys)
    ensures forall c :: c in codes <==> c in text
    ensures |codes| == |Frequencies(text)|
    ensures PrefixFree(codes)
    ensures forall c | c in codes :: IsBinary(codes[c])
    ensures root.Some? ==> forall c | c in codes :: LeafAt(root.value, codes[c]) == Some(c)
    ensures root.Some? ==> forall c | c in codes :: AtDepth(root.value, c, |codes[c]|)
    ensures root.Some? ==> forall c, d | AtDepth(root.value, c, d) :: c in codes && |codes[c]| == d
    ensures |Frequencies(text).Keys| == 1 ==> forall c | c in codes :: codes[c] == ""
  {
    root := TreeBuilder.GetHuffmanTree(text);
    codes := GenerateHuffmanCode(root, "", map[]);
    if root.Some? {
      var tree := root.value;
      BuiltTreeCodes(tree, Frequencies(text).Keys);
      CodesAreLeafPaths(tree);
      CodesArePrefixFree(tree);
      CodeLengthsAreDepths(tree);
    } else {
      assert Frequencies(text).Keys == {};
    }
  }

  /** A tree whose leaf characters are the keys of a table, each once, has
      distinct leaves and a code table over exactly those keys; a single-leaf
      tree gives the empty code. */
  lemma BuiltTreeCodes(tree: Node, keys: set<char>)
    requires LeafChars(tree) == multiset(keys)
    ensures DistinctLeaves(tree)
    ensures GenerateHuffmanCode(Some(tree), "", map[]).Keys == keys
    ensures tree.Leaf? ==> GenerateHuffmanCode(Some(tree), "", map[]) == map[tree.ch := ""]
  {
    SymbolsAreLeafChars(tree);
    DistinctFromMultiplicity(tree);
    if tree.Leaf? {
      SingleLeafCode(tree.ch, tree.freq);
    }
  }
}
