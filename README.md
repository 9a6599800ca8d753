# Huffman coding, modelled in Dafny

This project models `Greedy/Huffman_coding.py`: the frequency table of a text, the
greedy construction of a Huffman tree over a min-priority queue, and the recursive
generation of the code table from the finished tree.

The model has five modules, one per concept of the program:

- `Frequency` (`frequency.dfy`) holds the frequency table. The dictionary comprehension
  that maps every distinct character to its count becomes `Frequencies`.
- `HuffmanTree` (`tree.dfy`) holds the node record. A leaf holds a character and its
  frequency. An internal node holds a frequency and two children; the program marks it
  with a missing character. The order `Less` compares frequencies only, as `__lt__`
  does. Summaries of trees and of whole queues sit beside it: weight, leaves, leaf
  characters.
- `TreeBuilder` (`tree_builder.dfy`) holds `get_huffman_tree`. The priority queue is a
  sequence of nodes that the merge loop reassigns. `heappop` is `RemoveMin`: it returns
  some node of least frequency and the rest of the queue. The merge loop is `MergeAll`,
  a `while` loop whose invariants say the queue keeps its total weight, its leaves and
  its leaf characters.
- `CodeGenerator` (`code_generator.dfy`) holds `generate_huffman_code`. It is a pure
  walk that threads the table left subtree first. `LeafAt` gives each code its meaning:
  follow the bits from the root.
- `Huffman` (`huffman.dfy`) chains the two functions the way a caller uses them.

The proved properties:

- The empty text has no tree.
- Otherwise the tree is well formed: every internal node weighs what its children
  weigh. Its root weighs the length of the text. Its leaves are exactly the distinct
  characters, each once, with its count.
- Each merge pops a node that is no heavier than the second pop, and the second is no
  heavier than anything left in the queue. The queue shrinks by one and keeps its
  weight.
- The code table has one entry per distinct character. Every code is a bit string and
  is the path to that character's leaf, so it is as long as the leaf is deep. No code is
  a prefix of another.
- A text with one distinct character gets the empty code.

Three points about the program's own behaviour:

- A single-symbol alphabet gets the empty code `""` (lines 88-92); no `"0"` convention
  is adopted.
- Ties between equal frequencies are not broken deterministically, neither by the
  program nor by the model. `RemoveMin` may return any node of least frequency.
- The program does not check that the code is optimal, and the model does not prove
  it (see below).

## Model

| member | source | states |
|---|---|---|
| Frequency.Count | Greedy/Huffman_coding.py:54 | `text.count(ch)` is the multiplicity of the character in the text, never more than the text's length |
| Frequency.Frequencies | Greedy/Huffman_coding.py:54 | the table's keys are exactly the characters of the text, and each maps to its number of occurrences, at least 1 |
| HuffmanTree.RootWeighsItsLeaves | Greedy/Huffman_coding.py:64-67 | in a well-formed tree the root's frequency is the sum of the leaf frequencies |
| HuffmanTree.LeafCount | Greedy/Huffman_coding.py:63-72 | every tree has a leaf and an internal node has at least two, so one distinct character leaves a single leaf as root |
| HuffmanTree.SymbolsAreLeafChars | Greedy/Huffman_coding.py:88-92 | the characters that get codes are exactly those found at leaves |
| HuffmanTree.DistinctFromMultiplicity | Greedy/Huffman_coding.py:54-57 | leaves whose characters occur once each are distinct: no character is in both subtrees of any node |
| HuffmanTree.DistinctLeavesCount | Greedy/Huffman_coding.py:54-57 | with distinct leaves there are as many distinct characters as leaves |
| HuffmanTree.PermutedForest | Greedy/Huffman_coding.py:60 | reordering the queue, as `heapify` does, keeps its total weight, its leaves and its leaf characters |
| HuffmanTree.Less | Greedy/Huffman_coding.py:21-34 | nodes are compared by frequency alone |
| HuffmanTree.LessOrder | Greedy/Huffman_coding.py:21-34 | the order is irreflexive and transitive, any two nodes are comparable one way or the other unless their frequencies are equal, and nodes of equal frequency are not ordered at all, whatever their shape or character |
| TreeBuilder.RemoveMin | Greedy/Huffman_coding.py:21-34 | `heappop` under `__lt__` removes one node no remaining node is Less than, and the rest is the queue without it |
| TreeBuilder.InitialQueue | Greedy/Huffman_coding.py:57 | one leaf per table entry: the queue's leaves are the table's items and its leaf characters are the keys, each once |
| TreeBuilder.AppendLeaf | Greedy/Huffman_coding.py:57 | adding the leaf of one more key adds exactly that key's item to the queue's leaves |
| TreeBuilder.MergeStep | Greedy/Huffman_coding.py:64-68 | two nodes leave the bag and their parent, with the first pop as left child, joins it; the first pop is no heavier than the second and the second no heavier than any node left; the queue is one shorter, keeps its weight, leaves and leaf characters, and stays well formed |
| TreeBuilder.TwoPops | Greedy/Huffman_coding.py:64 | two pops in a row take out a pair in order of weight, both lighter than or equal to the rest |
| TreeBuilder.ParentReplacesChildren | Greedy/Huffman_coding.py:65-67 | a parent weighing the sum of its children holds exactly what the two children held |
| TreeBuilder.MergeAccounting | Greedy/Huffman_coding.py:64-68 | replacing two popped nodes by their parent keeps the queue's total weight and leaves |
| TreeBuilder.MergeKeepsWellFormed | Greedy/Huffman_coding.py:65-67 | the new parent of two well-formed nodes is well formed |
| TreeBuilder.MergeAll | Greedy/Huffman_coding.py:63-72 | the loop ends with one root that weighs the whole queue and holds all its leaves; well-formed input gives a well-formed root |
| TreeBuilder.QueueWeight | Greedy/Huffman_coding.py:54-57 | a queue of leaves weighted by their counts weighs the counts of its characters |
| TreeBuilder.GetHuffmanTree | Greedy/Huffman_coding.py:37-72 | None exactly for the empty text; otherwise a well-formed tree that weighs the length of the text, whose leaves are the table's items, each character once, and which is a single leaf when the text has one distinct character |
| CodeGenerator.Walk | Greedy/Huffman_coding.py:88-98 | the walk adds an entry for each leaf character of the subtree |
| CodeGenerator.WalkKeeps | Greedy/Huffman_coding.py:92-98 | entries of characters outside the subtree are left as they were |
| CodeGenerator.WalkPaths | Greedy/Huffman_coding.py:88-98 | every leaf character gets an extension of the current path that leads from the subtree to a leaf carrying it |
| CodeGenerator.GenerateHuffmanCode | Greedy/Huffman_coding.py:75-99 | a missing root returns the table unchanged; otherwise the table gains exactly the tree's characters as new keys |
| CodeGenerator.GenerateKeepsOthers | Greedy/Huffman_coding.py:75-99 | a table handed in keeps the entries of characters outside the tree, and the tree's characters get codes that extend the given path |
| CodeGenerator.LeafPathIsBinary | Greedy/Huffman_coding.py:94-98 | a path that ends at a leaf holds only '0' and '1' |
| CodeGenerator.LeafPathsNotNested | Greedy/Huffman_coding.py:88-98 | of two paths that end at leaves, one is a prefix of the other only when they are equal |
| CodeGenerator.LeafPathDepth | Greedy/Huffman_coding.py:94-98 | a path that ends at a leaf is as long as the leaf is deep |
| CodeGenerator.DepthHasSymbol | Greedy/Huffman_coding.py:88-92 | a character is at some depth only if a leaf carries it |
| CodeGenerator.OneDepthPerSymbol | Greedy/Huffman_coding.py:88-98 | with distinct leaves, each character is at exactly one depth |
| CodeGenerator.CodesAreLeafPaths | Greedy/Huffman_coding.py:88-99 | from the root with the empty path and an empty table, the keys are the tree's characters and each code leads from the root to that character's leaf |
| CodeGenerator.CodesArePrefixFree | Greedy/Huffman_coding.py:88-99 | the codes are strings of '0' and '1', and none is a prefix of another character's code |
| CodeGenerator.CodeLengthsAreDepths | Greedy/Huffman_coding.py:88-99 | every code is as long as its leaf is deep, and with distinct leaves every leaf at depth d has a code of length d |
| CodeGenerator.OneCodePerLeaf | Greedy/Huffman_coding.py:88-99 | with distinct leaves there is one entry per leaf |
| CodeGenerator.SingleLeafCode | Greedy/Huffman_coding.py:88-92 | a tree that is one leaf gives its character the empty code |
| Huffman.HuffmanCodes | Greedy/Huffman_coding.py:37-99 | for any text: no tree exactly when it is empty; one code per distinct character; the codes are bit strings, prefix-free, the leaves' paths and as long as their depths; a single distinct character gets "" |
| Huffman.BuiltTreeCodes | Greedy/Huffman_coding.py:54-99 | a tree holding each key of the table once has distinct leaves and a code table over exactly those keys |

## Left out

- heapq internals: the heap layout, sift-up and sift-down, and the way equal frequencies are ordered are not modelled. The queue is a bag of nodes, and `heapify` leaves it unchanged. The model pushes the parent at the front of the sequence (tree_builder.dfy:108), which is immaterial to a bag. `RemoveMin` returns any node of least frequency, so the model covers every tie-breaking the heap could show.
- Iteration order of `freq.items()` is not fixed: `InitialQueue` takes the keys in whatever order it picks them.
- Shared default table of `generate_huffman_code`: the table is an explicit parameter, threaded left subtree first, instead of a dictionary mutated in place. The alias a default argument creates across calls is modelled only through `GenerateKeepsOthers`, which says what a reused table keeps.
- Optimality of the code lengths (minimum weighted path length) is not stated or proved.
- Running-time claims (O(n log n) construction, O(n) code generation) are not modelled.
- Determinism is not stated. Repeated runs on the same text yielding codes of the same lengths is not a property of the model, since ties are left open.
- Encoding and decoding a bitstream with the code table is not part of the program and is not modelled.
- Python's character model is not modelled: strings are sequences of Dafny `char`.
