# Huffman coding pipeline, modelled in Dafny

This project models the Huffman core of the HuffmanVisualizer application and proves its properties. The pipeline runs as follows:

1. `FrequencyCounter` counts how often each character occurs in a text.
2. `SortedNodesCreator` turns each distinct character into a leaf. It then orders the leaves with the stable merge sort of `MergeSort`.
3. `TreeBuilder` repeatedly merges the first two nodes of its working list into a new node. It re-inserts that node before the first node of strictly greater frequency and records a snapshot of the list before each merge.
4. `CodeGenerator` assigns each leaf its root-to-leaf path, with `0` for left and `1` for right.
5. `Compressor` concatenates the codes of a text's characters.
6. `Decompressor` inverts the code table and decodes bit by bit, greedily.

Modules:

- `NodeModel` (`nodes.dfy`):
  - tree nodes as immutable values (`Leaf` / `Internal`);
  - the mutable `HuffmanNode` object with its constructor, setters and `IsLeaf`;
  - sums and character sets over node lists.
- `MergeSort`:
  - `Merged` and `MergeSorted` specify the sort as functions;
  - the `Merge` and `MergeSort` methods follow the source's loops and recursion and are proved equal to those functions;
  - lemmas prove the result ascending, a permutation and stable. Stability means the subsequence of each frequency is unchanged.
- `FrequencyCounter`: the counting loop, and the fact that the counts add up to the text length.
- `SortedNodesCreator`:
  - the source iterates a `HashMap` in an order Java does not specify, so that order is a parameter `keyOrder` that lists each character of the text exactly once;
  - `Sort` builds one leaf per key and sorts the leaves.
- `TreeModel`: the mutable `HuffmanTree` object, which holds the root, the snapshots and the code table.
- `TreeBuilder`:
  - `MergeStep`, `Steps` and `Root` specify the construction;
  - counting leaves shows that the root holds each character of the text at exactly one leaf, so each leaf gets exactly one code;
  - `BuildHuffmanTree` sorts the leaves and hands them to `MergeToRoot`, which is the source's loop over a working list; it is proved to record exactly `Steps` and to end at `Root`. The loop is a method of its own only so that its proof is kept apart from the sorting.
- `CodeGenerator`:
  - `CodeTable` is the table the recursive generator writes;
  - `GenerateCode` is proved to write exactly that table into the map it is given;
  - the table is prefix-free, and it agrees with the tree paths.
- `Compressor`: `Encode` and the `Compress` loop. A character missing from the table contributes the literal text `null`.
- `Decompressor`:
  - `Inverse` builds the inverse table, and when two characters share a code the later write wins;
  - `DecodeFrom` is the greedy decoder;
  - the `Decompress` loops;
  - the round trip for prefix-free tables without empty codes;
  - dropped trailing bits;
  - the loss of a single-symbol text.
- `HuffmanPipeline`: the code generated for a text, and the end-to-end round trip from `Test.java`. It holds once the text has two distinct characters. With one distinct character the text is lost.

Points where the model follows the code rather than its written description:

- A character missing from the code table is encoded as the four characters `null`. The code raises no unknown-symbol error.
- Decoding has no duplicate-code or truncated-input error. A duplicated code is overwritten silently, and leftover bits are dropped silently.
- An empty text does not produce an empty tree: the builder fails when it reads the first element of the empty list. `BuildHuffmanTree` therefore requires a non-empty text.
- A text with a single distinct character gets the empty code. It therefore compresses to nothing and decompresses to the empty text.

## Model

| member | source | states |
|---|---|---|
| NodeModel.HuffmanNode.constructor | huffman_project/demo2/src/main/java/huffman/model/HuffmanNode.java:22-25 | the new node holds the given character and frequency, has no children and is a leaf |
| NodeModel.HuffmanNode.IsLeaf | huffman_project/demo2/src/main/java/huffman/model/HuffmanNode.java:27-29 | a node is a leaf exactly when both child references are null |
| NodeModel.HuffmanNode.SetCharacter | huffman_project/demo2/src/main/java/huffman/model/HuffmanNode.java:10 | sets the character and leaves frequency and both children unchanged |
| NodeModel.HuffmanNode.SetFrequency | huffman_project/demo2/src/main/java/huffman/model/HuffmanNode.java:13 | sets the frequency and leaves the character and both children unchanged |
| NodeModel.HuffmanNode.SetLeft | huffman_project/demo2/src/main/java/huffman/model/HuffmanNode.java:16 | sets the left child and leaves the other three fields unchanged |
| NodeModel.HuffmanNode.SetRight | huffman_project/demo2/src/main/java/huffman/model/HuffmanNode.java:19 | sets the right child and leaves the other three fields unchanged |
| NodeModel.SumFreqPermutation | demo2/src/main/java/huffman/algorithm/SortedNodesCreator.java:17-21 | reordering a node list keeps its total frequency |
| NodeModel.CharsOfPermutation | demo2/src/main/java/huffman/algorithm/SortedNodesCreator.java:17-21 | reordering a node list keeps the set of characters at its leaves |
| MergeSort.Merged | huffman_project/demo2/src/main/java/huffman/algorithm/MergeSort.java:9-34 | the merge of two lists has as many elements as both together |
| MergeSort.MergedPermutation | huffman_project/demo2/src/main/java/huffman/algorithm/MergeSort.java:13-33 | the merge is a permutation of the concatenation of its inputs |
| MergeSort.MergedSorted | huffman_project/demo2/src/main/java/huffman/algorithm/MergeSort.java:13-32 | merging two ascending lists gives an ascending list |
| MergeSort.MergedStable | huffman_project/demo2/src/main/java/huffman/algorithm/MergeSort.java:14-17 | for ascending inputs (the only ones merge sort passes it), for every frequency the merge lists the first input's elements of that frequency and then the second's, each in its own order |
| MergeSort.MergedSortedStable | huffman_project/demo2/src/main/java/huffman/algorithm/MergeSort.java:13-33 | for ascending inputs the merge is ascending, and for every frequency it keeps that frequency's elements in input order |
| MergeSort.MergeSorted | huffman_project/demo2/src/main/java/huffman/algorithm/MergeSort.java:36-40 | merge sort's result has the input's length |
| MergeSort.MergeSortedPermutation | huffman_project/demo2/src/main/java/huffman/algorithm/MergeSort.java:36-40 | merge sort returns a permutation of its input |
| MergeSort.MergeSortedSorted | huffman_project/demo2/src/main/java/huffman/algorithm/MergeSort.java:36-40 | merge sort returns an ascending list |
| MergeSort.MergeSortedStable | huffman_project/demo2/src/main/java/huffman/algorithm/MergeSort.java:36-40 | merge sort keeps the relative order of elements of equal frequency |
| MergeSort.Merge | huffman_project/demo2/src/main/java/huffman/algorithm/MergeSort.java:9-34 | the three loops compute the merge of the two lists, which has the combined length and is a permutation of the inputs; ascending inputs give an ascending, stable result |
| MergeSort.MergeSort | huffman_project/demo2/src/main/java/huffman/algorithm/MergeSort.java:36-40 | returns lists of length at most 1 unchanged, and otherwise an ascending permutation of the input that keeps equal frequencies in input order |
| FrequencyCounter.GetFrequency | demo2/src/main/java/huffman/algorithm/FrequencyCounter.java:7-19 | a character is a key exactly when it occurs in the text, its count is its number of occurrences (at least 1), and the empty text gives the empty map |
| FrequencyCounter.CountsSumToLength | demo2/src/main/java/huffman/algorithm/FrequencyCounter.java:9-18 | over any duplicate-free listing of the characters that occur, the counts add up to the length of the text |
| SortedNodesCreator.LeavesFor | demo2/src/main/java/huffman/algorithm/SortedNodesCreator.java:17-20 | one leaf per listed key, in key order, carrying that key's count in the text |
| SortedNodesCreator.SortedLeaves | demo2/src/main/java/huffman/algorithm/SortedNodesCreator.java:11-22 | the returned list has one leaf per listed key and is a reordering of the leaves built in key order |
| SortedNodesCreator.SortedLeavesCount | demo2/src/main/java/huffman/algorithm/SortedNodesCreator.java:17-21 | the sorted leaves of a text have as many distinct characters as leaves, one per distinct character |
| SortedNodesCreator.SortedLeavesProperties | demo2/src/main/java/huffman/algorithm/SortedNodesCreator.java:14-21 | the sorted leaves are ascending, one per distinct character of the text with its count as frequency, a permutation of the unsorted leaves that keeps equal counts in key order, and their frequencies add up to the text length |
| SortedNodesCreator.Sort | demo2/src/main/java/huffman/algorithm/SortedNodesCreator.java:11-22 | returns the leaves sorted by count and stable in key order, one per distinct character and each carrying that character's count; the counts add up to the text length, and the empty text gives the empty list |
| TreeModel.HuffmanTree.constructor | huffman_project/demo2/src/main/java/huffman/model/HuffmanTree.java:11-13 | a new tree has no root, no snapshots and an empty code table |
| TreeModel.HuffmanTree.SetRoot | huffman_project/demo2/src/main/java/huffman/model/HuffmanTree.java:16 | the root becomes the given node, and the snapshots and the code table are unchanged |
| TreeModel.HuffmanTree.AddConstructionSteps | huffman_project/demo2/src/main/java/huffman/model/HuffmanTree.java:21-23 | appends exactly one snapshot, keeps the earlier ones as they were, and leaves the root and the code table unchanged |
| TreeModel.HuffmanTree.GenerateMycode | huffman_project/demo2/src/main/java/huffman/model/HuffmanTree.java:24-26 | writes the code table of the root, generated from the empty path, over the existing table without clearing it; the root and the snapshots are unchanged |
| TreeModel.GenerateCodeIdempotent | huffman_project/demo2/src/main/java/huffman/model/HuffmanTree.java:24-26 | generating the codes a second time from the same root leaves the table as the first run left it |
| TreeBuilder.FirstGreater | huffman_project/demo2/src/main/java/huffman/algorithm/TreeBuilder.java:24-37 | the insertion point: every node before it has frequency at most the new one, and the node at it (if any) has a strictly greater frequency |
| TreeBuilder.Insert | huffman_project/demo2/src/main/java/huffman/algorithm/TreeBuilder.java:24-37 | the list grows by one and the new node sits at the insertion point, the first position whose node is strictly more frequent |
| TreeBuilder.InsertPermutation | huffman_project/demo2/src/main/java/huffman/algorithm/TreeBuilder.java:24-37 | inserting the merged node adds exactly that node to the list |
| TreeBuilder.InsertSorted | huffman_project/demo2/src/main/java/huffman/algorithm/TreeBuilder.java:24-37 | inserting before the first strictly greater node keeps an ascending list ascending |
| TreeBuilder.MergeStep | huffman_project/demo2/src/main/java/huffman/algorithm/TreeBuilder.java:16-37 | one merge shortens the working list by exactly one node |
| TreeBuilder.Steps | huffman_project/demo2/src/main/java/huffman/algorithm/TreeBuilder.java:13-41 | the recorded snapshots start with the start list and are never empty |
| TreeBuilder.Root | huffman_project/demo2/src/main/java/huffman/algorithm/TreeBuilder.java:13-42 | the node left from two or more nodes is an internal node |
| TreeBuilder.StepsShape | huffman_project/demo2/src/main/java/huffman/algorithm/TreeBuilder.java:13-41 | n nodes give n snapshots: the first is the start list, each later one is the merge of the one before and one node shorter, and the last holds only the root |
| TreeBuilder.StepsSorted | huffman_project/demo2/src/main/java/huffman/algorithm/TreeBuilder.java:13-41 | when the start list is ascending, every snapshot is ascending |
| TreeBuilder.MergeStepConserves | huffman_project/demo2/src/main/java/huffman/algorithm/TreeBuilder.java:16-37 | a merge keeps the total frequency and the leaf characters of the list and yields well-formed nodes, whose frequency is the sum of the children's |
| TreeBuilder.StepsConserve | huffman_project/demo2/src/main/java/huffman/algorithm/TreeBuilder.java:13-42 | every snapshot has the start list's total frequency; the root carries that total, has exactly the start list's characters at its leaves and is well-formed |
| NodeModel.LeafCharsCount | huffman_project/demo2/src/main/java/huffman/algorithm/TreeBuilder.java:19-22 | a tree has at most as many leaf characters as leaves, with equality exactly when no character sits at two leaves |
| TreeBuilder.InsertLeafCount | huffman_project/demo2/src/main/java/huffman/algorithm/TreeBuilder.java:24-37 | inserting a node adds its leaves to the list's leaf total |
| TreeBuilder.MergeStepLeafCount | huffman_project/demo2/src/main/java/huffman/algorithm/TreeBuilder.java:16-37 | one merge keeps the number of leaves in the working list |
| TreeBuilder.RootLeafCount | huffman_project/demo2/src/main/java/huffman/algorithm/TreeBuilder.java:13-42 | the root has as many leaves as the trees of the start list together |
| TreeBuilder.RootDistinctLeaves | huffman_project/demo2/src/main/java/huffman/algorithm/TreeBuilder.java:13-42 | the root holds no character at two leaves exactly when the start list has as many distinct leaf characters as leaves |
| TreeBuilder.BuiltTreeProperties | huffman_project/demo2/src/main/java/huffman/algorithm/TreeBuilder.java:8-44 | a non-empty text yields one snapshot per distinct character, each ascending, one shorter than the one before, with total frequency equal to the text length; the root carries the text length, is well-formed, and holds each of the text's characters at exactly one leaf and no other character |
| TreeBuilder.InsertBeforeFirstGreater | huffman_project/demo2/src/main/java/huffman/algorithm/TreeBuilder.java:24-37 | the iterator scan puts the new node before the first node of strictly greater frequency, or at the end |
| TreeBuilder.BuildHuffmanTree | huffman_project/demo2/src/main/java/huffman/algorithm/TreeBuilder.java:8-44 | records exactly the snapshots of the repeated merge and sets the last remaining node as root, leaving the code table empty; one snapshot per distinct character, each ascending and summing to the text length; the root carries the text length, is well-formed, and holds each of the text's characters at exactly one leaf and no other character |
| TreeBuilder.MergeToRoot | huffman_project/demo2/src/main/java/huffman/algorithm/TreeBuilder.java:13-42 | the loop records, on a tree with no steps, root or code, exactly the snapshots of the repeated merge of the given list and sets the single node left as root, leaving the code table empty |
| CodeGenerator.CodeTable | demo2/src/main/java/huffman/algorithm/CodeGenerator.java:8-17 | the table has a key for exactly the leaf characters, every code extends the path so far, and under an internal node every code is strictly longer |
| CodeGenerator.GenerateCode | demo2/src/main/java/huffman/algorithm/CodeGenerator.java:8-17 | adds the subtree's table to the given map: the keys become the old keys plus the leaf characters, other entries are unchanged, and at a leaf only that character is set, to the path |
| CodeGenerator.CodeTablePrefixFree | demo2/src/main/java/huffman/algorithm/CodeGenerator.java:10-15 | no code of a generated table is a prefix of another character's code |
| CodeGenerator.CodeIsPath | demo2/src/main/java/huffman/algorithm/CodeGenerator.java:10-15 | each generated code, minus the starting path, spells a root-to-leaf path that ends at that character |
| CodeGenerator.LeadsToLeaf | demo2/src/main/java/huffman/algorithm/CodeGenerator.java:10-15 | a path that ends at a character ends at one of the tree's leaves |
| CodeGenerator.PathIsCode | demo2/src/main/java/huffman/algorithm/CodeGenerator.java:10-15 | in a tree whose leaves hold distinct characters, a root-to-leaf path to a character is exactly its generated code |
| Compressor.CodeOf | demo2/src/main/java/huffman/algorithm/Compressor.java:12 | a character in the table contributes its code, and a missing one contributes the four characters "null" |
| Compressor.Encode | demo2/src/main/java/huffman/algorithm/Compressor.java:11-13 | the output is the characters' contributions in text order; when every character has a non-empty code it has at least one bit per character |
| Compressor.EncodeConcat | demo2/src/main/java/huffman/algorithm/Compressor.java:11-13 | compression is a homomorphism: the encoding of a concatenation is the concatenation of the encodings |
| Compressor.EncodeLength | demo2/src/main/java/huffman/algorithm/Compressor.java:11-13 | the output is exactly as long as what the text's characters contribute together |
| Compressor.EncodeUnknownSymbol | demo2/src/main/java/huffman/algorithm/Compressor.java:12 | a character missing from the table puts the text "null" at its place in the output |
| Compressor.Compress | demo2/src/main/java/huffman/algorithm/Compressor.java:8-15 | the loop outputs the in-order concatenation of the characters' table entries, of total length the sum of their lengths; the empty text gives the empty string |
| Decompressor.Inverse | demo2/src/main/java/huffman/algorithm/Decompressor.java:10-13 | every entry of the inverse table maps a code to a visited character that has that code |
| Decompressor.InverseEntries | demo2/src/main/java/huffman/algorithm/Decompressor.java:10-13 | every code of a visited character is a key of the inverse table |
| Decompressor.InverseIsInverseOf | demo2/src/main/java/huffman/algorithm/Decompressor.java:10-13 | whatever the visiting order, the table built from all entries is an inverse of the code table |
| Decompressor.InverseLastWins | demo2/src/main/java/huffman/algorithm/Decompressor.java:10-13 | a code maps back to the last visited character that has it, so when two characters share a code the later write wins, with no error |
| Decompressor.InverseOfPrefixFree | demo2/src/main/java/huffman/algorithm/Decompressor.java:10-13 | for a prefix-free table, each code maps back to its own character |
| Decompressor.DecodeFrom | demo2/src/main/java/huffman/algorithm/Decompressor.java:15-22 | the greedy decoder emits at most one character per bit read, and only characters of the inverse table |
| Decompressor.Decode | demo2/src/main/java/huffman/algorithm/Decompressor.java:14-23 | decoding from the empty buffer yields at most one character per bit, only characters of the inverse table, and nothing from no bits |
| Decompressor.TrailingBitsDropped | demo2/src/main/java/huffman/algorithm/Decompressor.java:16-23 | bits that never complete a code are dropped silently and add nothing to the output |
| Decompressor.DecodeCodeword | demo2/src/main/java/huffman/algorithm/Decompressor.java:16-22 | reading the rest of a prefix-free, non-empty codeword emits exactly its character and empties the buffer |
| Decompressor.DecodeEncode | demo2/src/main/java/huffman/algorithm/Decompressor.java:16-22 | for a prefix-free table with no empty code that holds every character of t, decoding the encoding of t followed by more bits gives t followed by the decoding of those bits |
| Decompressor.RoundTrip | demo2/src/main/java/huffman/algorithm/Decompressor.java:16-22 | decompressing the compression of t gives t back when the table is prefix-free, no code is empty and every character of t has a code |
| Decompressor.EmptyCodeLosesText | demo2/src/main/java/huffman/algorithm/Decompressor.java:17-18 | with the single code "" a text compresses to nothing and decompresses to the empty text |
| Decompressor.Decompress | demo2/src/main/java/huffman/algorithm/Decompressor.java:9-24 | the two loops build the inverse table in entry order and decode greedily, resetting the buffer after each match; the empty bit string gives the empty text |
| HuffmanPipeline.HuffmanCode | demo2/src/main/java/huffman/algorithm/Test.java:7-13 | the code table generated for a text has a code for exactly the text's characters |
| HuffmanPipeline.HuffmanCodeProperties | demo2/src/main/java/huffman/algorithm/CodeGenerator.java:10-15 | the generated table is prefix-free, and a path leads from the root to a leaf holding c exactly when it is c's code, so every leaf gets exactly one code; with two or more distinct characters no code is empty, and with one the only code is "" |
| HuffmanPipeline.PipelineRoundTrip | demo2/src/main/java/huffman/algorithm/Test.java:7-16 | once the text has two distinct characters, every text over its characters survives compression and decompression, whatever order the code table is visited in |
| HuffmanPipeline.PipelineSingleSymbol | demo2/src/main/java/huffman/algorithm/Test.java:7-16 | a text with one distinct character compresses to no bits and decompresses to the empty text, not to itself |
| HuffmanPipeline.CompressThenDecompress | demo2/src/main/java/huffman/algorithm/Test.java:7-16 | building, generating, compressing and decompressing gives the text back once it has two distinct characters, and gives no bits and the empty text when it has one |

## Left out

- Getters of `HuffmanNode` and `HuffmanTree` (`getCharacter`, `getFrequency`, `getLeft`, `getRight`, `getRoot`, `getCode`, `getConstructionSteps`): they are reads of the modelled fields. The setter contracts state that a field keeps the value last written.
- Node identity and aliasing: the algorithms use immutable `Node` values, not `HuffmanNode` objects. Snapshots sharing node objects and `setLeft`/`setRight` attaching children are captured by value, which matches the source because no recorded node is mutated after it is recorded.
- `HuffmanNode.toString`, `Dfs.java` and the JavaFX visualiser: display, drawing, timers, file reading and clipboard. `Test.java` serves only as the pipeline's round-trip statement; its printing is left out.
- `TextToListOfCharacter.TextFormatModifier` is not part of this model. The text is taken to be its list of characters, in order.
- `HashMap` iteration order: the order is a parameter. `keyOrder`, the frequency map's order, lists each key exactly once. `entryOrder`, the code table's order in `Decompress` and the pipeline, need only visit every key: a repeat writes its code again, and the last visit of a code decides its character (`InverseLastWins`). The model does not fix which order Java uses.
- Characters: a Dafny `char` stands for one Java `char`, a UTF-16 code unit, and a text is its sequence of code units, as `toCharArray` yields them. Dafny's `char` excludes the surrogate code units, so code units are mapped onto Dafny characters by an injective renaming that includes the surrogates. No proof depends on particular character values. Read directly as a Dafny string, a text outside the Basic Multilingual Plane would have fewer characters than the Java text.
- TreeModel.HuffmanTree.GenerateMycode: requires a root. In the source, generating codes before a root is set throws a `NullPointerException` at `CodeGenerator.java:10`; the model does not represent that exception.
- Java's 32-bit `int` is modelled as an unbounded integer, so overflow of frequencies is not modelled. A count never exceeds the text length.
- `subList` views and `ArrayList` copies are sequence slices and sequence values.
- TreeBuilder.InsertBeforeFirstGreater: its contract only equates the result with `Insert`. The permutation and ordering facts are stated by `InsertPermutation` and `InsertSorted` instead.
- `Decompressor` reads each character and code through the table's entries. The model visits the entries through `keyOrder` and looks up each code, which yields the same pairs.
