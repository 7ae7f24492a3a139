# Huffman coding engine — a Dafny model

This project models the Huffman coding engine of the UnivMobileLabHuffman Android app.
The engine is the generic class `HuffmanMap<Symbol>` in
`app/src/main/java/com/delitx/huffmancoding/ui/huffman_coding/HuffmanMap.kt`, together
with the top-level helper `String.toBinary()` of `MainActivity.kt`. The model covers:

- **Frequency counting** (`getCharOccurRate`), in module `Frequency` (`frequency.dfy`).
  It folds a text into one (symbol, count) pair per distinct symbol. The pairs come in
  order of first occurrence, as Kotlin's insertion-ordered `mutableMapOf` keeps them.
- **Tree construction** (the `HuffmanMap` constructor), in module `Builder` (`builder.dfy`).
  The priority queue is a sequence of (node, weight) entries. Each iteration of the loop
  removes two minimum-weight entries, merges them into a `Parent` (first entry on the
  left) and pushes the merged entry back with the summed weight. Java's `PriorityQueue`
  does not specify how it breaks ties. So the loop uses an explicit rule, `FirstMinimum`:
  the lowest index among equal weights, with merged entries appended at the end. The
  iteration lemmas `MergePreserves` and `MergeTakesLightest` are stated for ANY two
  minimum entries, and `BuildTreeAnyTieBreak` runs the whole loop with an arbitrary
  choice of minimum entries and keeps every guarantee of `BuildTree`.
- **Code tree and code lookup** (`Node`, `NodeParent`, `NodeSymbol`, `getCode`), in module
  `CodeTree` (`code_tree.dfy`). `Follow` walks a path of '0'/'1' characters from a node.
  This gives an independent reading of what a code means.
- **Code table** (`codesTable`, lines 25-29) and the composed entry point `toHuffmanMap`,
  in module `Builder`. The table is Kotlin's `mutableMapOf`, an insertion-ordered
  `LinkedHashMap`, so the model keeps a Dafny `map` together with the order of its keys.
- **Encoding** (`encodeText`), in module `Encoding` (`encoding.dfy`).
- **Decoding** (`getSymbolByCode`, and `getSymbolsByCode` both as written and corrected),
  in module `Decoding` (`decoding.dfy`).
- **`toBinary`**, in module `Binary` (`binary.dfy`). A Kotlin `Char` is a UTF-16 code unit,
  so a character is modelled by its code, a number below 0x1_0000.

Exceptions become the `Err` case of `Wrappers.Result`: `IllegalArgument` stands for
`IllegalArgumentException` and `IndexOutOfBounds` for `StringIndexOutOfBoundsException`.
Kotlin's nullable results become `Wrappers.Option`.

Three behaviours of the code are worth stating on their own:

- **Truncated tail.** `getSymbolByCode` does not drop a partial tail. Its loop tests the
  original `code`, not `currentCode`, so when the bits run out at a `NodeParent`,
  `currentCode[0]` throws StringIndexOutOfBoundsException. The model returns
  `Err(IndexOutOfBounds)` there (`Decoding.DescendTruncatedThrows`).
- **Whole-string decoding.** `getSymbolsByCode` never ends on two or more codewords
  (see Findings). The model keeps the loop as written and a corrected loop beside it.
- **Tie-break.** `PriorityQueue` promises no order among equal weights. The model's loop
  uses the rule documented above, and `Builder.BuildTreeAnyTieBreak` proves the same
  guarantees for a loop that takes any minimum entries at all.

## Model

| member | source | states |
|---|---|---|
| CodeTree.FullTreeLeafCount | app/src/main/java/com/delitx/huffmancoding/ui/huffman_coding/HuffmanMap.kt:82-111 | every tree of `NodeParent`/`NodeSymbol` nodes is full: it has exactly one more leaf than internal nodes |
| CodeTree.GetCode | app/src/main/java/com/delitx/huffmancoding/ui/huffman_coding/HuffmanMap.kt:90-110 | `getCode` is null iff no leaf holds the symbol; otherwise it is a '0'/'1' string that, followed from the node ('0' left, '1' right), ends at a leaf holding the symbol |
| CodeTree.GetCodeFindsLeftmost | app/src/main/java/com/delitx/huffmancoding/ui/huffman_coding/HuffmanMap.kt:90-100 | when several leaves hold the symbol, the code leads to the leftmost of them, because the left result is preferred |
| CodeTree.LeafIndex | app/src/main/java/com/delitx/huffmancoding/ui/huffman_coding/HuffmanMap.kt:86-89 | a path ending at a leaf picks a position in the left-to-right leaf list, and that position holds the leaf's symbol |
| CodeTree.LeafPathIsMaximal | app/src/main/java/com/delitx/huffmancoding/ui/huffman_coding/HuffmanMap.kt:103-110 | a path that reaches a leaf cannot be extended to reach another leaf |
| CodeTree.NoCodeIsPrefixOfAnother | app/src/main/java/com/delitx/huffmancoding/ui/huffman_coding/HuffmanMap.kt:90-110 | the codes of two different symbols are never prefixes of one another, in any tree |
| Decoding.Descend | app/src/main/java/com/delitx/huffmancoding/ui/huffman_coding/HuffmanMap.kt:56-75 | a successful walk returns a symbol and a suffix of its input; the bits it consumed lead from the start node to the leaf of that symbol; from a `NodeParent` it consumes at least one bit |
| Decoding.GetSymbolByCode | app/src/main/java/com/delitx/huffmancoding/ui/huffman_coding/HuffmanMap.kt:55-77 | an empty code gives `(null, "")`; a non-empty code either throws or gives a symbol and a suffix of the code, strictly shorter when the root is a `NodeParent`; with a single `NodeSymbol` root the symbol comes back with the whole code, since line 72 returns before any bit is read |
| Decoding.DescendCodeword | app/src/main/java/com/delitx/huffmancoding/ui/huffman_coding/HuffmanMap.kt:56-75 | any complete root-to-leaf path followed by any bits decodes to that leaf's symbol and leaves exactly those bits |
| Decoding.DecodeStepInvertsGetCode | app/src/main/java/com/delitx/huffmancoding/ui/huffman_coding/HuffmanMap.kt:55-77 | in a tree with two or more leaves, `getSymbolByCode(getCode(s) + rest)` returns `(s, rest)` |
| Decoding.DescendRejectsNonBit | app/src/main/java/com/delitx/huffmancoding/ui/huffman_coding/HuffmanMap.kt:60-67 | reaching a character other than '0'/'1' while at a `NodeParent` throws IllegalArgumentException |
| Decoding.DescendTruncatedThrows | app/src/main/java/com/delitx/huffmancoding/ui/huffman_coding/HuffmanMap.kt:58-61 | bits that run out at a `NodeParent` throw StringIndexOutOfBoundsException instead of returning `(null, "")` |
| Decoding.SymbolsByCodeAsWrittenNeverEnds | app/src/main/java/com/delitx/huffmancoding/ui/huffman_coding/HuffmanMap.kt:42-53 | as written, once the first codeword leaves bits behind, every pass of the loop decodes the same first symbol and resets the remaining code to the same non-empty bits, so the loop never ends |
| Decoding.SymbolsByCodeAsWrittenLoopsOnTwoCodewords | app/src/main/java/com/delitx/huffmancoding/ui/huffman_coding/HuffmanMap.kt:45-50 | concrete input: in the tree with leaves 'a' and 'b', the code "00" leaves "0" remaining after every pass |
| Decoding.SymbolsByCode | app/src/main/java/com/delitx/huffmancoding/ui/huffman_coding/HuffmanMap.kt:42-53 | corrected loop (each pass decodes `currentCode`): the empty code decodes to no symbols; the round-trip lemmas `Encoding.DecodeEncodeRoundTrip` and `Encoding.EncodeDecodeRoundTrip` fix its meaning |
| Encoding.EncodeText | app/src/main/java/com/delitx/huffmancoding/ui/huffman_coding/HuffmanMap.kt:32-38 | the encoding of any text, known symbols or not, is a string over '0'/'1' |
| Encoding.EncodeTextAppend | app/src/main/java/com/delitx/huffmancoding/ui/huffman_coding/HuffmanMap.kt:32-38 | `encodeText(a + b) == encodeText(a) + encodeText(b)` |
| Encoding.EncodeTextSkipsUnknown | app/src/main/java/com/delitx/huffmancoding/ui/huffman_coding/HuffmanMap.kt:35 | a symbol no leaf holds contributes nothing, wherever it stands in the text |
| Encoding.DecodeEncodeRoundTrip | app/src/main/java/com/delitx/huffmancoding/ui/huffman_coding/HuffmanMap.kt:32-77 | in a tree with two or more leaves, decoding (corrected loop) the encoding of a text whose symbols all have codes gives the text back |
| Encoding.PathToLeafIsCode | app/src/main/java/com/delitx/huffmancoding/ui/huffman_coding/HuffmanMap.kt:90-110 | when no symbol is at two leaves, any path to the leaf of `s` is exactly `getCode(s)` |
| Encoding.DecodedCodewordIsCode | app/src/main/java/com/delitx/huffmancoding/ui/huffman_coding/HuffmanMap.kt:55-110 | when no symbol is at two leaves, the bits one decode step consumes are exactly `getCode` of the symbol it returns |
| Encoding.EncodeDecodeRoundTrip | app/src/main/java/com/delitx/huffmancoding/ui/huffman_coding/HuffmanMap.kt:32-53 | when no symbol is at two leaves, every bit string the corrected decoder accepts is the encoding of the symbols it returns |
| Frequency.KeyIndex | app/src/main/java/com/delitx/huffmancoding/ui/huffman_coding/HuffmanMap.kt:122 | the map lookup: the position of a key, or the map's length exactly when the key is absent |
| Frequency.Tally | app/src/main/java/com/delitx/huffmancoding/ui/huffman_coding/HuffmanMap.kt:122-125 | one loop pass adds the symbol as a new last key when it is new, raises only its count by one, and leaves every other pair alone |
| Frequency.TallyCounts | app/src/main/java/com/delitx/huffmancoding/ui/huffman_coding/HuffmanMap.kt:121-126 | after each symbol of the text the pairs are still distinct, in first-occurrence order, and hold exact occurrence counts of the text read so far |
| Frequency.CharOccurRate | app/src/main/java/com/delitx/huffmancoding/ui/huffman_coding/HuffmanMap.kt:119-128 | one pair per distinct symbol of the text, in order of first occurrence, each count the symbol's number of occurrences (so at least 1); an empty text gives no pairs |
| Builder.RemoveAtWeight | app/src/main/java/com/delitx/huffmancoding/ui/huffman_coding/HuffmanMap.kt:16-17 | removing an entry from the queue removes exactly its weight from the total |
| Builder.RemoveAtLeaves | app/src/main/java/com/delitx/huffmancoding/ui/huffman_coding/HuffmanMap.kt:16-17 | removing an entry from the queue removes exactly its subtree's leaves from the queue's leaves |
| Builder.FirstMinimum | app/src/main/java/com/delitx/huffmancoding/ui/huffman_coding/HuffmanMap.kt:12-17 | `queue.remove()` returns an entry of least weight; among equal weights this model takes the first |
| Builder.MergePreserves | app/src/main/java/com/delitx/huffmancoding/ui/huffman_coding/HuffmanMap.kt:15-19 | for any two minimum entries, one iteration shrinks the queue by exactly one, keeps the sum of weights, and keeps the multiset of leaf symbols |
| Builder.MergeTakesLightest | app/src/main/java/com/delitx/huffmancoding/ui/huffman_coding/HuffmanMap.kt:12-18 | both merged entries weigh no more than any entry still in the queue |
| Builder.MinimumExists | app/src/main/java/com/delitx/huffmancoding/ui/huffman_coding/HuffmanMap.kt:16-17 | a non-empty queue always has an entry of least weight, so `remove()` has something to return |
| Builder.Seed | app/src/main/java/com/delitx/huffmancoding/ui/huffman_coding/HuffmanMap.kt:14 | the seeded queue has one leaf entry per input pair, the same total weight as the counts, and the input symbols as leaves |
| Builder.BuildTree | app/src/main/java/com/delitx/huffmancoding/ui/huffman_coding/HuffmanMap.kt:11-24 | an empty list throws IllegalArgumentException; otherwise the single entry left becomes the root, its weight is the sum of the counts, its leaves are a permutation of the input symbols, and it is a single leaf iff there was one pair |
| Builder.BuildTreeAnyTieBreak | app/src/main/java/com/delitx/huffmancoding/ui/huffman_coding/HuffmanMap.kt:11-24 | the guarantees of `BuildTree` hold when each iteration takes ANY two minimum entries, whatever order `PriorityQueue` gives equal weights |
| Builder.CodeTable | app/src/main/java/com/delitx/huffmancoding/ui/huffman_coding/HuffmanMap.kt:25-29 | the table is built (line 27 does not throw) iff every input symbol is at a leaf; its keys are then exactly the input symbols, each mapped to its `getCode` |
| Builder.NewHuffmanMap | app/src/main/java/com/delitx/huffmancoding/ui/huffman_coding/HuffmanMap.kt:5-30 | the constructor throws exactly on an empty list. Otherwise the table has one code per input symbol, as found in the tree, and the codes are prefix-free. The root is a `NodeParent` iff there are two or more pairs; then every code is non-empty, while a single pair gets the code "". The table keeps its keys in the order they were first put in (line 26 walks the input pairs; a repeated symbol keeps its first place), as a `LinkedHashMap` does |
| Builder.ToHuffmanMap | app/src/main/java/com/delitx/huffmancoding/ui/huffman_coding/HuffmanMap.kt:114-117 | throws exactly on an empty text; the table's keys are the text's symbols; the tree has a `NodeParent` root iff the text holds two distinct symbols, and then decoding (corrected loop) the encoding of the text gives it back; the table lists the symbols in order of first occurrence in the text |
| Builder.TextSymbolsAreLeaves | app/src/main/java/com/delitx/huffmancoding/ui/huffman_coding/HuffmanMap.kt:114-116 | every symbol of the text is at a leaf of the tree built from its counts |
| Builder.PairCountTellsDistinct | app/src/main/java/com/delitx/huffmancoding/ui/huffman_coding/HuffmanMap.kt:119-128 | the counts of a non-empty text hold two or more pairs iff the text holds two distinct symbols |
| Binary.BinaryString | app/src/main/java/com/delitx/huffmancoding/MainActivity.kt:215 | `Integer.toBinaryString` of a non-negative value is a non-empty '0'/'1' string that starts with '0' only for 0, which gives "0" |
| Binary.BinaryStringValue | app/src/main/java/com/delitx/huffmancoding/MainActivity.kt:215 | each chunk, read as base 2, equals the character's code, and its length is the code's bit length |
| Binary.BinaryValueString | app/src/main/java/com/delitx/huffmancoding/MainActivity.kt:215 | conversely, every '0'/'1' string without a leading zero (or "0") is the chunk of its value |
| Binary.CharCodeBitLength | app/src/main/java/com/delitx/huffmancoding/MainActivity.kt:215 | a 16-bit character code takes between 1 and 16 digits |
| Binary.ToBinary | app/src/main/java/com/delitx/huffmancoding/MainActivity.kt:212-218 | the output contains only '0' and '1' |
| Binary.ToBinaryAppend | app/src/main/java/com/delitx/huffmancoding/MainActivity.kt:214-216 | `toBinary(s + t) == toBinary(s) + toBinary(t)` |
| Binary.ToBinaryLength | app/src/main/java/com/delitx/huffmancoding/MainActivity.kt:212-217 | the length is the sum of the characters' bit lengths, so between `|s|` and `16 * |s|` |
| Binary.ToBinaryIsNotInjective | app/src/main/java/com/delitx/huffmancoding/MainActivity.kt:214-216 | the chunks carry no separator: the codes 1, 0 and the code 2 both give "10" |

## Left out

- Optimality of the code (minimum weighted code length) is not stated or proved; only the
  structural invariants of the greedy merge are.
- Kotlin `Int` overflow in weight sums and in counts is not modelled: weights and counts
  are unbounded integers.
- The heap inside `java.util.PriorityQueue` is abstracted as "remove an entry of least
  weight"; the model's tie-break (lowest index) is one valid choice among many.
- The weight of each inner queue entry is not tied to its own leaves' counts; only the
  total weight and the root's weight are tracked.
- Determinism of construction is not stated as a lemma. The model's loop is deterministic
  because its tie-break rule is fixed.
- Decoding.SymbolsByCode: requires a `NodeParent` root. On a single-leaf root a step
  consumes no bit, so even the corrected loop never ends on a non-empty code.
- Everything else in MainActivity.kt is left out: permissions and activity-result
  launchers, file reading and writing, the Compose screen and its chart. These are I/O
  and UI with no engine logic.
- BarDrawer.kt, a drawing interface over the Compose canvas with no logic, is not part
  of this model.

## Findings

| source | as written | input that shows it | evidently intended | confidence | as-written member | corrected member |
|---|---|---|---|---|---|---|
| app/src/main/java/com/delitx/huffmancoding/ui/huffman_coding/HuffmanMap.kt:46 | each pass of `getSymbolsByCode` decodes the original `code`, so `currentCode` is reset to the same bits every time | tree with leaves 'a', 'b' (codes "0", "1") and code "00": every pass yields 'a' and leaves "0", forever | decode `currentCode` on each pass | high; not executed | Decoding.SymbolsByCodeAsWrittenNeverEnds | Decoding.SymbolsByCode |
