# Matrix encoder: symmetry detection, reduction and Huffman coding

A Dafny model of the algorithmic core of a small React page that takes a
binary matrix typed as text (rows of `0`/`1` separated by `\n`). On every
change of the input, the page does the following:

- it detects three symmetries of the rows;
- it reduces the matrix according to the strongest one;
- it Huffman-compresses the reduced text behind a one-character symmetry
  flag;
- it decompresses the result with the same code table;
- it expands the decoded text again according to the flag.

The model covers every step of that pipeline. It also proves what each step
promises and what the pipeline as written actually delivers.

Modules, in dependency order:

- `Wrappers`: `Option`.
- `Text`: JavaScript's `split('\n')`, `join('\n')`, `join('')` and
  `reverse()` on strings over the sanitised alphabet `{'0', '1', '\n'}`,
  with `split` proved to invert `join`.
- `Symmetry`: `detectSymmetry` and the flag choice. The vertical and
  horizontal tests are proved to mean row palindromes and a palindromic row
  sequence. The diagonal test is proved to equal the vertical test, so flag
  `'3'` never occurs.
- `Reduction`: the reduction branch of `handleInputChange`, written as a
  function `Reduce`, and `applySymmetry`, written as `ApplySymmetry`. It
  proves which round trips are exact, and what is lost when they are not:
  - the middle character of odd-length rows is duplicated;
  - the middle row of an odd row count is dropped;
  - a single non-palindromic row is reduced to nothing;
  - the no-symmetry path flattens the matrix.
- `ObjectOrder`: the order in which `Object.entries` lists the keys of the
  frequency and code objects.
- `HuffmanTree`: `Node` and `buildHuffmanTree`. The merge loop is a method
  proved against the function `Combine`. The tree is proved to have:
  - one leaf per symbol, carrying that symbol's count;
  - k - 1 internal nodes for k symbols;
  - internal weights that are sums of their children's weights.
- `HuffmanCodes`: `buildHuffmanCodes`. The walk is a recursive method that
  passes the table into each call and continues with the table it returns,
  proved against the function `CodeTable`. The source instead writes into
  one `codes` object shared by all calls; since that object is only read
  through the value returned at the end, both give the same table. The
  table is proved to have exactly one code per leaf symbol and to be
  prefix-free.
- `HuffmanCoder`: `huffmanCompress` and `huffmanDecompress`, each as a
  method with its loop. It proves:
  - the frequency counts;
  - that the inverted table is an exact inverse;
  - the round trip for inputs with two or more distinct characters;
  - the loss of data when there is only one distinct character;
  - that unfinished trailing bits are dropped.
- `Pipeline`: `handleInputChange` after sanitising, and what the page
  finally shows for each kind of matrix.

Quirks of the code that the model keeps as written:

- The vertical and horizontal reductions join their rows with `\n`
  (`src/App.jsx:141`, `src/App.jsx:143`); the diagonal and no-symmetry
  reductions concatenate the rows without a separator (`src/App.jsx:131`,
  `src/App.jsx:145`).
- The diagonal test repeats the vertical one (`src/App.jsx:10`,
  `src/App.jsx:12`), so the diagonal branches are never taken.
- An input with a single distinct character gets the empty code
  (`src/App.jsx:43`, `src/App.jsx:49`): it is encoded as the flag alone and
  decodes to the empty text.
- Bits left in the decoding buffer at the end are dropped without any
  error (`src/App.jsx:85-93`).

## Model

| member | source | states |
|---|---|---|
| `Text.Split` | src/App.jsx:6 | `split('\n')` gives at least one row, none containing a separator, and joining the rows with `\n` gives the text back |
| `Text.SplitJoin` | src/App.jsx:97 | splitting one or more rows joined with `\n` gives the same rows back, when no row contains a separator (zero rows join to "", which splits to one empty row) |
| `Text.FlattenSplit` | src/App.jsx:131 | `split('\n').join('')` is the text with its separators deleted and nothing else changed |
| `Text.ReverseAt` | src/App.jsx:10 | position k of `split('').reverse().join('')` holds the k-th character from the end |
| `Symmetry.DetectSymmetry` | src/App.jsx:5-15 | `detectSymmetry`: the three tests over the rows of the text; the diagonal answer always equals the vertical one, and a one-row text is always horizontal |
| `Reduction.Reduce` | src/App.jsx:131-146 | the text handed to the compressor: left halves of the rows (rounding up) joined with `\n` when vertical, else the top ⌊n/2⌋ rows joined with `\n` when horizontal, else the rows concatenated; in the last case it is the text with its separators deleted |
| `Reduction.ApplySymmetry` | src/App.jsx:96-117 | `applySymmetry`: flag '1' appends each row's reversal to it, '2' appends the rows in reverse order after a `\n`, '3' reverses each row, anything else returns the text unchanged; its properties are the expansion lemmas below |
| `HuffmanCoder.Frequencies` | src/App.jsx:58-62 | the frequency table after counting the characters one by one, each step adding one to the character's count (zero when absent); its properties are in `HuffmanCoder.FrequenciesCount` |
| `HuffmanTree.SortByWeight` | src/App.jsx:31 | `nodes.sort` by weight: same length and same nodes as its input; its order is given by `HuffmanTree.SortSorted` and `HuffmanTree.SortStable` |
| `HuffmanTree.LeafNodes` | src/App.jsx:28 | one leaf per table entry, in `Object.entries` order, as many as the table has entries |
| `HuffmanCodes.CodeTable` | src/App.jsx:46-55 | the entries the walk writes below a node reached by a path: a leaf writes its path, an internal node writes its left subtree's entries with '0' appended to the path, then its right subtree's with '1' |
| `HuffmanCodes.CodesOf` | src/App.jsx:46-55 | the table `buildHuffmanCodes` returns: empty without a root, otherwise the walk's entries from the empty path |
| `HuffmanCoder.Encode` | src/App.jsx:67 | the codes of the text's characters, concatenated in order, a character without a code contributing nothing; its properties are in `HuffmanCoder.EncodeAppend` and `HuffmanCoder.DecodeEncode` |
| `HuffmanCoder.Invert` | src/App.jsx:78 | `reversedCodes`, built in entry order: every code of the table is a key, and every key is the code of the symbol it maps to; `HuffmanCoder.InvertInverts` proves it the exact inverse of an injective table |
| `HuffmanCoder.DecodeBits` | src/App.jsx:85-91 | the decoding loop: each bit grows the buffer, a buffer that is a code emits its symbol and is cleared, what is left at the end is dropped; its properties are the decoding lemmas below |
| `HuffmanCoder.DecodeBitsLength` | src/App.jsx:85-91 | the loop emits at most one symbol per bit it reads |
| `HuffmanCoder.Payload` | src/App.jsx:83 | `encoded.slice(1)`: the first character followed by the payload gives the text back; the empty text has an empty payload |
| `HuffmanCoder.FlagOf` | src/App.jsx:82 | `encoded[0]`: present exactly when the text is non-empty, and then the flag followed by the payload is the text |
| `Pipeline.Compressed` | src/App.jsx:148 | the compressed text of the handler: non-empty, its flag the one chosen from the detected symmetries |
| `Pipeline.CompressedFormat` | src/App.jsx:67-72 | the compressed text is a flag '0', '1' or '2' (never '3') followed by a string of '0' and '1' |
| `Pipeline.Displayed` | src/App.jsx:153-156 | the matrix the handler shows: the decompressed payload expanded with the flag read back; its properties are the `Pipeline` lemmas below |
| `ObjectOrder.KeysInEntryOrder` | src/App.jsx:28 | the keys come out in `Object.entries` order: "0" before "1" before `\n`, whichever are present |
| `Symmetry.SymmetryFlag` | src/App.jsx:70 | the flag is one of '0'..'3'; it is '1' iff vertical, '2' iff horizontal and not vertical, '3' iff diagonal and neither of the others |
| `Symmetry.VerticalMeansMirroredRows` | src/App.jsx:10 | the vertical test holds iff every row reads the same from both ends |
| `Symmetry.HorizontalMeansMirroredRowSequence` | src/App.jsx:11 | the horizontal test (row i equals row n-1-i over the first half of the rows) holds iff the sequence of rows equals its reversal |
| `Symmetry.DiagonalFlagUnreachable` | src/App.jsx:12 | the diagonal test always equals the vertical test, so the chosen flag is never '3' |
| `Symmetry.SingleRowIsHorizontal` | src/App.jsx:11 | a text without separators is one row and passes the horizontal test vacuously; the empty text passes all three tests |
| `Reduction.MirrorExpansionRows` | src/App.jsx:103-105 | flag '1' keeps the row count and turns each row r into r + reverse(r), a palindrome twice as long as r |
| `Reduction.VerticalExpandReduce` | src/App.jsx:139-141 | for a vertically symmetric matrix, reduce then expand with '1' gives each row r back as its first ⌈len/2⌉ characters followed by its characters from position ⌊len/2⌋ on, so an odd-length row repeats its middle character |
| `Reduction.VerticalRoundTrip` | src/App.jsx:139-141 | for a vertically symmetric matrix whose rows all have even length, reduce then expand with '1' restores the matrix exactly |
| `Reduction.HorizontalExpandReduce` | src/App.jsx:142-143 | for a horizontally but not vertically symmetric matrix of two or more rows, reduce then expand with '2' gives the top ⌊n/2⌋ rows followed by those rows reversed, so with an odd row count the middle row is lost |
| `Reduction.HorizontalRoundTrip` | src/App.jsx:142-143 | for a matrix that is horizontally but not vertically symmetric and has an even number of rows, reduce then expand with '2' restores it exactly |
| `Reduction.StackExpandRows` | src/App.jsx:106-108 | expanding one or more separator-free rows, joined, with flag '2' gives the rows followed by the same rows in reverse order |
| `Reduction.SingleRowHorizontalLoss` | src/App.jsx:142-143 | a single non-palindromic row is detected as horizontal, reduces to the empty text and expands to a lone `\n` |
| `Reduction.NoSymmetryFlattens` | src/App.jsx:131 | with no symmetry, reduce then expand with '0' gives the matrix with its separators removed |
| `Reduction.OtherFlagsKeepText` | src/App.jsx:112-113 | any flag other than '1', '2', '3' (or no flag) leaves the text unchanged |
| `Reduction.ReverseRowsFixesExactlyVertical` | src/App.jsx:109-111 | flag '3' leaves a matrix unchanged iff it is vertically symmetric, and applying it twice restores any matrix |
| `Reduction.ReduceSanitized` | src/App.jsx:137-146 | every reduction of a text over `{'0','1','\n'}` stays over that alphabet |
| `ObjectOrder.KeysInOrder` | src/App.jsx:28 | the keys in entry order list every key of the object exactly once and nothing else |
| `HuffmanTree.SortSorted` | src/App.jsx:31 | the sorted work list is ordered by ascending weight |
| `HuffmanTree.SortStable` | src/App.jsx:31 | the sort is stable: the nodes of each weight keep their relative order |
| `HuffmanTree.SortWork` | src/App.jsx:31 | sorting keeps the leaves of the work list and its total weight |
| `HuffmanTree.MergeStep` | src/App.jsx:30-41 | one pass of the loop shrinks the work list by exactly one node |
| `HuffmanTree.MergeStepLeaves` | src/App.jsx:33-40 | one pass keeps every leaf of the work list, with its weight |
| `HuffmanTree.MergeStepWeight` | src/App.jsx:36-40 | one pass keeps the total weight of the work list |
| `HuffmanTree.MergeStepWellWeighted` | src/App.jsx:36-38 | one pass keeps every node's weight equal to the sum of its children's weights |
| `HuffmanTree.Combine` | src/App.jsx:30-43 | the loop ends with no node exactly when it started with none |
| `HuffmanTree.CombineKeepsWork` | src/App.jsx:30-43 | the final node holds every leaf of the initial list, weighs their total, and is well-weighted if they were |
| `HuffmanTree.LeafCount` | src/App.jsx:36-38 | a tree with k leaves has k - 1 internal nodes, one per merge |
| `HuffmanTree.RootWeightIsLeafWeight` | src/App.jsx:36 | a well-weighted tree weighs what its leaves weigh together |
| `HuffmanTree.LeafNodesFacts` | src/App.jsx:28 | the initial work list has one distinct leaf per table entry, carrying that entry's count |
| `HuffmanTree.HuffmanTreeShape` | src/App.jsx:27-44 | a non-empty table gives a tree with one leaf per symbol carrying its count, no symbol twice, k - 1 internal nodes, sums at internal nodes, and a root weighing the total count |
| `HuffmanTree.MergeNodes` | src/App.jsx:30-43 | the sort/shift/shift/push loop ends with the node `Combine` describes |
| `HuffmanTree.BuildHuffmanTree` | src/App.jsx:27-44 | there is no root exactly when the table is empty; otherwise the root has the shape above |
| `HuffmanCodes.AssignCodes` | src/App.jsx:46-55 | the recursive walk, given a table, returns it updated with the code of every leaf below the node |
| `HuffmanCodes.CodeTableKeys` | src/App.jsx:47-50 | exactly the leaf symbols get a code, and internal nodes get none |
| `HuffmanCodes.CodeTableExtends` | src/App.jsx:51-52 | every code below a node extends the path to that node, strictly below an internal node |
| `HuffmanCodes.CodeTablePrefixFree` | src/App.jsx:46-55 | no code in the table is a prefix of another symbol's code |
| `HuffmanCodes.CodeTableBits` | src/App.jsx:49-53 | reached along a bit-string path, the walk writes only codes made of '0' and '1' |
| `HuffmanCodes.CodesOfBits` | src/App.jsx:46-55 | every code of the table built from a root is a string of '0' and '1' |
| `HuffmanCodes.BuildHuffmanCodes` | src/App.jsx:46-55 | an empty table without a root; otherwise one code per leaf symbol, prefix-free, all non-empty below an internal root, the empty code for a lone leaf |
| `HuffmanCoder.FrequenciesCount` | src/App.jsx:58-62 | exactly the characters of the input are counted, each with a positive count equal to its number of occurrences |
| `HuffmanCoder.CountFrequencies` | src/App.jsx:58-62 | the counting loop builds the table the frequency definition describes |
| `HuffmanCoder.CountsSum` | src/App.jsx:58-62 | the counts of a sanitised input add up to its length |
| `HuffmanCoder.LeafNodesWeight` | src/App.jsx:28 | the initial work list weighs the sum of the counts |
| `HuffmanCoder.EncodeAppend` | src/App.jsx:67 | the encoding of a text is the encodings of its parts, one after the other |
| `HuffmanCoder.EncodeBits` | src/App.jsx:67 | with codes made of '0' and '1', the encoding is made of '0' and '1' |
| `HuffmanCoder.CompressCodes` | src/App.jsx:64-65 | the code table built for a sanitised input has a code for exactly the input's characters |
| `HuffmanCoder.CompressBits` | src/App.jsx:64-67 | the compressor's codes and its encoding of the input are strings of '0' and '1' |
| `HuffmanCoder.CompressCodesFacts` | src/App.jsx:64-65 | that table is prefix-free; it has non-empty codes for two or more distinct characters, the empty code for a single one, and no code for the empty input; the root weighs the input's length |
| `HuffmanCoder.HuffmanCompress` | src/App.jsx:57-75 | the compressed text is the flag chosen from the symmetries followed by the code of every input character in order |
| `HuffmanCoder.PrefixFreeInjective` | src/App.jsx:78 | a prefix-free table gives distinct symbols distinct codes |
| `HuffmanCoder.InvertInverts` | src/App.jsx:78 | for an injective table, the inverted table maps every code to its symbol and has no other keys |
| `HuffmanCoder.HuffmanDecompress` | src/App.jsx:77-94 | the flag is the first character (none for the empty text), and the decoded text is the greedy buffer decoding of the rest |
| `HuffmanCoder.DecodeOneCode` | src/App.jsx:85-91 | feeding a code bit by bit emits its symbol only at the last bit, because no shorter part of it is a code |
| `HuffmanCoder.DecodeEncode` | src/App.jsx:85-91 | for a prefix-free table of non-empty codes that covers the text, decoded with its exact inverse, decoding the encoding of the text emits that text and leaves an empty buffer for what follows (a one-symbol table with the empty code does not qualify: see `HuffmanCoder.SingleSymbolLoss`) |
| `HuffmanCoder.PartialCodeDropped` | src/App.jsx:85-93 | an unfinished code left in the buffer emits nothing and is discarded |
| `HuffmanCoder.DecodeWithTable` | src/App.jsx:77-94 | with any prefix-free table of non-empty codes covering the text, decompression returns the flag and the text, even with unfinished trailing bits appended |
| `HuffmanCoder.CompressDecompress` | src/App.jsx:57-94 | for a sanitised input with two or more distinct characters, decompressing its compression gives back the input and the flag; trailing partial-code bits are dropped |
| `HuffmanCoder.EncodeAllEmpty` | src/App.jsx:67 | when every code is empty, the encoding is empty |
| `HuffmanCoder.SingleSymbolLoss` | src/App.jsx:57-91 | with at most one distinct character the compressed text is the flag alone and decompresses to the empty text |
| `Pipeline.Reduced` | src/App.jsx:137-146 | the text handed to the compressor stays over the sanitised alphabet |
| `Pipeline.HandleInputChange` | src/App.jsx:127-158 | the handler's results are the detected symmetries, the compressed text starting with its flag, a table with a code per character of the reduced text, the flag read back (never '3'), and the expanded matrix |
| `Pipeline.DisplayedExpandsReduced` | src/App.jsx:148-156 | with two or more distinct characters in the reduced text, the page shows the expansion of exactly the reduced text |
| `Pipeline.DisplayedLosesSingleSymbol` | src/App.jsx:148-156 | with at most one distinct character in the reduced text, the page shows the expansion of the empty text |
| `Pipeline.VerticalShownExactly` | src/App.jsx:139-156 | a vertically symmetric matrix with even-length rows and two or more symbols is shown unchanged |
| `Pipeline.HorizontalShownExactly` | src/App.jsx:142-156 | every horizontally (not vertically) symmetric matrix with an even row count is shown unchanged |
| `Pipeline.NoSymmetryShownFlattened` | src/App.jsx:131-156 | every matrix without symmetry is shown with its row separators removed |
| `Reduction.NoSymmetryReducedBoth` | src/App.jsx:131-146 | without vertical or horizontal symmetry, both '0' and '1' reach the compressor |
| `Reduction.HorizontalReducedBoth` | src/App.jsx:142-143 | for a horizontally, not vertically, symmetric matrix with an even row count, both '0' and '1' reach the compressor |
| `Text.NonPalindromeHoldsBoth` | src/App.jsx:10 | a sanitised row that fails the reversal test holds both '0' and '1' |

## Left out

- The React component: `useState` and its setters, `renderMatrix`,
  `characterCount` and the JSX (`src/App.jsx:119-223`). These are
  presentation only. The model returns the values the handler stores.
- The input filter `replace(/[^01\n]/g, '')` (`src/App.jsx:128`). It is
  stated as the precondition `Sanitized`: every character is `0`, `1` or
  `\n`.
- `.trim()` on rows (`src/App.jsx:6`, `97`, `131`, `140`). It is not
  modelled. It is the identity on rows over `{'0', '1'}`, which is every row
  the handler produces.
- `numCols` (`src/App.jsx:8`, `99`). It is computed and never used.
- `Array.prototype.sort` is modelled as the stable sort the language
  requires, as an insertion sort. `Object.entries` is modelled with the
  order it prescribes for keys `"0"`, `"1"` and `"\n"`. Only keys from that
  alphabet are modelled:
  - `ObjectOrder.KeysInOrder` requires them;
  - so do `HuffmanTree.BuildHuffmanTree` and
    `HuffmanCoder.HuffmanDecompress`.
  Every table the handler builds satisfies this.
- JavaScript truthiness and prototype lookups on `reversedCodes[buffer]`
  (`src/App.jsx:87`). They are modelled as map membership. The symbols
  stored are non-empty strings. The buffers are built from the payload,
  which `Pipeline.CompressedFormat` proves is a string of '0' and '1', so
  they never name a prototype property.
- Huffman optimality (minimal weighted code length). The code does not
  promise it, and it is not stated.
- The diagonal branches (`src/App.jsx:109-111`, `144-145`) are modelled as
  written. `Symmetry.DiagonalFlagUnreachable` proves the handler never
  reaches them.
