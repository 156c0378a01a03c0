# Huffman coder over single characters — a Dafny model

This project models the core of a small Huffman compressor (`program.py`):
counting character frequencies, an array-backed binary min-heap of tree
nodes, the greedy tree construction, code generation by a root-to-leaf walk,
encoding, packing the bit string into bytes and back, and the greedy
buffer-based decoder. It proves that the heap operations keep the heap
order and the contents, that the tree built from a text has the text's
distinct characters as leaves with their counts, that the codes are the
leaf paths and are prefix-free, that packing and unpacking round-trip, and
that decompressing what is saved gives the text back whenever the text has
at least two distinct characters.

Files, one module each: `results.dfy` (option, result, the failures),
`bits.dfy` (bits, bytes, prefixes), `frequency.dfy` (frequency counting),
`tree.dfy` (the tree and forests of trees), `heap.dfy` (the priority queue),
`builder.dfy` (tree construction), `codes.dfy` (code generation),
`encoding.dfy`, `packing.dfy`, `decoding.dfy`, `pipeline.dfy` (the whole
encode/save/load/decode chain).

Modelling choices:

- A Python dictionary keeps insertion order, and the order in which leaves
  are pushed decides how ties between equal counts fall. The frequency
  table is therefore a `Dict` of a key sequence in insertion order plus a
  map of counts, and `CalculateFrequencies` states that the keys come in
  order of first occurrence.
- The priority queue is the list it wraps, as a Dafny sequence: `Push`,
  `Heapify` and `Pop` take the contents and return the new contents, and
  the queue's length (`__len__`) is the sequence length. Nodes compare by
  count with a strict `<` (`Less`), with no further tie-breaking.
- Bit strings of `'0'`/`'1'` characters are sequences of the digits 0 and 1.
- The three ways the program can fail on its own inputs are values of
  `Error`: popping an empty queue (an empty text), reading an empty bit
  string as a base-2 integer (a text with one distinct character, whose
  only code is empty), and encoding a character the table lacks.
- The reversed table keeps, for a code shared by two characters, only one
  of them; Python keeps the later one in insertion order. The model's table
  is an unordered map, so `Reverse` keeps some character with that code and
  `ReverseLossless` states that nothing is lost exactly when no code is
  shared.

Behaviour of the program that the model keeps, which a reader might not
expect:

- Packing is right-aligned: the bits are read as one integer, so any
  padding zeros are the high bits of the first byte, not the low bits of
  the last (`PackRightAligned`).
- Unpacking pads with leading zeros to the recorded length but never
  truncates a longer bit string.
- Bits left in the decoder's buffer at the end are dropped silently; there
  is no malformed-data error (`DecodeLoop` returns them as its second
  component, and `Decode` discards it).
- A code table with a shared code is not rejected; reversing it is lossy.
- An empty text does not produce an empty payload: the final pop of the
  empty queue fails.

## Model

| member | source | states |
|---|---|---|
| Frequency.CalculateFrequencies | program.py:53-60 | the keys are exactly the distinct characters of the text, each once, in order of first occurrence, each mapped to its number of occurrences; the counts sum to the text's length |
| PriorityQueue.Push | program.py:31-39 | the result is one longer, holds the old contents plus the node, and is again a min-heap by count |
| PriorityQueue.Heapify | program.py:17-29 | when the heap order fails only between `index` and its children, swapping with the strictly smaller child until none is smaller yields a min-heap with the same contents |
| PriorityQueue.Pop | program.py:41-48 | on a non-empty heap returns the root, whose count is minimal, and leaves a heap one shorter holding the rest; on an empty queue returns nothing |
| PriorityQueue.RootIsMin | program.py:41-48 | the root of a min-heap has a count no larger than any element |
| TreeBuilder.LeafQueue | program.py:64-67 | after pushing one leaf per frequency entry the queue is a heap of as many leaves, holding exactly those entries, with total weight their sum |
| TreeBuilder.Join | program.py:72-74 | the new internal node's leaves are those of the two popped trees, and it is well formed when they are |
| TreeBuilder.MergeAll | program.py:69-75 | the loop ends with one tree, or none for an empty queue, and never changes the forest's leaves or total weight |
| TreeBuilder.BuildHuffmanTree | program.py:62-77 | fails exactly on the empty text; otherwise the tree is well formed, its leaves are exactly the text's distinct characters, each once with its count, and the root's count is the text's length |
| HuffmanTree.NodeHasTwoChars | program.py:72-77 | a tree with distinct leaf characters has an internal root exactly when it has at least two distinct characters |
| HuffmanTree.ForestPermutation | program.py:31-48 | reordering the queue's contents changes neither the leaves it holds nor its total weight |
| CodeTable.BuildCodes | program.py:79-91 | the table gains exactly the tree's leaf characters and keeps every other entry unchanged |
| CodeTable.Codes | program.py:79-81 | the table built from the root with the empty prefix and no table, as `compress` calls it, has exactly the tree's leaf characters as keys; `CodesArePaths` and `CodesPrefixFree` give the codes their meaning |
| CodeTable.CodesArePaths | program.py:79-91 | the table's keys are the leaf characters, and a path leads from the root to the leaf of `c` if and only if it is the code of `c` |
| CodeTable.CodesPrefixFree | program.py:79-91 | no code is a prefix of, or equal to, another character's code |
| CodeTable.CodesNonEmpty | program.py:83-89 | all codes are non-empty exactly when the root is internal; a single-leaf tree maps its character to the empty code |
| Encoding.Encode | program.py:93-94 | succeeds exactly when every character of the text has a code, otherwise reports the first character without one; with non-empty codes the output is at least as long as the text |
| Encoding.EncodeConcat | program.py:93-94 | encoding maps a character to its code and a concatenation of texts to the concatenation of their encodings |
| Encoding.EncodeEmptyCodes | program.py:83-84 | when every code is empty the encoding is empty |
| Packing.ToBytes | program.py:99 | writing a value that fits into n big-endian bytes gives n bytes whose value is the original |
| Packing.Binary | program.py:117 | the base-2 digits without leading zeros have the given value |
| Packing.BinaryLength | program.py:117 | a value below 2^L needs at most L binary digits |
| Packing.ZFill | program.py:117 | padding to a width keeps the numeral's value and reaches the width |
| Packing.Pack | program.py:99 | the empty bit string is refused; otherwise the result has ceil(L/8) bytes whose big-endian value is the bits' value |
| Packing.Unpack | program.py:117 | the bit string read back has the bytes' value and is at least the recorded length; it is longer only when it starts with a 1 (or is the single digit 0), so zeros are added only up to the recorded length |
| Packing.PackRoundTrip | program.py:99-117 | unpacking the packed form of a non-empty bit string with its length gives the bit string back |
| Packing.PackRightAligned | program.py:99 | one bit 1 packs to the byte 1, and nine bits 101100001 pack to the bytes 1 and 97 |
| Decoding.Reverse | program.py:119 | the reversed table's keys are exactly the codes, each mapped to a character that has it |
| Decoding.ReverseLossless | program.py:119 | every character is recovered from its code exactly when no two characters share a code |
| Decoding.DecodeLoop | program.py:120-127 | each decoded character consumes at least one bit, the leftover buffer is a suffix of the input, and a non-empty leftover is not a code |
| Decoding.DecodeLoopWords | program.py:120-127 | the bits the loop consumes split into consecutive code words followed by the leftover; the decoded text is the characters of those words in order; each word is the shortest code starting at its position, and no code starts the leftover (the buffer is flushed at the first match, and the bits dropped at the end never completed a code) |
| Decoding.DecodedUnique | program.py:120-127 | at most one split of an input into shortest code words and a leftover with no code at its start exists, so the description above fixes the decoded text and the leftover |
| Decoding.DecodeLoopDetermined | program.py:120-127 | any decoded text and leftover that fit that description are exactly what the loop returns |
| Decoding.Decode | program.py:119-127 | the decoder as run on a file: the reversed table, an empty buffer, the leftover dropped; it writes at most one character per bit and only characters of the table |
| Decoding.DecodeEncode | program.py:119-127 | for a prefix-free table of non-empty codes covering the text, decoding the encoding gives the text back with an empty leftover |
| Pipeline.Compress | program.py:143-148 | an empty text fails at the last pop, a one-character alphabet fails at packing, and otherwise the saved bytes have ceil(length/8) bytes, the table is prefix-free over the text's characters, and decompressing gives the text back |
| Pipeline.Decompress | program.py:117-127 | unpacking to the saved length and decoding with the saved table yields only characters of the table, at most one per unpacked bit; `Compress` states that it inverts compression |

## Left out

- Reading the input file, the interactive prompt, the fixed file names and the console error messages of `main` (program.py:134-152): input and output glue.
- Opening, reading and writing the encoded file and the table file (program.py:97-98, 100, 102-103, 108-113, 129-130): the model passes the saved bytes, table and length as a value (`Saved`).
- Serialising the table with `str` and loading it with `eval` (program.py:103, 113): the table stays an in-memory map.
- Catching and printing exceptions (program.py:104-105, 131-132, 149-152): reporting only; the failures themselves are modelled as `Error` values.
- UTF-8 decoding of the input: characters are abstract symbols.
- Decoding.Reverse: for a code shared by several characters the model keeps an unspecified one of them, whereas Python keeps the last in insertion order, because the model's table is an unordered map.
- TreeBuilder.BuildHuffmanTree: does not state that the code lengths are optimal (minimal total encoded length); that is an exchange-argument proof over all prefix codes, beyond the behaviour of the program, which never relies on it.
