# Huffman file compression, modelled in Dafny

This project models the Huffman coding engine of `FileCompression.java`, a
single-file Java tool that compresses a text file into a serialized
`{code table, bit string}` pair and decompresses it again.

What is modelled, and how:

- **HuffmanNode** is a value: `HuffmanTree.Tree = Leaf(ch, freq) | Node(freq, left, right)`.
  The Java nodes are never updated after construction. A Java `null` node
  (the root built from an empty map, or a leaf's children) is `Option.None`.
  The `'\0'` symbol that internal nodes carry is never read, so it is not stored.
- **compareTo** is `HuffmanTree.CompareTo`, the 32-bit subtraction written out
  with two's-complement truncation.
- **HuffmanCoding** is the class `Coding.HuffmanCoding`, with the fields `codes`
  (`huffmanCodes`) and `root`. Its methods are loops and recursion over that
  state:
  - `BuildTree` seeds a queue (`Seed`) and merges two minima at a time (`MergeAll`).
  - `BuildCodeMap` is the recursive walk that `put`s codes into `codes`.
  - `Encode` and `Decode` are the two loops.
  Each method is proved against a function of module `CodeSpec`. The properties
  of the code are lemmas about those functions.
- **PriorityQueue** is a local `seq<Tree>`. A poll is `FindMin` followed by
  `RemoveAt`; `FindMin` returns a minimum-frequency tree. No proof uses that
  minimality: `MergeKeeps` holds for any two trees polled, so every proved
  property holds for any merge order (and so for any order ties come out in).
- **HashMap iteration order** is a nondeterministic choice (`:|`) in the
  loops that walk a map's keys (`Seed`, `ReverseMap`).
- **compressFile** and **decompressFile**, without their file I/O, are the
  methods `CompressFile` and `DecompressFile` of module `FileCompression`.
  The same module holds the frequency loop (`CountFrequencies`) and `reverseMap` (`ReverseMap`).

The model follows the code where a clean Huffman design would differ:

- A one-symbol alphabet gets the empty code `""`. Every text over that one
  symbol therefore encodes to nothing and decodes to nothing, so the repetition
  count is lost (`SingleSymbolCollapses`, `EncodeThenDecode`).
- An empty alphabet leaves `root` null and adds nothing to the table.
- `encode` does not check that a symbol has a code. `StringBuilder.append(null)`
  appends the four characters `null`, and `CodeSpec.Lookup` models exactly that.
  The round-trip lemmas assume every symbol of the text has a code.
- `decode` has no symbol count and no error value:
  - A bit string that is non-empty while the root is null or a leaf dereferences null. `CodeSpec.Decodable` rules that out as a precondition.
  - Trailing bits that never reach a leaf are silently dropped (`TrailingBitsDropped`).
- The file format holds no symbol count.
- decompressFile rebuilds its tree by feeding code *lengths* to `buildTree`
  as if they were frequencies. It does not rebuild the tree from the codes themselves.

## Model

| member | source | states |
|---|---|---|
| HuffmanTree.CompareTo | FileCompression.java:18-20 | For non-negative Java-int frequencies, `this.freq - node.freq` cannot wrap. Its sign is exactly the order of the two frequencies: negative, zero or positive as the first is smaller, equal or larger. |
| HuffmanTree.LeavesOutnumberInternals | FileCompression.java:32-35 | Every merge creates a node with two children, so a tree has exactly one more leaf than it has internal nodes. |
| HuffmanTree.RemoveAtSplits | FileCompression.java:33 | Polling a tree takes exactly its frequency and its leaf symbols out of the queue's totals. |
| HuffmanTree.MergeKeeps | FileCompression.java:32-35 | One merge round shortens the queue by one. It keeps the multiset of leaf symbols and the total weight, and every queued tree keeps parent frequency = left + right and the map's frequency at each leaf. |
| HuffmanTree.BuiltShape | FileCompression.java:29-36 | A tree built from n ≥ 1 symbols has n − 1 internal nodes. Its root is a leaf exactly when n = 1, and then the map is that one leaf's entry. |
| Coding.FindMin | FileCompression.java:33 | `poll` returns an element of the queue whose frequency is no larger than any other's. |
| Coding.Seed | FileCompression.java:28-31 | The seeded queue has one leaf per key, carrying that key's frequency. Its leaf symbols are exactly the keys, each once, and its total weight is the sum of the map's values. |
| Coding.MergeAll | FileCompression.java:32-36 | The polled root is null exactly when the queue was empty. Otherwise it has sums at every internal node, exactly the queue's leaves, and the queue's total weight, after exactly (queue length − 1) merges. |
| Coding.HuffmanCoding.constructor | FileCompression.java:23-25 | A new coder has an empty table and a null root. |
| Coding.HuffmanCoding.BuildTree | FileCompression.java:27-38 | An empty map gives a null root. Otherwise the root has parent = left + right everywhere and every key as exactly one leaf with its frequency, its weight is the sum of all values, and n − 1 merges were made. The table gains exactly the root's codes. |
| Coding.HuffmanCoding.BuildCodeMap | FileCompression.java:40-47 | The walk adds to the table exactly the codes of the leaves below `node`, each prefixed by `code`. A null node adds nothing, and the root is untouched. |
| Coding.HuffmanCoding.Encode | FileCompression.java:49-55 | The result is the concatenation, in text order, of each character's code, or of `null` for a character without one. |
| Coding.HuffmanCoding.Decode | FileCompression.java:57-68 | The result is what the cursor walk emits. The walk goes left on `'0'` and right on anything else, emits a leaf's symbol, and resets to the root after every emitted leaf. |
| CodeSpec.RecordStep | FileCompression.java:41-46 | One visit of buildCodeMap records a code at a leaf and walks both (possibly null) children. Together this adds exactly the subtree's codes. |
| CodeSpec.PathCodesKeys | FileCompression.java:40-47 | The table's keys are exactly the leaf symbols: codes are recorded only at leaves, one entry per symbol. |
| CodeSpec.PathCodesArePaths | FileCompression.java:40-47 | Every recorded code is the walk's starting bits followed by the root-to-leaf path to that symbol, with `0` for left and `1` for right. |
| CodeSpec.PathsPrefixFree | FileCompression.java:40-47 | If one root-to-leaf path is a prefix of another, the two are the same path to the same symbol. |
| CodeSpec.CodeTablePrefixFree | FileCompression.java:40-47 | The table of any tree is prefix-free: no symbol's code is a prefix of another symbol's code. |
| CodeSpec.CodeTableLengths | FileCompression.java:37-47 | A single-leaf root gets the table `{ch: ""}`. A root with children gives every symbol a code of at least one bit. |
| CodeSpec.EncodedConcat | FileCompression.java:49-55 | Encoding distributes over concatenation: encode(a + b) = encode(a) + encode(b). |
| CodeSpec.DecodePath | FileCompression.java:57-68 | Feeding a symbol's path to the cursor emits that symbol and leaves the cursor at the root, whatever bits follow. |
| CodeSpec.DecodeEncoded | FileCompression.java:49-68 | Decoding the root's own encoding of a text, followed by any bits, yields the text and then the decoding of those bits. |
| CodeSpec.RoundTrip | FileCompression.java:49-68 | For a root with at least two leaves, and a text whose every character has a code, decode(encode(text)) = text. |
| CodeSpec.PartialPathDropped | FileCompression.java:60-66 | Bits that stop part-way down a path emit nothing. |
| CodeSpec.TrailingBitsDropped | FileCompression.java:57-68 | An encoded text followed by a proper prefix of any code decodes to the text: the trailing bits are silently dropped. |
| CodeSpec.SingleSymbolCollapses | FileCompression.java:40-68 | With a single-leaf root, every text over its symbol encodes to the empty string and decodes to the empty string. |
| CodeSpec.DecodeFromSymbols | FileCompression.java:57-68 | Decoding emits at most one symbol per bit, and only symbols found at the tree's leaves. |
| FileCompression.IncrementTotal | FileCompression.java:80 | `put(ch, getOrDefault(ch, 0) + 1)` adds `ch` to the keys and exactly one to the sum of the counts. |
| FileCompression.CountStep | FileCompression.java:79-81 | One turn of the counting loop keeps the map an exact count of the prefix read so far. |
| FileCompression.CountFrequencies | FileCompression.java:78-81 | The keys are exactly the distinct characters of the text, each value is that character's number of occurrences, and the values sum to the text's length. |
| FileCompression.ReverseMap | FileCompression.java:102-107 | The result has the table's key set, and each value is the length of that symbol's code. |
| FileCompression.CompressedTable | FileCompression.java:78-86 | The table built from a text's own counts has a code for exactly the text's characters, one entry per character, and is prefix-free. With one character the root is a leaf; with two or more, the root is an internal node. |
| FileCompression.OneSymbolEncodesEmpty | FileCompression.java:82-84 | A text of one distinct character gets a single-leaf tree, and encodes to the empty string. |
| FileCompression.CompressFile | FileCompression.java:76-89 | The written table covers exactly the text's characters and is prefix-free. The written bits are the codes in text order. A lone character's encoding is empty, and the root weighs the text's length. |
| FileCompression.EncodeThenDecode | FileCompression.java:82-84 | On one HuffmanCoding, decoding the encoded text gives back the text when it has two or more distinct characters. It gives back the empty string when it has fewer. |
| FileCompression.DecompressFile | FileCompression.java:91-100 | The tree is the one `buildTree` makes from `reverseMap`'s code lengths used as frequencies (null for an empty table), and the output is exactly what decode's cursor walk emits on that tree. On a table of at least two symbols (or empty bits) this emits at most one character per bit, and only symbols of the table. |

## Left out

- File and stream I/O is not modelled: `Files.readAllBytes`, `Files.write`, the charset conversions of `new String` and `getBytes`, and the `ObjectOutputStream`/`ObjectInputStream` serialization (FileCompression.java:77, 85-88, 92-95, 99). `CompressFile` returns the table and the bits that would be written. `DecompressFile` takes them as parameters.
- The `main` command line (FileCompression.java:110-131) is user-interface code and is not modelled.
- `getHuffmanCodes` (FileCompression.java:70-72) only returns the field. The model reads `codes` directly.
- FileCompression.DecompressFile: no compress-then-decompress round trip is stated. decompressFile rebuilds the tree from code lengths used as frequencies, and that tree need not give any symbol the code it had when compressing, so the source does not invert compression.
- Which of several equal-frequency trees `PriorityQueue` polls first, and the iteration order of `HashMap`, are unspecified. The model takes the first minimum and an arbitrary key, and states only properties that hold for every such order. No determinism or exact-bit-pattern property is claimed.
- Huffman optimality of the code lengths is not modelled; the code does not claim it.
- Frequencies are unbounded naturals; `CompareTo` alone spells out the 32-bit arithmetic. In compressFile the sums `left.freq + right.freq` (FileCompression.java:34) never exceed the text length, which a Java `String` keeps below 2^31, so nothing wraps there.
- In decompressFile the frequencies are code lengths, and their sum can exceed the text length (for "abc" the lengths 1, 2, 2 weigh 5). For a table compressFile wrote, every symbol occurs at least once in the bits, so the sum is at most the length of the encoded string and still below 2^31. For a file compressFile did not write, the code lengths are unbounded, and the Java sums (FileCompression.java:34) and `this.freq - node.freq` (FileCompression.java:19) can wrap; the model does not capture that wrap-around and the queue order it would corrupt.
- Java's `char` is a UTF-16 code unit, while a Dafny `char` is a Unicode scalar value and cannot be a lone surrogate half. A text with a character outside the Basic Multilingual Plane is two surrogate halves in Java, which compressFile counts and codes as two separate symbols; such texts have no counterpart in the model. No proof depends on the symbol type.
- Coding.HuffmanCoding.Decode: the `NullPointerException` that a non-empty bit string raises under a null or single-leaf root is a precondition (`Decodable`), not an error value.
