/** The static part of FileCompression.java with its file I/O taken out:
    the frequency count of compressFile, reverseMap, and what compressFile
    and decompressFile do between reading and writing. */
module FileCompression {
  import opened HuffmanTree
  import opened CodeSpec
  import opened Coding

  /** The distinct characters of a text. */
  function Alphabet(text: string): set<char> {
    set c | c in text
  }

  /** `freqMap.put(ch, freqMap.getOrDefault(ch, 0) + 1)` */
  function Increment(freqMap: map<char, nat>, ch: char): map<char, nat> {
    freqMap[ch := (if ch in freqMap then freqMap[ch] else 0) + 1]
  }

  /** `freqMap` counts the characters of `prefix`: its keys are the
      distinct characters, each value the number of occurrences, and the
      values add up to the length. */
  ghost predicate Counts(freqMap: map<char, nat>, prefix: string) {
    && freqMap.Keys == Alphabet(prefix)
    && (forall c :: c in freqMap ==> freqMap[c] == multiset(prefix)[c])
    && Total(freqMap, freqMap.Keys) == |prefix|
  }

  /** Counting one more occurrence of `ch` adds one to the sum of the
      counts. */
  lemma {:induction false} IncrementTotal(freqMap: map<char, nat>, ch: char)
    ensures Increment(freqMap, ch).Keys == freqMap.Keys + {ch}
    ensures Total(Increment(freqMap, ch), freqMap.Keys + {ch}) == Total(freqMap, freqMap.Keys) + 1
  {
    var next := Increment(freqMap, ch);
    var keys := freqMap.Keys;
    TotalRemove(next, keys + {ch}, ch);
    assert (keys + {ch}) - {ch} == keys - {ch};
    TotalAgree(next, freqMap, keys - {ch});
    if ch in freqMap {
      TotalRemove(freqMap, keys, ch);
    } else {
      assert keys - {ch} == keys;
    }
  }

  /** One turn of the counting loop keeps the count exact. */
  lemma CountStep(freqMap: map<char, nat>, prefix: string, ch: char)
    requires Counts(freqMap, prefix)
    ensures Counts(Increment(freqMap, ch), prefix + [ch])
  {
    IncrementTotal(freqMap, ch);
    assert multiset(prefix + [ch]) == multiset(prefix) + multiset{ch};
    assert Alphabet(prefix + [ch]) == Alphabet(prefix) + {ch};
  }

  /** The loop of compressFile that counts each character of the text:
      the keys are the text's distinct characters, each value is that
      character's number of occurrences, and the values add up to the
      length of the text. */
  method CountFrequencies(text: string) returns (freqMap: map<char, nat>)
    ensures freqMap.Keys == Alphabet(text)
    ensures forall c :: c in freqMap ==> freqMap[c] == multiset(text)[c]
    ensures Total(freqMap, freqMap.Keys) == |text|
  {
    freqMap := map[];
    for i := 0 to |text|
      invariant Counts(freqMap, text[..i])
    {
      var ch := text[i];
      CountStep(freqMap, text[..i], ch);
      assert text[..i + 1] == text[..i] + [ch];
      freqMap := freqMap[ch := (if ch in freqMap then freqMap[ch] else 0) + 1];
    }
    assert text[..|text|] == text;
  }

  /** reverseMap: each symbol of the table mapped to the length of its
      code, visited in the map's own (unspecified) order. */
  method ReverseMap(huffmanCodes: map<char, string>) returns (freqMap: map<char, nat>)
    ensures freqMap.Keys == huffmanCodes.Keys
    ensures forall c :: c in freqMap ==> freqMap[c] == |huffmanCodes[c]|
  {
    freqMap := map[];
    var keys := huffmanCodes.Keys;
    while keys != {}
      invariant keys <= huffmanCodes.Keys
      invariant freqMap.Keys == huffmanCodes.Keys - keys
      invariant forall c :: c in freqMap ==> freqMap[c] == |huffmanCodes[c]|
      decreases keys
    {
      var ch :| ch in keys;
      freqMap := freqMap[ch := |huffmanCodes[ch]|];
      keys := keys - {ch};
    }
  }

  /** The core of compressFile: count, build the tree and its table on a
      fresh HuffmanCoding, and encode the text; the table and the encoded
      text are what the file receives. The table has a code for exactly
      the text's characters, it is prefix-free, a lone character's code is
      empty, and the root weighs the length of the text. */
  method CompressFile(text: string) returns (codes: map<char, string>, encoded: string, ghost root: Option<Tree>)
    ensures codes == CodeTable(root)
    ensures codes.Keys == Alphabet(text)
    ensures PrefixFree(codes)
    ensures encoded == Encoded(codes, text)
    ensures |codes| == 1 ==> encoded == []
    ensures root.Some? ==> root.value.freq == |text|
  {
    var freqMap := CountFrequencies(text);
    var huffman := new HuffmanCoding();
    ghost var merges := huffman.BuildTree(freqMap);
    assert huffman.codes == CodeTable(huffman.root);
    root := huffman.root;
    encoded := huffman.Encode(text);
    codes := huffman.codes;
    CompressedTable(text, freqMap, root);
    if |codes| == 1 {
      OneSymbolEncodesEmpty(text, freqMap, root.value);
    }
  }

  /** The table of the tree built from the text's own counts. */
  lemma CompressedTable(text: string, freqMap: map<char, nat>, root: Option<Tree>)
    requires freqMap.Keys == Alphabet(text)
    requires |freqMap| == 0 ==> root == None
    requires |freqMap| > 0 ==> root.Some? && BuiltFrom(root.value, freqMap)
    ensures CodeTable(root).Keys == Alphabet(text)
    ensures PrefixFree(CodeTable(root))
    ensures |CodeTable(root)| == |freqMap|
    ensures |freqMap| == 1 ==> root.Some? && root.value.Leaf?
    ensures |freqMap| >= 2 ==> root.Some? && root.value.Node?
  {
    if root.Some? {
      var t := root.value;
      PathCodesKeys(t, "");
      assert forall c :: c in Symbols(t) <==> c in freqMap.Keys;
      CodeTablePrefixFree(t);
      BuiltShape(t, freqMap);
    } else {
      assert freqMap.Keys == {};
    }
    assert CodeTable(root).Keys == freqMap.Keys;
  }

  /** A text of one distinct character gets a single-leaf tree, whose
      empty code encodes the text to nothing. */
  lemma OneSymbolEncodesEmpty(text: string, freqMap: map<char, nat>, t: Tree)
    requires freqMap.Keys == Alphabet(text) && |freqMap| == 1 && BuiltFrom(t, freqMap)
    ensures t.Leaf?
    ensures Encoded(CodeTable(Some(t)), text) == []
    ensures Decoded(Some(t), Encoded(CodeTable(Some(t)), text)) == []
  {
    BuiltShape(t, freqMap);
    forall x | x in text ensures x == t.ch {
      assert x in Alphabet(text);
    }
    SingleSymbolCollapses(t.ch, t.freq, text);
  }

  /** Encoding a text and decoding the result on the same HuffmanCoding,
      as compressFile's object could: with two or more distinct characters
      the text comes back; with one, the code is empty and nothing comes
      back, so the number of repetitions is lost. */
  method EncodeThenDecode(text: string) returns (decoded: string)
    ensures |Alphabet(text)| >= 2 ==> decoded == text
    ensures |Alphabet(text)| < 2 ==> decoded == []
  {
    var freqMap := CountFrequencies(text);
    var huffman := new HuffmanCoding();
    ghost var merges := huffman.BuildTree(freqMap);
    assert huffman.codes == CodeTable(huffman.root);
    var encoded := huffman.Encode(text);
    CompressedTable(text, freqMap, huffman.root);
    if |freqMap| >= 2 {
      RoundTrip(huffman.root.value, text);
    } else if |freqMap| == 1 {
      OneSymbolEncodesEmpty(text, freqMap, huffman.root.value);
    }
    decoded := huffman.Decode(encoded);
  }

  /** The code length of every symbol of a table: what reverseMap
      returns, used by decompressFile as if it were a frequency map. */
  function CodeLengths(huffmanCodes: map<char, string>): map<char, nat> {
    map c | c in huffmanCodes :: |huffmanCodes[c]|
  }

  /** The core of decompressFile: a fresh HuffmanCoding builds its tree
      (`root`) from the code lengths that reverseMap gives, as if they were
      frequencies, then decodes the bits with that tree. With bits to
      decode, the table needs two or more symbols, or decode reaches a null
      child. Everything decoded is a symbol of the table, one at most per
      bit. */
  method DecompressFile(huffmanCodes: map<char, string>, encodedText: string)
    returns (decodedText: string, ghost root: Option<Tree>)
    requires encodedText != [] ==> |huffmanCodes| >= 2
    ensures |huffmanCodes| == 0 ==> root == None
    ensures |huffmanCodes| > 0 ==> root.Some? && BuiltFrom(root.value, CodeLengths(huffmanCodes))
    ensures Decodable(root, encodedText) && decodedText == Decoded(root, encodedText)
    ensures |decodedText| <= |encodedText|
    ensures forall c :: c in decodedText ==> c in huffmanCodes
  {
    var huffman := new HuffmanCoding();
    var lengths := ReverseMap(huffmanCodes);
    assert lengths == CodeLengths(huffmanCodes);
    ghost var merges := huffman.BuildTree(lengths);
    root := huffman.root;
    assert |lengths.Keys| == |lengths| && |huffmanCodes.Keys| == |huffmanCodes|;
    if encodedText != [] {
      var t := huffman.root.value;
      BuiltShape(t, lengths);
      DecodeFromSymbols(t, t, encodedText);
      assert forall c :: c in Symbols(t) ==> c in lengths.Keys;
    }
    decodedText := huffman.Decode(encodedText);
  }
}
