/** The code table, the encoded text and the decoder's walk, as functions
    of the tree: the specification that the methods of HuffmanCoding are
    proved against, and what is proved about it (codes are root-to-leaf
    paths, the table is prefix-free, decoding undoes encoding). */
module CodeSpec {
  import opened HuffmanTree

  // ---------------------------------------------------------------------
  // The code table that buildCodeMap records

  /** The codes of the leaves of `t` when the walk enters `t` with the bits
      `code`: '0' is appended going left, '1' going right, and a code is
      recorded at a leaf. The right subtree is walked last, so on a repeated
      symbol its entry wins, as later `put`s do in a HashMap. */
  function PathCodes(t: Tree, code: string): map<char, string>
    decreases t
  {
    match t
    case Leaf(c, _) => map[c := code]
    case Node(_, l, r) => PathCodes(l, code + "0") + PathCodes(r, code + "1")
  }

  /** The same, from a node that may be null. */
  function CodesAt(node: Option<Tree>, code: string): map<char, string> {
    if node.None? then map[] else PathCodes(node.value, code)
  }

  /** One step of buildCodeMap: record the code if `t` is a leaf, then
      walk the (possibly null) left and right children. */
  lemma RecordStep(t: Tree, code: string, before: map<char, string>)
    ensures (if t.Leaf? then before[t.ch := code] else before)
      + CodesAt(LeftOf(t), code + "0") + CodesAt(RightOf(t), code + "1")
      == before + PathCodes(t, code)
  {
    if t.Leaf? {
      RecordLeaf(before, t.ch, code);
    } else {
      UnionAssoc(before, PathCodes(t.left, code + "0"), PathCodes(t.right, code + "1"));
    }
  }

  lemma RecordLeaf(before: map<char, string>, c: char, code: string)
    ensures before[c := code] + map[] + map[] == before + map[c := code]
  {
    assert before[c := code] + map[] + map[] == before[c := code];
  }

  lemma UnionAssoc(a: map<char, string>, b: map<char, string>, c: map<char, string>)
    ensures (a + b) + c == a + (b + c)
  {
    assert ((a + b) + c).Keys == (a + (b + c)).Keys;
  }

  /** The table buildTree records for its root. */
  function CodeTable(root: Option<Tree>): map<char, string> {
    CodesAt(root, "")
  }

  /** `q` leads from the top of `t` to a leaf labelled `c`, taking '0' as
      left and '1' as right. */
  predicate IsPath(t: Tree, c: char, q: string)
    decreases t
  {
    match t
    case Leaf(ch, _) => q == [] && c == ch
    case Node(_, l, r) =>
      && |q| > 0
      && ((q[0] == '0' && IsPath(l, c, q[1..])) || (q[0] == '1' && IsPath(r, c, q[1..])))
  }

  /** The table has one entry per distinct leaf symbol. */
  lemma {:induction false} PathCodesKeys(t: Tree, code: string)
    ensures PathCodes(t, code).Keys == set c | c in Symbols(t)
  {
    match t
    case Leaf(_, _) =>
    case Node(_, l, r) =>
      PathCodesKeys(l, code + "0");
      PathCodesKeys(r, code + "1");
  }

  /** Every recorded code is the walk's starting bits followed by a
      root-to-leaf path to that symbol. */
  lemma {:induction false} PathCodesArePaths(t: Tree, code: string)
    ensures forall c :: c in PathCodes(t, code) ==>
      && code <= PathCodes(t, code)[c]
      && IsPath(t, c, PathCodes(t, code)[c][|code|..])
  {
    match t
    case Leaf(_, _) =>
    case Node(_, l, r) =>
      var left, right := PathCodes(l, code + "0"), PathCodes(r, code + "1");
      PathCodesArePaths(l, code + "0");
      PathCodesArePaths(r, code + "1");
      forall c | c in PathCodes(t, code)
        ensures code <= PathCodes(t, code)[c] && IsPath(t, c, PathCodes(t, code)[c][|code|..])
      {
        var v := PathCodes(t, code)[c];
        var bit := if c in right then '1' else '0';
        var sub := if c in right then r else l;
        assert (code + [bit]) <= v;
        assert IsPath(sub, c, v[|code| + 1..]);
        assert v[|code|..][0] == bit;
        assert v[|code|..][1..] == v[|code| + 1..];
      }
  }

  /** No path to a leaf is a prefix of another path to a leaf; a path that
      is a prefix of another is the same path to the same leaf. */
  lemma {:induction false} PathsPrefixFree(t: Tree, a: char, p: string, b: char, q: string)
    requires IsPath(t, a, p) && IsPath(t, b, q) && p <= q
    ensures p == q && a == b
    decreases t
  {
    match t
    case Leaf(_, _) =>
    case Node(_, l, r) =>
      assert p[0] == q[0];
      var sub := if p[0] == '0' then l else r;
      PathsPrefixFree(sub, a, p[1..], b, q[1..]);
      assert p == [p[0]] + p[1..] && q == [q[0]] + q[1..];
  }

  /** No symbol's code is a prefix of another symbol's code. */
  predicate PrefixFree(codes: map<char, string>) {
    forall a, b :: a in codes && b in codes && a != b ==> !(codes[a] <= codes[b])
  }

  /** The table of any tree is prefix-free (so, in particular, distinct
      symbols have distinct codes). */
  lemma CodeTablePrefixFree(t: Tree)
    ensures PrefixFree(CodeTable(Some(t)))
  {
    var codes := CodeTable(Some(t));
    PathCodesArePaths(t, "");
    forall a, b | a in codes && b in codes && a != b
      ensures !(codes[a] <= codes[b])
    {
      assert codes[a][0..] == codes[a] && codes[b][0..] == codes[b];
      if codes[a] <= codes[b] {
        PathsPrefixFree(t, a, codes[a], b, codes[b]);
      }
    }
  }

  /** A single-leaf tree gives its symbol the empty code; a tree of two or
      more leaves gives every symbol a code of at least one bit. */
  lemma CodeTableLengths(t: Tree)
    ensures t.Leaf? ==> CodeTable(Some(t)) == map[t.ch := ""]
    ensures t.Node? ==> forall c :: c in CodeTable(Some(t)) ==> |CodeTable(Some(t))[c]| >= 1
  {
    PathCodesArePaths(t, "");
    if t.Node? {
      forall c | c in CodeTable(Some(t)) ensures |CodeTable(Some(t))[c]| >= 1 {
        assert CodeTable(Some(t))[c][0..] == CodeTable(Some(t))[c];
      }
    }
  }

  // ---------------------------------------------------------------------
  // encode

  /** What `append(huffmanCodes.get(ch))` appends: the code, or the four
      characters "null" when the symbol has none. */
  function Lookup(codes: map<char, string>, c: char): string {
    if c in codes then codes[c] else "null"
  }

  /** The text's codes, concatenated in text order. */
  function Encoded(codes: map<char, string>, text: string): string
    decreases |text|
  {
    if text == [] then [] else Lookup(codes, text[0]) + Encoded(codes, text[1..])
  }

  /** Encoding is a homomorphism: the encoding of a concatenation is the
      concatenation of the encodings. */
  lemma {:induction false} EncodedConcat(codes: map<char, string>, a: string, b: string)
    ensures Encoded(codes, a + b) == Encoded(codes, a) + Encoded(codes, b)
    decreases |a|
  {
    if a != [] {
      assert (a + b)[0] == a[0];
      assert (a + b)[1..] == a[1..] + b;
      EncodedConcat(codes, a[1..], b);
    } else {
      assert a + b == b;
    }
  }

  // ---------------------------------------------------------------------
  // decode

  /** The decoder's loop from cursor `cursor`: one step per bit, '0' to the
      left child and anything else to the right; on a leaf its symbol is
      emitted and the cursor goes back to `root`. Bits left over when the
      input ends are dropped. */
  function DecodeFrom(root: Tree, cursor: Tree, bits: string): string
    requires root.Node? && cursor.Node?
    decreases |bits|
  {
    if bits == [] then []
    else
      var next := if bits[0] == '0' then cursor.left else cursor.right;
      if next.Leaf? then [next.ch] + DecodeFrom(root, root, bits[1..])
      else DecodeFrom(root, next, bits[1..])
  }

  /** Whether decode can run on `bits` without dereferencing null: with
      bits to read, the root must be an internal node (a null root, or a
      leaf root with its null children, would fail on the first bit). */
  predicate Decodable(root: Option<Tree>, bits: string) {
    bits != [] ==> root.Some? && root.value.Node?
  }

  function Decoded(root: Option<Tree>, bits: string): string
    requires Decodable(root, bits)
  {
    if bits == [] then [] else DecodeFrom(root.value, root.value, bits)
  }

  /** Following a path from an internal node emits the path's symbol and
      returns the cursor to the root. */
  lemma {:induction false} DecodePath(root: Tree, s: Tree, c: char, q: string, rest: string)
    requires root.Node? && s.Node? && IsPath(s, c, q)
    ensures DecodeFrom(root, s, q + rest) == [c] + DecodeFrom(root, root, rest)
    decreases |q|
  {
    var next := if q[0] == '0' then s.left else s.right;
    assert (q + rest)[0] == q[0];
    assert (q + rest)[1..] == q[1..] + rest;
    if next.Node? {
      DecodePath(root, next, c, q[1..], rest);
    } else {
      assert q[1..] + rest == rest;
    }
  }

  /** Decoding the encoding of `text` under the root's own table gives
      `text` back, and then carries on with whatever bits follow. */
  lemma {:induction false} DecodeEncoded(t: Tree, text: string, rest: string)
    requires t.Node?
    requires forall c :: c in text ==> c in CodeTable(Some(t))
    ensures DecodeFrom(t, t, Encoded(CodeTable(Some(t)), text) + rest) == text + DecodeFrom(t, t, rest)
    decreases |text|
  {
    var codes := CodeTable(Some(t));
    if text == [] {
      assert Encoded(codes, text) + rest == rest;
    } else {
      var c := text[0];
      PathCodesArePaths(t, "");
      assert codes[c][0..] == codes[c];
      var tail := Encoded(codes, text[1..]) + rest;
      assert Encoded(codes, text) + rest == codes[c] + tail;
      DecodePath(t, t, c, codes[c], tail);
      DecodeEncoded(t, text[1..], rest);
      assert text == [c] + text[1..];
    }
  }

  /** The round trip on one HuffmanCoding: for a tree with at least two
      leaves and a text whose every symbol has a code, decoding the
      encoded text gives the text. */
  lemma RoundTrip(t: Tree, text: string)
    requires t.Node?
    requires forall c :: c in text ==> c in CodeTable(Some(t))
    ensures Decodable(Some(t), Encoded(CodeTable(Some(t)), text))
    ensures Decoded(Some(t), Encoded(CodeTable(Some(t)), text)) == text
  {
    DecodeEncoded(t, text, []);
    assert Encoded(CodeTable(Some(t)), text) + [] == Encoded(CodeTable(Some(t)), text);
    assert text + [] == text;
  }

  /** Bits that stop part-way down a path emit nothing. */
  lemma {:induction false} PartialPathDropped(root: Tree, s: Tree, c: char, q: string, k: nat)
    requires root.Node? && s.Node? && IsPath(s, c, q) && k < |q|
    ensures DecodeFrom(root, s, q[..k]) == []
    decreases k
  {
    if k > 0 {
      var next := if q[0] == '0' then s.left else s.right;
      assert q[..k][0] == q[0];
      assert q[..k][1..] == q[1..][..k - 1];
      assert next.Node?;
      PartialPathDropped(root, next, c, q[1..], k - 1);
    }
  }

  /** Trailing bits that never reach a leaf are silently dropped: after an
      encoded text, a proper prefix of a code decodes to nothing more. */
  lemma TrailingBitsDropped(t: Tree, text: string, c: char, k: nat)
    requires t.Node?
    requires forall x :: x in text ==> x in CodeTable(Some(t))
    requires c in CodeTable(Some(t)) && k < |CodeTable(Some(t))[c]|
    ensures Decoded(Some(t), Encoded(CodeTable(Some(t)), text) + CodeTable(Some(t))[c][..k]) == text
  {
    var codes := CodeTable(Some(t));
    var tail := codes[c][..k];
    DecodeEncoded(t, text, tail);
    PathCodesArePaths(t, "");
    assert codes[c][0..] == codes[c];
    PartialPathDropped(t, t, c, codes[c], k);
    assert text + [] == text;
  }

  /** With one symbol the code is empty: every text over that symbol
      encodes to nothing and decodes to nothing, so the repetition count
      is lost. */
  lemma {:induction false} SingleSymbolCollapses(c: char, f: nat, text: string)
    requires forall x :: x in text ==> x == c
    ensures Encoded(CodeTable(Some(Leaf(c, f))), text) == []
    ensures Decoded(Some(Leaf(c, f)), Encoded(CodeTable(Some(Leaf(c, f))), text)) == []
    decreases |text|
  {
    if text != [] {
      assert text[0] in text;
      assert forall x :: x in text[1..] ==> x in text;
      SingleSymbolCollapses(c, f, text[1..]);
    }
  }

  /** Everything the decoder emits is a leaf symbol, and it emits at most
      one symbol per bit. */
  lemma {:induction false} DecodeFromSymbols(root: Tree, cursor: Tree, bits: string)
    requires root.Node? && cursor.Node?
    ensures |DecodeFrom(root, cursor, bits)| <= |bits|
    ensures forall x :: x in DecodeFrom(root, cursor, bits) ==> x in Symbols(root) || x in Symbols(cursor)
    decreases |bits|
  {
    if bits != [] {
      var next := if bits[0] == '0' then cursor.left else cursor.right;
      if next.Leaf? {
        DecodeFromSymbols(root, root, bits[1..]);
      } else {
        DecodeFromSymbols(root, next, bits[1..]);
      }
    }
  }
}
