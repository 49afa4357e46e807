/** The HuffmanCoding class: the root of the tree and the code table it
    records, the merge loop that builds them, and the encoder and decoder
    loops, each proved against the functions of module CodeSpec. */
module Coding {
  import opened HuffmanTree
  import opened CodeSpec

  /** The index of a minimum-frequency tree: what `poll` takes from the
      priority queue (on a tie, any minimum may come out; this one takes
      the first). The queue orders by `CompareTo`, whose sign is the order
      of the frequencies by its ensures, so `<` on `freq` is that order. */
  method FindMin(pq: seq<Tree>) returns (m: nat)
    requires |pq| > 0
    ensures m < |pq|
    ensures forall k :: 0 <= k < |pq| ==> pq[m].freq <= pq[k].freq
  {
    m := 0;
    var k := 1;
    while k < |pq|
      invariant 1 <= k <= |pq|
      invariant m < k
      invariant forall j :: 0 <= j < k ==> pq[m].freq <= pq[j].freq
    {
      if pq[k].freq < pq[m].freq {
        m := k;
      }
      k := k + 1;
    }
  }

  /** The seeding loop's account: the queue holds one leaf for each key in
      `done`, with that key's frequency. */
  ghost predicate Seeded(freqMap: map<char, nat>, pq: seq<Tree>, done: set<char>) {
    && done <= freqMap.Keys
    && |pq| == |done|
    && QueueMatches(pq, freqMap)
    && SymbolsOf(pq) == multiset(done)
    && Weight(pq) == Total(freqMap, done)
  }

  /** Queueing the leaf of a key not yet queued keeps the account. */
  lemma SeedStep(freqMap: map<char, nat>, pq: seq<Tree>, done: set<char>, ch: char)
    requires Seeded(freqMap, pq, done) && ch in freqMap && ch !in done
    ensures Seeded(freqMap, pq + [Leaf(ch, freqMap[ch])], done + {ch})
  {
    var leaf := Leaf(ch, freqMap[ch]);
    assert multiset(done + {ch}) == multiset(done) + multiset{ch};
    AppendSplits(pq, leaf);
    TotalRemove(freqMap, done + {ch}, ch);
    assert done + {ch} - {ch} == done;
    assert |done + {ch}| == |done| + 1;
    forall t | t in pq + [leaf] ensures FreqsAdd(t) && LeavesMatch(t, freqMap) {
      if t != leaf {
        assert t in pq;
      }
    }
  }

  lemma SeedDone(freqMap: map<char, nat>, pq: seq<Tree>)
    requires Seeded(freqMap, pq, freqMap.Keys)
    ensures |pq| == |freqMap| && QueueMatches(pq, freqMap)
    ensures SymbolsOf(pq) == multiset(freqMap.Keys) && Weight(pq) == Total(freqMap, freqMap.Keys)
  {
    assert |freqMap.Keys| == |freqMap|;
  }

  /** The queue as buildTree seeds it: one leaf per entry of the map,
      visited in the map's own (unspecified) order. */
  method Seed(freqMap: map<char, nat>) returns (pq: seq<Tree>)
    ensures |pq| == |freqMap|
    ensures QueueMatches(pq, freqMap)
    ensures SymbolsOf(pq) == multiset(freqMap.Keys)
    ensures Weight(pq) == Total(freqMap, freqMap.Keys)
  {
    pq := [];
    ghost var done: set<char> := {};
    var keys := freqMap.Keys;
    while keys != {}
      invariant done + keys == freqMap.Keys && done !! keys
      invariant Seeded(freqMap, pq, done)
      decreases keys
    {
      var ch :| ch in keys;
      SeedStep(freqMap, pq, done, ch);
      pq := pq + [Leaf(ch, freqMap[ch])];
      keys := keys - {ch};
      done := done + {ch};
    }
    assert done == freqMap.Keys;
    SeedDone(freqMap, pq);
  }

  /** buildTree's merge loop and final poll: while more than one tree is
      queued, poll a minimum as `left`, then a minimum as `right`, and queue
      a node whose frequency is their sum; then poll what is left (null if
      nothing). The result holds exactly the queue's leaves and weight, and
      `merges` is one less than the queue's length. */
  method MergeAll(queue: seq<Tree>, freqMap: map<char, nat>) returns (root: Option<Tree>, ghost merges: nat)
    requires QueueMatches(queue, freqMap)
    ensures root.None? <==> queue == []
    ensures root.Some? ==> FreqsAdd(root.value) && LeavesMatch(root.value, freqMap)
    ensures root.Some? ==> Symbols(root.value) == SymbolsOf(queue) && root.value.freq == Weight(queue)
    ensures root.Some? ==> merges == |queue| - 1
  {
    var pq := queue;
    merges := 0;
    while |pq| > 1
      invariant SameContents(pq, queue, freqMap)
      invariant merges + |pq| == |queue|
      invariant pq == [] ==> queue == []
      decreases |pq|
    {
      var i := FindMin(pq);
      var left := pq[i];
      var rest := RemoveAt(pq, i);
      var j := FindMin(rest);
      var right := rest[j];
      MergeKeeps(pq, i, j, queue, freqMap);
      ghost var before := pq;
      pq := RemoveAt(rest, j) + [Node(left.freq + right.freq, left, right)];
      assert pq == MergeAt(before, i, j);
      merges := merges + 1;
    }
    if pq == [] {
      root := None;
    } else {
      PollLast(pq);
      root := Some(pq[0]);
    }
  }

  class HuffmanCoding {
    /** huffmanCodes */
    var codes: map<char, string>
    /** root; `None` is null */
    var root: Option<Tree>

    constructor ()
      ensures codes == map[] && root == None
    {
      codes := map[];
      root := None;
    }

    /** buildTree: seed the queue with one leaf per key, merge down to
        one tree, poll it as the root (null for an empty map) and add its
        codes to the table. `merges` counts the merges. */
    method BuildTree(freqMap: map<char, nat>) returns (ghost merges: nat)
      modifies this
      ensures |freqMap| == 0 ==> root == None
      ensures |freqMap| > 0 ==> root.Some? && BuiltFrom(root.value, freqMap)
      ensures |freqMap| > 0 ==> merges == |freqMap| - 1
      ensures codes == old(codes) + CodeTable(root)
    {
      var pq := Seed(freqMap);
      var polled;
      polled, merges := MergeAll(pq, freqMap);
      root := polled;
      BuildCodeMap(root, "");
    }

    /** buildCodeMap: a pre-order walk that `put`s the accumulated code at
        every node with two null children and returns on a null node. */
    method BuildCodeMap(node: Option<Tree>, code: string)
      modifies this`codes
      ensures codes == old(codes) + CodesAt(node, code)
      decreases SizeOf(node)
    {
      if node.None? {
        return;
      }
      var t := node.value;
      RecordStep(t, code, codes);
      if t.Leaf? {
        codes := codes[t.ch := code];
      }
      BuildCodeMap(LeftOf(t), code + "0");
      BuildCodeMap(RightOf(t), code + "1");
    }

    /** encode: append each symbol's code in text order. */
    method Encode(text: string) returns (r: string)
      ensures r == Encoded(codes, text)
    {
      r := [];
      for i := 0 to |text|
        invariant r == Encoded(codes, text[..i])
      {
        EncodedConcat(codes, text[..i], [text[i]]);
        assert text[..i + 1] == text[..i] + [text[i]];
        assert Encoded(codes, [text[i]]) == Lookup(codes, text[i]) by {
          assert [text[i]][1..] == [];
        }
        r := r + Lookup(codes, text[i]);
      }
      assert text[..|text|] == text;
    }

    /** decode: a cursor descends one child per bit and, on a leaf, emits
        its symbol and restarts at the root. */
    method Decode(bits: string) returns (r: string)
      requires Decodable(root, bits)
      ensures r == Decoded(root, bits)
    {
      r := [];
      var node := root;
      var i := 0;
      while i < |bits|
        invariant 0 <= i <= |bits|
        invariant bits != [] ==> node.Some? && node.value.Node?
        invariant bits != [] ==> r + DecodeFrom(root.value, node.value, bits[i..]) == Decoded(root, bits)
        invariant bits == [] ==> r == []
      {
        var cursor := node.value;
        var next := if bits[i] == '0' then cursor.left else cursor.right;
        assert bits[i..][0] == bits[i] && bits[i..][1..] == bits[i + 1..];
        if next.Leaf? {
          r := r + [next.ch];
          node := root;
        } else {
          node := Some(next);
        }
        i := i + 1;
      }
      if bits != [] {
        assert bits[i..] == [];
      }
    }
  }
}
