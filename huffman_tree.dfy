/** The coding tree of FileCompression.java: the nodes the priority queue
    holds, their ordering, and the facts every tree the merge loop builds
    satisfies. */
module HuffmanTree {

  /** Java's nullable reference: `None` stands for `null`. */
  datatype Option<T> = None | Some(value: T)

  /** A HuffmanNode. The source tells a leaf by its two null children; an
      internal node always has two children and the placeholder symbol
      '\0', which no reader looks at, so it is not stored here. Nodes are
      never updated after construction, so they are values. */
  datatype Tree = Leaf(ch: char, freq: nat) | Node(freq: nat, left: Tree, right: Tree)

  /** The children as the source sees them: a leaf's are null. */
  function LeftOf(t: Tree): Option<Tree> {
    if t.Leaf? then None else Some(t.left)
  }

  function RightOf(t: Tree): Option<Tree> {
    if t.Leaf? then None else Some(t.right)
  }

  function Size(t: Tree): (n: nat)
    ensures n >= 1
  {
    match t
    case Leaf(_, _) => 1
    case Node(_, l, r) => 1 + Size(l) + Size(r)
  }

  function SizeOf(node: Option<Tree>): nat {
    if node.None? then 0 else Size(node.value)
  }

  /** The symbols at the leaves, with their multiplicity. */
  function Symbols(t: Tree): multiset<char> {
    match t
    case Leaf(c, _) => multiset{c}
    case Node(_, l, r) => Symbols(l) + Symbols(r)
  }

  function InternalCount(t: Tree): nat {
    match t
    case Leaf(_, _) => 0
    case Node(_, l, r) => 1 + InternalCount(l) + InternalCount(r)
  }

  /** Every internal node's frequency is the sum of its children's. */
  predicate FreqsAdd(t: Tree) {
    match t
    case Leaf(_, _) => true
    case Node(f, l, r) => f == l.freq + r.freq && FreqsAdd(l) && FreqsAdd(r)
  }

  /** Every leaf carries a key of `freq` and that key's frequency. */
  predicate LeavesMatch(t: Tree, freq: map<char, nat>) {
    match t
    case Leaf(c, f) => c in freq && f == freq[c]
    case Node(_, l, r) => LeavesMatch(l, freq) && LeavesMatch(r, freq)
  }

  /** A full binary tree has one more leaf than it has internal nodes. */
  lemma {:induction false} LeavesOutnumberInternals(t: Tree)
    ensures |Symbols(t)| == InternalCount(t) + 1
  {
    match t
    case Leaf(_, _) =>
    case Node(_, l, r) =>
      LeavesOutnumberInternals(l);
      LeavesOutnumberInternals(r);
  }

  // ---------------------------------------------------------------------
  // compareTo: `this.freq - node.freq` on 32-bit Java ints

  const TWO_32: int := 0x1_0000_0000
  const TWO_31: int := 0x8000_0000

  /** Two's-complement truncation of an integer to a Java int. */
  function Int32(x: int): (r: int)
    ensures -TWO_31 <= r < TWO_31
    ensures (x - r) % TWO_32 == 0
    ensures -TWO_31 <= x < TWO_31 ==> r == x
  {
    var m := x % TWO_32;
    if m >= TWO_31 then m - TWO_32 else m
  }

  /** The queue's ordering. Frequencies are non-negative Java ints, so the
      subtraction cannot wrap and the sign of the result is the order of
      the frequencies. */
  function CompareTo(a: Tree, b: Tree): (r: int)
    requires a.freq < TWO_31 && b.freq < TWO_31
    ensures r < 0 <==> a.freq < b.freq
    ensures r == 0 <==> a.freq == b.freq
    ensures r > 0 <==> a.freq > b.freq
  {
    Int32(a.freq - b.freq)
  }

  // ---------------------------------------------------------------------
  // Sums of frequencies

  /** An element of a non-empty set, the same one every time. */
  ghost function Pick(s: set<char>): (c: char)
    requires s != {}
    ensures c in s
  {
    var c :| c in s; c
  }

  /** The sum of `freq[k]` over the keys `keys`. */
  ghost function Total(freq: map<char, nat>, keys: set<char>): nat
    requires keys <= freq.Keys
    decreases keys
  {
    if keys == {} then 0
    else
      var k := Pick(keys);
      freq[k] + Total(freq, keys - {k})
  }

  /** The sum does not depend on the key taken out first. */
  lemma {:induction false} TotalRemove(freq: map<char, nat>, keys: set<char>, k: char)
    requires keys <= freq.Keys && k in keys
    ensures Total(freq, keys) == freq[k] + Total(freq, keys - {k})
    decreases keys
  {
    var j := Pick(keys);
    if j != k {
      TotalRemove(freq, keys - {j}, k);
      TotalRemove(freq, keys - {k}, j);
      assert keys - {j} - {k} == keys - {k} - {j};
    }
  }

  /** Two maps that agree on `keys` have the same sum over them. */
  lemma {:induction false} TotalAgree(f: map<char, nat>, g: map<char, nat>, keys: set<char>)
    requires keys <= f.Keys && keys <= g.Keys
    requires forall k :: k in keys ==> f[k] == g[k]
    ensures Total(f, keys) == Total(g, keys)
    decreases keys
  {
    if keys != {} {
      var k := Pick(keys);
      TotalRemove(g, keys, k);
      TotalAgree(f, g, keys - {k});
    }
  }

  /** Sum of the frequencies of the trees in a queue. */
  function Weight(pq: seq<Tree>): nat {
    if pq == [] then 0 else pq[0].freq + Weight(pq[1..])
  }

  /** Leaf symbols of all the trees in a queue. */
  function SymbolsOf(pq: seq<Tree>): multiset<char> {
    if pq == [] then multiset{} else Symbols(pq[0]) + SymbolsOf(pq[1..])
  }

  lemma {:induction false} ConcatSplits(a: seq<Tree>, b: seq<Tree>)
    ensures Weight(a + b) == Weight(a) + Weight(b)
    ensures SymbolsOf(a + b) == SymbolsOf(a) + SymbolsOf(b)
  {
    if a != [] {
      assert (a + b)[1..] == a[1..] + b;
      ConcatSplits(a[1..], b);
    } else {
      assert a + b == b;
    }
  }

  /** The queue after the element at `i` was polled. */
  function RemoveAt(pq: seq<Tree>, i: nat): (rest: seq<Tree>)
    requires i < |pq|
    ensures |rest| == |pq| - 1
    ensures forall t :: t in rest ==> t in pq
  {
    pq[..i] + pq[i + 1..]
  }

  /** Polling an element takes exactly its frequency and its leaves out of
      the queue. */
  lemma {:induction false} RemoveAtSplits(pq: seq<Tree>, i: nat)
    requires i < |pq|
    ensures Weight(pq) == pq[i].freq + Weight(RemoveAt(pq, i))
    ensures SymbolsOf(pq) == Symbols(pq[i]) + SymbolsOf(RemoveAt(pq, i))
  {
    var a, x, b := pq[..i], pq[i], pq[i + 1..];
    assert pq == (a + [x]) + b;
    ConcatSplits(a + [x], b);
    AppendSplits(a, x);
    ConcatSplits(a, b);
  }

  /** Adding a tree to the queue adds its frequency and its leaves. */
  lemma {:induction false} AppendSplits(pq: seq<Tree>, t: Tree)
    ensures Weight(pq + [t]) == Weight(pq) + t.freq
    ensures SymbolsOf(pq + [t]) == SymbolsOf(pq) + Symbols(t)
  {
    ConcatSplits(pq, [t]);
    assert [t][1..] == [];
  }

  /** Every tree in the queue has sums at its internal nodes and the
      frequencies of `freq` at its leaves. */
  predicate QueueMatches(pq: seq<Tree>, freq: map<char, nat>) {
    forall t :: t in pq ==> FreqsAdd(t) && LeavesMatch(t, freq)
  }

  /** One round of the merge loop: the tree at `i` is polled as `left`,
      then the tree at `j` of what remains as `right`, and their merge is
      queued. */
  function MergeAt(pq: seq<Tree>, i: nat, j: nat): seq<Tree>
    requires i < |pq| && j < |pq| - 1
  {
    var left := pq[i];
    var rest := RemoveAt(pq, i);
    var right := rest[j];
    RemoveAt(rest, j) + [Node(left.freq + right.freq, left, right)]
  }

  /** The merge loop's account: `pq` holds the leaves and the weight of
      `queue`, and each of its trees has sums at internal nodes and the
      frequencies of `freq` at its leaves. */
  ghost predicate SameContents(pq: seq<Tree>, queue: seq<Tree>, freq: map<char, nat>) {
    && QueueMatches(pq, freq)
    && SymbolsOf(pq) == SymbolsOf(queue)
    && Weight(pq) == Weight(queue)
  }

  /** A merge round shortens the queue by one and keeps the account. */
  lemma MergeKeeps(pq: seq<Tree>, i: nat, j: nat, queue: seq<Tree>, freq: map<char, nat>)
    requires i < |pq| && j < |pq| - 1 && SameContents(pq, queue, freq)
    ensures |MergeAt(pq, i, j)| == |pq| - 1
    ensures SameContents(MergeAt(pq, i, j), queue, freq)
  {
    var left := pq[i];
    var rest := RemoveAt(pq, i);
    var right := rest[j];
    var merged := Node(left.freq + right.freq, left, right);
    var kept := RemoveAt(rest, j);
    assert MergeAt(pq, i, j) == kept + [merged];
    RemoveAtSplits(pq, i);
    RemoveAtSplits(rest, j);
    AppendSplits(kept, merged);
    MergedMatches(pq, rest, kept, merged, freq);
  }

  /** The last tree left in the queue holds all its leaves and weight. */
  lemma PollLast(pq: seq<Tree>)
    requires |pq| == 1
    ensures pq[0] in pq
    ensures SymbolsOf(pq) == Symbols(pq[0]) && Weight(pq) == pq[0].freq
  {
    assert pq[1..] == [];
  }

  lemma MergedMatches(pq: seq<Tree>, rest: seq<Tree>, kept: seq<Tree>, merged: Tree, freq: map<char, nat>)
    requires QueueMatches(pq, freq)
    requires forall t :: t in rest ==> t in pq
    requires forall t :: t in kept ==> t in rest
    requires merged.Node? && merged.left in pq && merged.right in rest
    requires merged.freq == merged.left.freq + merged.right.freq
    ensures QueueMatches(kept + [merged], freq)
  {
    forall t | t in kept + [merged]
      ensures FreqsAdd(t) && LeavesMatch(t, freq)
    {
      if t != merged {
        assert t in kept;
      }
    }
  }

  // ---------------------------------------------------------------------
  // What buildTree promises of its root

  /** `t` is a tree the merge loop can build from `freq`: sums at internal
      nodes, every key as exactly one leaf with its own frequency, and the
      root weighing the sum of all frequencies. */
  ghost predicate BuiltFrom(t: Tree, freq: map<char, nat>) {
    && FreqsAdd(t)
    && LeavesMatch(t, freq)
    && Symbols(t) == multiset(freq.Keys)
    && t.freq == Total(freq, freq.Keys)
  }

  lemma {:induction false} SetMultisetSize(s: set<char>)
    ensures |multiset(s)| == |s|
    decreases s
  {
    if s != {} {
      var k := Pick(s);
      SetMultisetSize(s - {k});
      assert multiset(s) == multiset(s - {k}) + multiset{k};
    }
  }

  /** A tree built from `n` symbols has `n - 1` internal nodes; with one
      symbol the root is that symbol's leaf, with two or more it is an
      internal node. */
  lemma BuiltShape(t: Tree, freq: map<char, nat>)
    requires BuiltFrom(t, freq)
    ensures InternalCount(t) == |freq| - 1
    ensures |freq| == 1 <==> t.Leaf?
    ensures t.Leaf? ==> freq == map[t.ch := t.freq]
  {
    LeavesOutnumberInternals(t);
    SetMultisetSize(freq.Keys);
    assert |freq.Keys| == |freq|;
    if t.Leaf? {
      assert t.ch in multiset(freq.Keys);
      assert freq.Keys == {t.ch} by {
        forall k | k in freq.Keys ensures k == t.ch {
          assert k in multiset(freq.Keys);
        }
      }
    }
  }
}
