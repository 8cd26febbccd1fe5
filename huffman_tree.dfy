/** The Huffman tree (huffman_tree): construction from a frequency table with a
    deterministic priority queue, the code table, and the one-bit-at-a-time decoder. */
module Huffman {
  import opened Common
  import opened FreqTable

  /** A tree node: a leaf carries a byte and its count; an internal node carries
      the sum of its children's counts, a left child and, except in the
      one-symbol tree, a right child. */
  datatype Tree =
    | Leaf(freq: nat, value: Byte)
    | Node(freq: nat, left: Tree, right: Option<Tree>)

  /** The leftmost leaf of a tree: follow left children until a leaf. */
  function LeftmostLeaf(t: Tree): (leaf: Tree)
    ensures leaf.Leaf?
  {
    match t
    case Leaf(_, _) => t
    case Node(_, l, _) => LeftmostLeaf(l)
  }

  /** get_left_most_leaf: the loop over left children. The comparator uses
      the function form, LeftmostLeaf, which this loop is proved to compute. */
  method GetLeftMostLeaf(node: Tree) returns (leaf: Tree)
    ensures leaf.Leaf? && leaf in Leaves(node)
    ensures leaf == LeftmostLeaf(node)
  {
    var n := node;
    while n.Node?
      invariant LeftmostLeaf(n) == LeftmostLeaf(node)
      invariant Leaves(n) <= Leaves(node)
      decreases n
    {
      n := n.left;
    }
    leaf := n;
  }

  /** The leaves of a tree, as a multiset of Leaf values. */
  function Leaves(t: Tree): multiset<Tree>
  {
    match t
    case Leaf(_, _) => multiset{t}
    case Node(_, l, r) => Leaves(l) + (match r case None => multiset{} case Some(rt) => Leaves(rt))
  }

  lemma {:induction false} LeftmostLeafIsLeaf(t: Tree)
    ensures LeftmostLeaf(t) in Leaves(t)
  {
    match t
    case Leaf(_, _) =>
    case Node(_, l, _) => LeftmostLeafIsLeaf(l);
  }

  // ---------------------------------------------------------------------
  // The queue order

  /** The priority of a queue entry: its count, then leaves before internal
      nodes, then the value of its leftmost leaf. */
  datatype Key = Key(freq: nat, internal: bool, first: Byte)

  function KeyOf(t: Tree): Key
  {
    Key(t.freq, t.Node?, LeftmostLeaf(t).value)
  }

  /** Strict lexicographic order on keys. */
  predicate KeyBefore(a: Key, b: Key)
  {
    a.freq < b.freq
    || (a.freq == b.freq && !a.internal && b.internal)
    || (a.freq == b.freq && a.internal == b.internal && a.first < b.first)
  }

  /** The comparator handed to the priority queue: true when n1 leaves the
      queue after n2. On equal counts two leaves go by value, a leaf goes
      before an internal node and two internal nodes go by their leftmost leaves. */
  function Comp(n1: Tree, n2: Tree): (after: bool)
    ensures after <==> KeyBefore(KeyOf(n2), KeyOf(n1))
  {
    if n1.freq == n2.freq then
      if n1.Leaf? && n2.Leaf? then n1.value > n2.value
      else if n1.Leaf? then false
      else if n2.Leaf? then true
      else LeftmostLeaf(n1).value > LeftmostLeaf(n2).value
    else n1.freq > n2.freq
  }

  /** The index of the entry at the top of the queue: no entry goes before it. */
  function MinIndex(q: seq<Tree>): (i: nat)
    requires |q| > 0
    ensures i < |q|
    ensures forall j :: 0 <= j < |q| ==> !Comp(q[i], q[j])
  {
    if |q| == 1 then 0
    else
      var i := MinIndex(q[..|q| - 1]);
      assert forall j :: 0 <= j < |q| - 1 ==> q[..|q| - 1][j] == q[j];
      if Comp(q[i], q[|q| - 1]) then |q| - 1 else i
  }

  function RemoveAt(q: seq<Tree>, i: nat): seq<Tree>
    requires i < |q|
  {
    q[..i] + q[i + 1..]
  }

  /** top() followed by pop(). */
  function Pop(q: seq<Tree>): (Tree, seq<Tree>)
    requires |q| > 0
  {
    var i := MinIndex(q);
    (q[i], RemoveAt(q, i))
  }

  /** The merge loop: take the two entries at the top, push their parent with
      the first one on the left, until one entry remains. */
  function MergeAll(q: seq<Tree>): Tree
    requires |q| > 0
    decreases |q|
  {
    if |q| == 1 then q[0] else MergeAll(MergeOnce(q))
  }

  /** One round of the merge loop: pop two entries, push their parent. */
  function MergeOnce(q: seq<Tree>): (next: seq<Tree>)
    requires |q| > 1
    ensures |next| == |q| - 1
  {
    var i := MinIndex(q);
    var q1 := RemoveAt(q, i);
    var j := MinIndex(q1);
    RemoveAt(q1, j) + [Parent(q[i], q1[j])]
  }

  /** MergeOnce is two pops followed by a push of their parent. */
  lemma MergeOncePops(q: seq<Tree>)
    requires |q| > 1
    ensures MergeOnce(q) == Pop(Pop(q).1).1 + [Parent(Pop(q).0, Pop(Pop(q).1).0)]
  {
  }

  /** The internal node that takes the place of two popped entries. */
  function Parent(first: Tree, second: Tree): Tree
  {
    Node(first.freq + second.freq, first, Some(second))
  }

  /** One leaf per byte with a nonzero count, in ascending byte order. */
  function LeavesFor(t: seq<nat>, bytes: seq<Byte>): (q: seq<Tree>)
    requires |t| == Slots
    ensures |q| == |bytes|
    ensures forall i :: 0 <= i < |q| ==> q[i] == Leaf(t[bytes[i]], bytes[i])
  {
    seq(|bytes|, i requires 0 <= i < |bytes| => Leaf(t[bytes[i]], bytes[i]))
  }

  function InitialQueue(t: seq<nat>): seq<Tree>
    requires |t| == Slots
  {
    LeavesFor(t, Present(t))
  }

  /** The queue the merge loop starts from: a lone leaf is first replaced by an
      internal node with that leaf on the left and no right child. */
  function Seed(q: seq<Tree>): seq<Tree>
  {
    if |q| == 1 then [Node(q[0].freq, q[0], None)] else q
  }

  /** The tree the constructor builds from a table, or its error. */
  function HuffmanRoot(t: seq<nat>): Result<Tree>
    requires |t| == Slots
  {
    var q := InitialQueue(t);
    if |q| == 0 then Err(ZeroUniqueBytes) else Ok(MergeAll(Seed(q)))
  }

  /** The huffman_tree constructor up to the root: seed the queue in ascending
      byte order, reject an empty table, wrap a lone leaf, then merge. */
  method BuildRoot(table: FreqMap) returns (r: Result<Tree>)
    requires table.Valid()
    ensures r == HuffmanRoot(table.freq)
    ensures r.Err? <==> |Present(table.freq)| == 0
    ensures r.Err? ==> r.error == ZeroUniqueBytes
    ensures r.Ok? ==> r.value.Node?
  {
    var pq := SeedQueue(table);
    if |pq| == 0 {
      return Err(ZeroUniqueBytes);
    }
    if |pq| == 1 {
      var node := pq[0];
      pq := [Node(node.freq, node, None)];
    }
    assert pq == Seed(InitialQueue(table.freq));
    var root := MergeLoop(pq);
    r := Ok(root);
  }

  /** The seeding loop of the constructor: one leaf per byte with a nonzero
      count, pushed in ascending byte order. */
  method SeedQueue(table: FreqMap) returns (pq: seq<Tree>)
    requires table.Valid()
    ensures pq == InitialQueue(table.freq)
  {
    pq := [];
    var chr := 0;
    while chr < Slots
      invariant 0 <= chr <= Slots
      invariant pq == LeavesFor(table.freq, PresentBelow(table.freq, chr))
    {
      var freq := table.Get(chr);
      if freq != 0 {
        pq := pq + [Leaf(freq, chr)];
      }
      chr := chr + 1;
    }
  }

  /** The merge loop of the constructor: while two entries remain, pop the
      top two and push their parent. The last entry is the root. */
  method MergeLoop(q: seq<Tree>) returns (root: Tree)
    requires |q| >= 1 && (|q| == 1 ==> q[0].Node?)
    ensures root == MergeAll(q) && root.Node?
  {
    var pq := q;
    while |pq| > 1
      invariant |pq| >= 1
      invariant MergeAll(pq) == MergeAll(q)
      invariant |pq| == 1 ==> pq[0].Node?
      decreases |pq|
    {
      MergeOncePops(pq);
      var first := Pop(pq);
      var second := Pop(first.1);
      var node1, node2 := first.0, second.0;
      pq := second.1 + [Node(node1.freq + node2.freq, node1, Some(node2))];
      assert pq[|pq| - 1].Node?;
    }
    root := pq[0];
  }

  // ---------------------------------------------------------------------
  // What the merge loop builds

  /** Every internal node's count is the sum of its children's, and the child
      that left the queue first (the one with the smaller key) is on the left. */
  ghost predicate WellFormed(t: Tree)
  {
    match t
    case Leaf(_, _) => true
    case Node(f, l, None) => WellFormed(l) && f == l.freq
    case Node(f, l, Some(r)) =>
      WellFormed(l) && WellFormed(r) && f == l.freq + r.freq && KeyBefore(KeyOf(l), KeyOf(r))
  }

  /** All the leaves of the queue entries. */
  function QueueLeaves(q: seq<Tree>): multiset<Tree>
  {
    if q == [] then multiset{} else Leaves(q[0]) + QueueLeaves(q[1..])
  }

  /** The sum of the queue entries' counts. */
  function QueueFreq(q: seq<Tree>): nat
  {
    if q == [] then 0 else q[0].freq + QueueFreq(q[1..])
  }

  /** No two leaves carry the same byte, and none occurs twice. */
  ghost predicate UniqueLeaves(m: multiset<Tree>)
  {
    && (forall l :: l in m ==> m[l] == 1)
    && (forall l1, l2 :: l1 in m && l2 in m && l1.Leaf? && l2.Leaf? && l1.value == l2.value ==> l1 == l2)
  }

  lemma {:induction false} QueueConcat(a: seq<Tree>, b: seq<Tree>)
    ensures QueueLeaves(a + b) == QueueLeaves(a) + QueueLeaves(b)
    ensures QueueFreq(a + b) == QueueFreq(a) + QueueFreq(b)
  {
    if a == [] {
      assert a + b == b;
    } else {
      assert (a + b)[0] == a[0] && (a + b)[1..] == a[1..] + b;
      QueueConcat(a[1..], b);
      assert QueueLeaves(a + b) == Leaves(a[0]) + QueueLeaves(a[1..] + b);
      assert QueueFreq(a + b) == a[0].freq + QueueFreq(a[1..] + b);
    }
  }

  lemma {:induction false} QueueRemove(q: seq<Tree>, i: nat)
    requires i < |q|
    ensures QueueLeaves(q) == QueueLeaves(RemoveAt(q, i)) + Leaves(q[i])
    ensures QueueFreq(q) == QueueFreq(RemoveAt(q, i)) + q[i].freq
  {
    if i == 0 {
      assert RemoveAt(q, 0) == q[1..];
    } else {
      var rest := RemoveAt(q[1..], i - 1);
      assert RemoveAt(q, i) == [q[0]] + rest;
      assert ([q[0]] + rest)[1..] == rest;
      QueueRemove(q[1..], i - 1);
    }
  }

  lemma RemoveAtIndex(q: seq<Tree>, i: nat, j: nat)
    requires i < |q| && j < |q| - 1
    ensures RemoveAt(q, i)[j] == q[if j < i then j else j + 1]
  {
  }

  lemma {:induction false} EntryLeaves(q: seq<Tree>, k: nat)
    requires k < |q|
    ensures Leaves(q[k]) <= QueueLeaves(q)
  {
    QueueRemove(q, k);
  }

  lemma TwoEntriesLeaves(q: seq<Tree>, i: nat, j: nat)
    requires i < |q| && j < |q| && i != j
    ensures Leaves(q[i]) + Leaves(q[j]) <= QueueLeaves(q)
  {
    QueueRemove(q, i);
    var j' := if j < i then j else j - 1;
    RemoveAtIndex(q, i, j');
    EntryLeaves(RemoveAt(q, i), j');
  }

  /** With unique leaves, two different queue entries never have the same key:
      the comparator is a strict total order on the queue's contents. */
  lemma DistinctKeys(q: seq<Tree>, i: nat, j: nat)
    requires i < |q| && j < |q| && i != j
    requires UniqueLeaves(QueueLeaves(q))
    ensures KeyOf(q[i]) != KeyOf(q[j])
    ensures Comp(q[i], q[j]) != Comp(q[j], q[i])
  {
    var m := QueueLeaves(q);
    var l1, l2 := LeftmostLeaf(q[i]), LeftmostLeaf(q[j]);
    LeftmostLeafIsLeaf(q[i]);
    LeftmostLeafIsLeaf(q[j]);
    TwoEntriesLeaves(q, i, j);
  }

  /** The top of the queue is determined by its contents: any entry that no
      other entry goes before is the one MinIndex picks, so the tree does not
      depend on how the heap breaks ties. */
  lemma TopIsUnique(q: seq<Tree>, k: nat)
    requires k < |q|
    requires UniqueLeaves(QueueLeaves(q))
    requires forall j :: 0 <= j < |q| ==> !Comp(q[k], q[j])
    ensures k == MinIndex(q)
  {
    var i := MinIndex(q);
    if k != i {
      DistinctKeys(q, i, k);
    }
  }

  /** One round of merging keeps the queue's leaves and its total count. */
  lemma MergeOnceKeeps(q: seq<Tree>)
    requires |q| > 1
    ensures QueueLeaves(MergeOnce(q)) == QueueLeaves(q)
    ensures QueueFreq(MergeOnce(q)) == QueueFreq(q)
  {
    var i := MinIndex(q);
    var q1 := RemoveAt(q, i);
    var j := MinIndex(q1);
    var q2 := RemoveAt(q1, j);
    var parent := Parent(q[i], q1[j]);
    assert MergeOnce(q) == q2 + [parent];
    QueueRemove(q, i);
    QueueRemove(q1, j);
    QueueConcat(q2, [parent]);
    assert [parent][1..] == [];
  }

  /** The parent pushed by a round of merging is well formed: the entry popped
      first has the smaller key. */
  lemma MergeOnceParent(q: seq<Tree>)
    requires |q| > 1
    requires forall i :: 0 <= i < |q| ==> WellFormed(q[i])
    requires UniqueLeaves(QueueLeaves(q))
    ensures WellFormed(MergeOnce(q)[|q| - 2])
  {
    var i := MinIndex(q);
    var q1 := RemoveAt(q, i);
    var j := MinIndex(q1);
    var j' := if j < i then j else j + 1;
    RemoveAtIndex(q, i, j);
    DistinctKeys(q, i, j');
    var parent := Parent(q[i], q1[j]);
    assert MergeOnce(q)[|q| - 2] == parent;
    assert !Comp(q[i], q[j']);
  }

  /** The entries a round of merging leaves in the queue are well formed. */
  lemma MergeOnceRest(q: seq<Tree>)
    requires |q| > 1
    requires forall i :: 0 <= i < |q| ==> WellFormed(q[i])
    ensures forall k :: 0 <= k < |q| - 2 ==> WellFormed(MergeOnce(q)[k])
  {
    var i := MinIndex(q);
    var q1 := RemoveAt(q, i);
    var j := MinIndex(q1);
    var q2 := RemoveAt(q1, j);
    forall k | 0 <= k < |q| - 2 ensures WellFormed(MergeOnce(q)[k]) {
      assert MergeOnce(q)[k] == q2[k];
      RemoveAtIndex(q1, j, k);
      RemoveAtIndex(q, i, if k < j then k else k + 1);
    }
  }

  lemma MergeOnceSpec(q: seq<Tree>)
    requires |q| > 1
    requires forall i :: 0 <= i < |q| ==> WellFormed(q[i])
    requires UniqueLeaves(QueueLeaves(q))
    ensures QueueLeaves(MergeOnce(q)) == QueueLeaves(q)
    ensures QueueFreq(MergeOnce(q)) == QueueFreq(q)
    ensures forall k :: 0 <= k < |MergeOnce(q)| ==> WellFormed(MergeOnce(q)[k])
  {
    MergeOnceKeeps(q);
    MergeOnceParent(q);
    MergeOnceRest(q);
    var next := MergeOnce(q);
    forall k | 0 <= k < |next| ensures WellFormed(next[k]) {
      if k == |q| - 2 {
        assert next[k] == next[|q| - 2];
      }
    }
  }

  /** The merge loop keeps the leaves and the total count of its queue, and
      every node it creates is well formed. */
  lemma {:induction false} MergeAllSpec(q: seq<Tree>)
    requires |q| > 0
    requires forall i :: 0 <= i < |q| ==> WellFormed(q[i])
    requires UniqueLeaves(QueueLeaves(q))
    ensures WellFormed(MergeAll(q))
    ensures Leaves(MergeAll(q)) == QueueLeaves(q)
    ensures MergeAll(q).freq == QueueFreq(q)
    ensures |q| > 1 ==> MergeAll(q).Node?
    decreases |q|
  {
    if |q| == 1 {
      assert q[1..] == [];
    } else {
      MergeOnceSpec(q);
      MergeAllSpec(MergeOnce(q));
      if |q| == 2 {
        var next := MergeOnce(q);
        assert MergeAll(q) == next[0] == next[|next| - 1];
      }
    }
  }

  // ---------------------------------------------------------------------
  // What the constructor builds from a table

  /** l is the leaf the constructor makes for a byte present in t. */
  ghost predicate TableLeaf(t: seq<nat>, l: Tree)
    requires |t| == Slots
  {
    l.Leaf? && t[l.value] != 0 && l.freq == t[l.value]
  }

  lemma {:induction false} LeavesForAppend(t: seq<nat>, bytes: seq<Byte>, b: Byte)
    requires |t| == Slots
    ensures LeavesFor(t, bytes + [b]) == LeavesFor(t, bytes) + [Leaf(t[b], b)]
  {
    var q, q' := LeavesFor(t, bytes + [b]), LeavesFor(t, bytes) + [Leaf(t[b], b)];
    assert |q| == |q'|;
    forall k | 0 <= k < |q| ensures q[k] == q'[k] {
      if k < |bytes| {
        assert (bytes + [b])[k] == bytes[k];
      }
    }
  }

  /** Adding the leaf for slot n - 1 to the queue for the slots below it. */
  lemma PresentBelowStep(t: seq<nat>, n: nat)
    requires |t| == Slots && 0 < n <= Slots
    ensures t[n - 1] == 0 ==> LeavesFor(t, PresentBelow(t, n)) == LeavesFor(t, PresentBelow(t, n - 1))
    ensures t[n - 1] != 0 ==>
      && QueueLeaves(LeavesFor(t, PresentBelow(t, n)))
         == QueueLeaves(LeavesFor(t, PresentBelow(t, n - 1))) + multiset{Leaf(t[n - 1], n - 1)}
      && QueueFreq(LeavesFor(t, PresentBelow(t, n)))
         == QueueFreq(LeavesFor(t, PresentBelow(t, n - 1))) + t[n - 1]
  {
    var prev := PresentBelow(t, n - 1);
    if t[n - 1] != 0 {
      var leaf := Leaf(t[n - 1], n - 1);
      assert PresentBelow(t, n) == prev + [n - 1];
      LeavesForAppend(t, prev, n - 1);
      var a := LeavesFor(t, prev);
      assert LeavesFor(t, PresentBelow(t, n)) == a + [leaf];
      QueueConcat(a, [leaf]);
      assert [leaf][1..] == [];
      assert QueueLeaves([leaf]) == Leaves(leaf) + QueueLeaves([]);
      assert QueueFreq([leaf]) == leaf.freq + QueueFreq([]);
    } else {
      assert PresentBelow(t, n) == prev;
    }
  }

  /** The counts of the queue seeded from the first n slots add up to the
      slots' total. */
  lemma {:induction false} InitialFreqBelow(t: seq<nat>, n: nat)
    requires |t| == Slots && n <= Slots
    ensures QueueFreq(LeavesFor(t, PresentBelow(t, n))) == TotalBelow(t, n)
  {
    if n > 0 {
      InitialFreqBelow(t, n - 1);
      PresentBelowStep(t, n);
    }
  }

  /** The queue seeded from the first n slots holds one leaf per present byte
      below n, with its count, and nothing else. */
  lemma {:induction false} InitialLeavesBelow(t: seq<nat>, n: nat)
    requires |t| == Slots && n <= Slots
    ensures forall l :: QueueLeaves(LeavesFor(t, PresentBelow(t, n)))[l]
                        == if TableLeaf(t, l) && l.value < n then 1 else 0
  {
    if n > 0 {
      InitialLeavesBelow(t, n - 1);
      PresentBelowStep(t, n);
      var m := QueueLeaves(LeavesFor(t, PresentBelow(t, n)));
      var prev := QueueLeaves(LeavesFor(t, PresentBelow(t, n - 1)));
      forall l ensures m[l] == if TableLeaf(t, l) && l.value < n then 1 else 0 {
        if t[n - 1] != 0 {
          assert m[l] == prev[l] + multiset{Leaf(t[n - 1], n - 1)}[l];
        }
      }
    }
  }

  lemma {:induction false} InitialQueueSpec(t: seq<nat>)
    requires |t| == Slots
    ensures forall l :: QueueLeaves(InitialQueue(t))[l] == if TableLeaf(t, l) then 1 else 0
    ensures UniqueLeaves(QueueLeaves(InitialQueue(t)))
    ensures QueueFreq(InitialQueue(t)) == TotalBelow(t, Slots)
    ensures forall k :: 0 <= k < |InitialQueue(t)| ==> WellFormed(InitialQueue(t)[k])
  {
    InitialLeavesBelow(t, Slots);
    InitialFreqBelow(t, Slots);
  }

  lemma {:induction false} SeedSpec(q: seq<Tree>)
    requires forall k :: 0 <= k < |q| ==> WellFormed(q[k])
    ensures |Seed(q)| == |q|
    ensures QueueLeaves(Seed(q)) == QueueLeaves(q)
    ensures QueueFreq(Seed(q)) == QueueFreq(q)
    ensures forall k :: 0 <= k < |Seed(q)| ==> WellFormed(Seed(q)[k])
    ensures |q| == 1 ==> Seed(q)[0].Node?
  {
    if |q| == 1 {
      assert q[1..] == [] && Seed(q)[1..] == [];
    }
  }

  /** The table is rejected exactly when no byte has a nonzero count; otherwise
      the root is an internal node, every internal node's count is the sum of
      its children's with the smaller key on the left, the leaves are exactly
      the present bytes, each once with its count, and the root's count is the
      table's total. */
  lemma {:induction false} HuffmanRootSpec(t: seq<nat>)
    requires |t| == Slots
    ensures HuffmanRoot(t).Err? <==> forall b: Byte :: t[b] == 0
    ensures HuffmanRoot(t).Err? ==> HuffmanRoot(t).error == ZeroUniqueBytes
    ensures HuffmanRoot(t).Ok? ==>
      && HuffmanRoot(t).value.Node?
      && WellFormed(HuffmanRoot(t).value)
      && HuffmanRoot(t).value.freq == TotalBelow(t, Slots)
      && forall l :: Leaves(HuffmanRoot(t).value)[l] == if TableLeaf(t, l) then 1 else 0
  {
    PresentSpec(t);
    var q := InitialQueue(t);
    if |q| == 0 {
      forall b: Byte ensures t[b] == 0 {
        assert b !in Present(t);
      }
    } else {
      assert Present(t)[0] in Present(t);
      InitialQueueSpec(t);
      SeedSpec(q);
      MergeAllSpec(Seed(q));
    }
  }

  /** With one distinct byte the root is an internal node with that leaf on the
      left, no right child and the same count. */
  lemma {:induction false} OneSymbolRoot(t: seq<nat>, b: Byte)
    requires |t| == Slots
    requires t[b] != 0 && forall c: Byte :: c != b ==> t[c] == 0
    ensures HuffmanRoot(t) == Ok(Node(t[b], Leaf(t[b], b), None))
  {
    PresentSpec(t);
    var p := Present(t);
    assert b in p;
    forall k | 0 <= k < |p| ensures p[k] == b {
      assert p[k] in p;
    }
  }

  // ---------------------------------------------------------------------
  // The code table

  /** Every code in m, with one more bit in front. */
  function Prefixed(bit: Bit, m: map<Byte, seq<Bit>>): (r: map<Byte, seq<Bit>>)
    ensures r.Keys == m.Keys
    ensures forall b :: b in r ==> r[b] == [bit] + m[b]
  {
    map b | b in m :: [bit] + m[b]
  }

  /** The root-to-leaf path of every leaf value of t, 0 for a left step and 1
      for a right step; where two leaves carried the same value the right one
      would win, as the right subtree is filled after the left. */
  function Codes(t: Tree): map<Byte, seq<Bit>>
  {
    match t
    case Leaf(_, v) => map[v := []]
    case Node(_, l, None) => Prefixed(0, Codes(l))
    case Node(_, l, Some(r)) => Prefixed(0, Codes(l)) + Prefixed(1, Codes(r))
  }

  /** codes_[b]: the code of b, empty for a byte that is not in the tree. */
  function CodeOf(t: Tree, b: Byte): seq<Bit>
  {
    if b in Codes(t) then Codes(t)[b] else []
  }

  /** The number of nodes of a tree. */
  function Size(t: Tree): nat
  {
    match t
    case Leaf(_, _) => 1
    case Node(_, l, None) => 1 + Size(l)
    case Node(_, l, Some(r)) => 1 + Size(l) + Size(r)
  }

  /** The bytes that have a code are exactly the values of the leaves. */
  lemma {:induction false} CodesKeys(t: Tree)
    ensures forall l :: l in Leaves(t) ==> l.Leaf? && l.value in Codes(t)
    ensures forall b :: b in Codes(t) ==> exists l :: l in Leaves(t) && l.value == b
  {
    match t
    case Leaf(_, _) =>
    case Node(_, l, None) =>
      CodesKeys(l);
    case Node(_, l, Some(r)) =>
      CodesKeys(l);
      CodesKeys(r);
  }

  /** No code is a prefix of another byte's code. */
  lemma {:induction false} CodesPrefixFree(t: Tree)
    ensures forall b1, b2 :: b1 in Codes(t) && b2 in Codes(t) && b1 != b2 ==> !(Codes(t)[b1] <= Codes(t)[b2])
  {
    match t
    case Leaf(_, _) =>
    case Node(_, l, None) =>
      CodesPrefixFree(l);
      forall b1, b2 | b1 in Codes(t) && b2 in Codes(t) && b1 != b2
        ensures !(Codes(t)[b1] <= Codes(t)[b2])
      {
        PrefixedPrefix(0, Codes(l)[b1], Codes(l)[b2]);
      }
    case Node(_, l, Some(r)) =>
      CodesPrefixFree(l);
      CodesPrefixFree(r);
      var L, R := Codes(l), Codes(r);
      forall b1, b2 | b1 in Codes(t) && b2 in Codes(t) && b1 != b2
        ensures !(Codes(t)[b1] <= Codes(t)[b2])
      {
        var c1, c2 := Codes(t)[b1], Codes(t)[b2];
        if b1 in R && b2 in R {
          PrefixedPrefix(1, R[b1], R[b2]);
        } else if b1 !in R && b2 !in R {
          PrefixedPrefix(0, L[b1], L[b2]);
        } else {
          assert c1[0] != c2[0];
        }
      }
  }

  lemma PrefixedPrefix(bit: Bit, a: seq<Bit>, b: seq<Bit>)
    ensures ([bit] + a <= [bit] + b) <==> (a <= b)
  {
    if [bit] + a <= [bit] + b {
      assert a == ([bit] + a)[1..];
      assert b[..|a|] == ([bit] + b)[1..|a| + 1];
    }
  }

  // ---------------------------------------------------------------------
  // Decoding one bit at a time

  /** The child a code bit leads to: 1 goes right, 0 goes left; a leaf has none. */
  function Child(cur: Tree, bit: Bit): Option<Tree>
  {
    match cur
    case Leaf(_, _) => None
    case Node(_, l, r) => if bit != 0 then r else Some(l)
  }

  /** try_get_byte on the cursor cur: the new cursor and the byte found, if
      any. Reaching a leaf yields its value and sends the cursor back to the
      root; an absent right child leaves no cursor. */
  function Step(root: Tree, cur: Tree, bit: Bit): (Option<Tree>, Option<Byte>)
  {
    var next := Child(cur, bit);
    if next.Some? && next.value.Leaf? then (Some(root), Some(next.value.value))
    else (next, None)
  }

  function Prepend(p: seq<Byte>, r: Result<seq<Byte>>): Result<seq<Byte>>
  {
    if r.Err? then r else Ok(p + r.value)
  }

  /** The decode loop on a bit stream, from cursor cursor: every byte found, in
      order. Using a cursor that stepped off the tree again is an error; bits
      left over after the last complete code are dropped. */
  function Decode(root: Tree, cursor: Option<Tree>, bits: seq<Bit>): Result<seq<Byte>>
    decreases |bits|
  {
    if bits == [] then Ok([])
    else if cursor.None? then Err(NullChildDereference)
    else
      var (next, found) := Step(root, cursor.value, bits[0]);
      Prepend(if found.Some? then [found.value] else [], Decode(root, next, bits[1..]))
  }

  /** The codes of the bytes of s, in order. */
  function EncodeBits(root: Tree, s: seq<Byte>): seq<Bit>
  {
    if s == [] then [] else CodeOf(root, s[0]) + EncodeBits(root, s[1..])
  }

  lemma {:induction false} EncodeBitsAppend(root: Tree, s: seq<Byte>, b: Byte)
    ensures EncodeBits(root, s + [b]) == EncodeBits(root, s) + CodeOf(root, b)
  {
    if s == [] {
      assert [b][1..] == [];
    } else {
      assert (s + [b])[1..] == s[1..] + [b];
      EncodeBitsAppend(root, s[1..], b);
    }
  }

  /** The first bit of a code in sub leads to a child whose own code for the
      same byte is the rest. */
  lemma CodeStep(sub: Tree, b: Byte)
    requires sub.Node? && b in Codes(sub)
    ensures |Codes(sub)[b]| > 0
    ensures Child(sub, Codes(sub)[b][0]).Some?
    ensures b in Codes(Child(sub, Codes(sub)[b][0]).value)
    ensures Codes(sub)[b][1..] == Codes(Child(sub, Codes(sub)[b][0]).value)[b]
  {
    match sub
    case Node(_, l, None) =>
    case Node(_, l, Some(r)) =>
      if b !in Codes(r) {
        assert Codes(sub)[b] == [0] + Codes(l)[b];
      }
  }

  /** Walking the code of b down from the subtree sub finds b on the last bit
      and returns the cursor to the root. */
  lemma {:induction false} DecodeCode(root: Tree, sub: Tree, b: Byte, rest: seq<Bit>)
    requires sub.Node? && b in Codes(sub)
    ensures Decode(root, Some(sub), Codes(sub)[b] + rest) == Prepend([b], Decode(root, Some(root), rest))
    decreases sub
  {
    var code := Codes(sub)[b];
    CodeStep(sub, b);
    var child := Child(sub, code[0]).value;
    assert (code + rest)[0] == code[0] && (code + rest)[1..] == code[1..] + rest;
    if child.Node? {
      DecodeCode(root, child, b, rest);
      assert Step(root, sub, code[0]) == (Some(child), None);
      var r := Decode(root, Some(child), code[1..] + rest);
      assert Decode(root, Some(sub), code + rest) == Prepend([], r);
      assert r.Ok? ==> [] + r.value == r.value;
    } else {
      assert code[1..] == [];
    }
  }

  /** A proper prefix of a code finds nothing: try_get_byte returns false on
      every bit of a code but its last. */
  lemma {:induction false} DecodeCodePrefix(root: Tree, sub: Tree, b: Byte, k: nat)
    requires sub.Node? && b in Codes(sub) && k < |Codes(sub)[b]|
    ensures Decode(root, Some(sub), Codes(sub)[b][..k]) == Ok([])
    decreases sub
  {
    if k > 0 {
      var code := Codes(sub)[b];
      CodeStep(sub, b);
      var child := Child(sub, code[0]).value;
      assert code[..k][0] == code[0] && code[..k][1..] == code[1..][..k - 1];
      if child.Node? {
        DecodeCodePrefix(root, child, b, k - 1);
        assert Step(root, sub, code[0]) == (Some(child), None);
        var none: seq<Byte> := [];
        assert Decode(root, Some(child), code[1..][..k - 1]) == Ok(none);
        assert Decode(root, Some(sub), code[..k]) == Prepend(none, Ok(none));
        assert none + none == none;
      }
    }
  }

  /** Decoding the codes of a string of bytes that all have codes gives them
      back. */
  lemma {:induction false} DecodeEncode(root: Tree, s: seq<Byte>)
    requires root.Node?
    requires forall i :: 0 <= i < |s| ==> s[i] in Codes(root)
    ensures Decode(root, Some(root), EncodeBits(root, s)) == Ok(s)
  {
    if s != [] {
      DecodeEncode(root, s[1..]);
      DecodeCode(root, root, s[0], EncodeBits(root, s[1..]));
      assert [s[0]] + s[1..] == s;
    }
  }

  /** The code table of the one-symbol tree: its byte is coded as a single 0. */
  lemma OneSymbolCodes(f: nat, b: Byte)
    ensures Codes(Node(f, Leaf(f, b), None)).Keys == {b}
    ensures Codes(Node(f, Leaf(f, b), None))[b] == [0]
  {
    var m := Codes(Leaf(f, b));
    assert m == map[b := []];
    assert Codes(Node(f, Leaf(f, b), None)) == Prefixed(0, m);
    assert Prefixed(0, m).Keys == {b} && Prefixed(0, m)[b] == [0] + [];
  }

  /** The codes of the tree built from a table cover exactly its present bytes. */
  lemma {:induction false} RootCodes(t: seq<nat>)
    requires |t| == Slots
    requires HuffmanRoot(t).Ok?
    ensures forall b: Byte :: b in Codes(HuffmanRoot(t).value) <==> t[b] != 0
  {
    var root := HuffmanRoot(t).value;
    HuffmanRootSpec(t);
    CodesKeys(root);
    forall b: Byte ensures b in Codes(root) <==> t[b] != 0 {
      if t[b] != 0 {
        assert Leaves(root)[Leaf(t[b], b)] == 1;
      }
      if b in Codes(root) {
        var l :| l in Leaves(root) && l.value == b;
        assert Leaves(root)[l] == 1;
      }
    }
  }

  /** What fill_codes leaves in the slot of b, which held prior before: the
      path to b after current when node has a leaf for b. */
  function FilledCode(prior: seq<Bit>, node: Option<Tree>, current: seq<Bit>, b: Byte): seq<Bit>
  {
    if node.Some? && b in Codes(node.value) then current + Codes(node.value)[b] else prior
  }

  /** Filling the left subtree with current + [0] and then the right one with
      current + [1] fills the node with current. */
  lemma FilledNode(prior: seq<Bit>, node: Tree, current: seq<Bit>, b: Byte)
    requires node.Node?
    ensures FilledCode(FilledCode(prior, Some(node.left), current + [0], b), node.right, current + [1], b)
            == FilledCode(prior, Some(node), current, b)
  {
    var l, r := node.left, node.right;
    if r.Some? && b in Codes(r.value) {
      assert current + [1] + Codes(r.value)[b] == current + ([1] + Codes(r.value)[b]);
    } else if b in Codes(l) {
      assert current + [0] + Codes(l)[b] == current + ([0] + Codes(l)[b]);
    }
  }

  // ---------------------------------------------------------------------
  // The huffman_tree object

  /** A built tree with its code table and the decoder's cursor. The cursor
      is a static local in the source, shared by every tree; here it belongs
      to the object. */
  class HuffmanTree {
    const root: Tree
    const codes: array<seq<Bit>>
    var cursor: Option<Tree>

    /** The code table holds the code of every byte: its root-to-leaf path,
        empty when it is not in the tree. */
    ghost predicate Valid()
      reads this, codes
    {
      && root.Node?
      && codes.Length == Slots
      && forall b: Byte :: codes[b] == CodeOf(root, b)
    }

    /** huffman_tree(map): build the root, or fail on a table with no nonzero
        count, then fill the code table. */
    static method Build(table: FreqMap) returns (r: Result<HuffmanTree>)
      requires table.Valid()
      ensures r.Err? <==> HuffmanRoot(table.freq).Err?
      ensures r.Err? ==> r.error == ZeroUniqueBytes
      ensures r.Ok? ==> && fresh(r.value) && fresh(r.value.codes) && r.value.Valid()
                        && r.value.root == HuffmanRoot(table.freq).value
                        && r.value.cursor == Some(r.value.root)
    {
      var root := BuildRoot(table);
      if root.Err? {
        return Err(root.error);
      }
      var tree := new HuffmanTree(root.value);
      return Ok(tree);
    }

    /** The rest of the constructor once the queue holds the root: allocate
        256 empty codes and fill them from the root. */
    constructor (r: Tree)
      requires r.Node?
      ensures root == r && cursor == Some(r) && fresh(codes)
      ensures Valid()
    {
      root := r;
      cursor := Some(r);
      codes := new seq<Bit>[Slots](_ => []);
      new;
      FillCodes(Some(r), []);
      forall b: Byte ensures codes[b] == CodeOf(r, b) {
        if b in Codes(r) {
          assert [] + Codes(r)[b] == Codes(r)[b];
        }
      }
    }

    /** fill_codes: give every leaf below node the path that leads to it,
        after current; nothing else changes. */
    method FillCodes(node: Option<Tree>, current: seq<Bit>)
      requires codes.Length == Slots
      modifies codes
      ensures forall b: Byte :: codes[b] == FilledCode(old(codes[b]), node, current, b)
      decreases if node.Some? then Size(node.value) else 0
    {
      if node.None? {
        return;
      }
      match node.value
      case Leaf(_, v) =>
        codes[v] := current;
      case Node(_, l, r) =>
        var cpy := current;
        ghost var before := codes[..];
        FillCodes(Some(l), current + [0]);
        ghost var mid := codes[..];
        assert forall b: Byte :: mid[b] == FilledCode(before[b], Some(l), current + [0], b);
        FillCodes(r, cpy + [1]);
        forall b: Byte ensures codes[b] == FilledCode(before[b], node, current, b) {
          FilledNode(before[b], node.value, current, b);
        }
    }

    /** try_get_byte: step the cursor by one code bit; on reaching a leaf,
        yield its byte and go back to the root. */
    method TryGetByte(codeBit: Bit) returns (found: bool, byte: Byte)
      requires Valid() && cursor.Some?
      modifies this
      ensures Valid()
      ensures (cursor, if found then Some(byte) else None) == Step(root, old(cursor).value, codeBit)
    {
      cursor := Child(cursor.value, codeBit);
      if cursor.Some? && cursor.value.Leaf? {
        byte := cursor.value.value;
        cursor := Some(root);
        return true, byte;
      }
      return false, 0;
    }
  }
}
