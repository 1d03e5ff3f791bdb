/** HuffmanTree.java: a Huffman code tree whose nodes carry a character and a
  * frequency. A node with two null children is a leaf. The tree owns its
  * nodes exclusively, so a node is modelled by its value and a null reference
  * by Nil. */
module HuffmanTree {
  import opened Common

  /** Character of the end-of-file leaf (frequency 1). */
  const EOF: int := 256

  /** Character given to every branch node that the count constructor merges. */
  const BRANCH: int := 32

  datatype Node = Nil | Node(character: int, frequency: int, left: Node, right: Node)

  /** new HuffmanNode(): character 0, frequency 0, no children. */
  function Blank(): Node
  {
    Node(0, 0, Nil, Nil)
  }

  /** HuffmanNode.endOfTree: both children are null. */
  predicate EndOfTree(n: Node)
    requires n.Node?
  {
    n.left.Nil? && n.right.Nil?
  }

  /** The node reached from t by following route p (Nil once it leaves the tree). */
  function At(t: Node, p: Route): Node
  {
    if p == [] then t
    else if t.Nil? then Nil
    else At(if p[0] == 0 then t.left else t.right, p[1..])
  }

  /** A leaf of t sits at route p. */
  ghost predicate LeafAt(t: Node, p: Route)
  {
    At(t, p).Node? && EndOfTree(At(t, p))
  }

  /** A full binary tree: every node is a leaf or has two children. */
  ghost predicate Full(t: Node)
  {
    match t
    case Nil => false
    case Node(_, _, l, r) => (l.Nil? && r.Nil?) || (Full(l) && Full(r))
  }

  /** Every branch node is a merge: character BRANCH, frequency the sum of
    * its two children's. */
  ghost predicate Merged(t: Node)
  {
    match t
    case Nil => true
    case Node(c, f, l, r) =>
      (l.Nil? && r.Nil?) ||
      (l.Node? && r.Node? && c == BRANCH && f == l.frequency + r.frequency && Merged(l) && Merged(r))
  }

  /** The (character, frequency) pairs of the leaves. */
  ghost function Leaves(t: Node): multiset<(int, int)>
  {
    match t
    case Nil => multiset{}
    case Node(c, f, l, r) => if l.Nil? && r.Nil? then multiset{(c, f)} else Leaves(l) + Leaves(r)
  }

  ghost function LeafCount(t: Node): nat
  {
    match t
    case Nil => 0
    case Node(_, _, l, r) => if l.Nil? && r.Nil? then 1 else LeafCount(l) + LeafCount(r)
  }

  ghost function BranchCount(t: Node): nat
  {
    match t
    case Nil => 0
    case Node(_, _, l, r) => if l.Nil? && r.Nil? then 0 else 1 + BranchCount(l) + BranchCount(r)
  }

  /** A full tree with N leaves has N - 1 branch nodes. */
  lemma {:induction false} FullBranchCount(t: Node)
    requires Full(t)
    ensures BranchCount(t) == LeafCount(t) - 1
  {
    if !EndOfTree(t) {
      FullBranchCount(t.left);
      FullBranchCount(t.right);
    }
  }

  lemma {:induction false} AtNil(p: Route)
    ensures At(Nil, p) == Nil
  {
  }

  lemma {:induction false} AtConcat(t: Node, p: Route, q: Route)
    ensures At(t, p + q) == At(At(t, p), q)
  {
    if p == [] {
      assert p + q == q;
    } else {
      if t.Nil? {
        AtNil(q);
      } else {
        assert (p + q)[0] == p[0] && (p + q)[1..] == p[1..] + q;
        AtConcat(if p[0] == 0 then t.left else t.right, p[1..], q);
      }
    }
  }

  // ---------------------------------------------------------------------
  // The count constructor

  datatype BuildError = NoCharacters

  /** The leaves offered for count[..k]: one (i, count[i]) per positive count. */
  ghost function CountLeaves(count: seq<int>, k: nat): multiset<(int, int)>
    requires k <= |count|
  {
    if k == 0 then multiset{}
    else CountLeaves(count, k - 1) + (if count[k - 1] > 0 then multiset{(k - 1, count[k - 1])} else multiset{})
  }

  /** The sum of the positive counts in count[..k]. */
  ghost function PositiveTotal(count: seq<int>, k: nat): int
    requires k <= |count|
  {
    if k == 0 then 0 else PositiveTotal(count, k - 1) + (if count[k - 1] > 0 then count[k - 1] else 0)
  }

  /** The leaves a queue of trees holds. */
  ghost function QueueLeaves(q: seq<Node>): multiset<(int, int)>
  {
    if q == [] then multiset{} else QueueLeaves(q[..|q| - 1]) + Leaves(q[|q| - 1])
  }

  /** The sum of the root frequencies of a queue of trees. */
  ghost function QueueTotal(q: seq<Node>): int
  {
    if q == [] then 0 else QueueTotal(q[..|q| - 1]) + (if q[|q| - 1].Node? then q[|q| - 1].frequency else 0)
  }

  /** The keys the priority queue orders its nodes by (HuffmanNode.compareTo). */
  function Frequencies(q: seq<Node>): (keys: seq<int>)
    ensures |keys| == |q|
    ensures forall j :: 0 <= j < |q| ==> keys[j] == if q[j].Node? then q[j].frequency else 0
  {
    seq(|q|, j requires 0 <= j < |q| => if q[j].Node? then q[j].frequency else 0)
  }

  lemma {:induction false} QueueConcat(a: seq<Node>, b: seq<Node>)
    ensures QueueLeaves(a + b) == QueueLeaves(a) + QueueLeaves(b)
    ensures QueueTotal(a + b) == QueueTotal(a) + QueueTotal(b)
    decreases |b|
  {
    if b != [] {
      assert (a + b)[..|a + b| - 1] == a + b[..|b| - 1];
      QueueConcat(a, b[..|b| - 1]);
    } else {
      assert a + b == a;
    }
  }

  /** Taking the node at position i out of the queue. */
  lemma QueueRemove(q: seq<Node>, i: nat)
    requires i < |q|
    ensures QueueLeaves(q) == QueueLeaves(q[..i] + q[i + 1..]) + Leaves(q[i])
    ensures QueueTotal(q) == QueueTotal(q[..i] + q[i + 1..]) + (if q[i].Node? then q[i].frequency else 0)
  {
    var a, x, c := q[..i], q[i], q[i + 1..];
    SplitAt(q, i);
    QueueConcat(a + [x], c);
    QueueConcat(a, [x]);
    QueueConcat(a, c);
    QueueSingle(x);
  }

  lemma QueueSingle(x: Node)
    ensures QueueLeaves([x]) == Leaves(x)
    ensures QueueTotal([x]) == if x.Node? then x.frequency else 0
  {
    assert [x][..0] == [];
  }

  /** Every tree in the queue is full and merged. */
  ghost predicate Built(q: seq<Node>)
  {
    forall j :: 0 <= j < |q| ==> Full(q[j]) && Merged(q[j])
  }

  /** queue.offer(x). */
  lemma Offer(q: seq<Node>, x: Node)
    requires Built(q) && Full(x) && Merged(x)
    ensures Built(q + [x])
    ensures QueueLeaves(q + [x]) == QueueLeaves(q) + Leaves(x)
    ensures QueueTotal(q + [x]) == QueueTotal(q) + x.frequency
  {
    assert (q + [x])[..|q + [x]| - 1] == q;
    assert forall j :: 0 <= j < |q + [x]| ==> (q + [x])[j] == if j < |q| then q[j] else x;
  }

  /** queue.remove(): takes out a node of least frequency. */
  method RemoveLeast(q: seq<Node>) returns (m: Node, rest: seq<Node>)
    requires |q| > 0 && Built(q)
    ensures Full(m) && Merged(m) && Built(rest) && |rest| == |q| - 1
    ensures forall j :: 0 <= j < |q| ==> m.frequency <= q[j].frequency
    ensures multiset(rest) + multiset{m} == multiset(q)
    ensures QueueLeaves(q) == QueueLeaves(rest) + Leaves(m)
    ensures QueueTotal(q) == QueueTotal(rest) + m.frequency
  {
    var keys := Frequencies(q);
    var i := IndexOfMin(keys);
    assert forall j :: 0 <= j < |q| ==> keys[j] == q[j].frequency by {
      assert forall j :: 0 <= j < |q| ==> q[j].Node?;
    }
    m := q[i];
    rest := q[..i] + q[i + 1..];
    QueueRemove(q, i);
    BuiltRemove(q, i);
    RemoveAt(q, i);
  }

  lemma BuiltRemove(q: seq<Node>, i: nat)
    requires i < |q| && Built(q)
    ensures Built(q[..i] + q[i + 1..])
  {
    var rest := q[..i] + q[i + 1..];
    forall j | 0 <= j < |rest|
      ensures Full(rest[j]) && Merged(rest[j])
    {
      assert rest[j] == if j < i then q[j] else q[j + 1];
    }
  }

  /** The queue holds exactly what the count constructor offers for count[..i]. */
  ghost predicate Offered(q: seq<Node>, count: seq<int>, i: nat)
    requires i <= |count|
  {
    Built(q) && QueueLeaves(q) == CountLeaves(count, i) && QueueTotal(q) == PositiveTotal(count, i)
  }

  /** Before the loop nothing is offered. */
  lemma OfferNone(count: seq<int>)
    ensures Offered([], count, 0)
  {
  }

  /** Offering the leaf for a positive count[i] keeps the queue in step with count[..i + 1]. */
  lemma OfferCount(count: seq<int>, i: nat, q: seq<Node>)
    requires i < |count| && count[i] > 0 && Offered(q, count, i)
    ensures Offered(q + [Node(i, count[i], Nil, Nil)], count, i + 1)
  {
    var leaf := Node(i, count[i], Nil, Nil);
    assert Leaves(leaf) == multiset{(i, count[i])};
    Offer(q, leaf);
  }

  /** A count that is not positive offers nothing. */
  lemma SkipCount(count: seq<int>, i: nat, q: seq<Node>)
    requires i < |count| && count[i] <= 0 && Offered(q, count, i)
    ensures Offered(q, count, i + 1)
  {
  }

  /** Offering the EOF leaf after the last count. */
  lemma OfferEof(q: seq<Node>, count: seq<int>)
    requires Offered(q, count, |count|)
    ensures Built(q + [Node(EOF, 1, Nil, Nil)])
    ensures QueueLeaves(q + [Node(EOF, 1, Nil, Nil)]) == CountLeaves(count, |count|) + multiset{(EOF, 1)}
    ensures QueueTotal(q + [Node(EOF, 1, Nil, Nil)]) == PositiveTotal(count, |count|) + 1
  {
    var eof := Node(EOF, 1, Nil, Nil);
    assert Leaves(eof) == multiset{(EOF, 1)};
    Offer(q, eof);
  }

  /** The queue the count constructor fills before merging: one leaf per
    * positive count, then the EOF leaf. */
  method OfferLeaves(count: seq<int>) returns (q: seq<Node>)
    ensures |q| >= 1 && Built(q)
    ensures QueueLeaves(q) == CountLeaves(count, |count|) + multiset{(EOF, 1)}
    ensures QueueTotal(q) == PositiveTotal(count, |count|) + 1
  {
    q := [];
    var i := 0;
    OfferNone(count);
    while i < |count|
      invariant i <= |count| && Offered(q, count, i)
    {
      if count[i] > 0 {
        OfferCount(count, i, q);
        q := q + [Node(i, count[i], Nil, Nil)];
      } else {
        SkipCount(count, i, q);
      }
      i := i + 1;
    }
    OfferEof(q, count);
    q := q + [Node(EOF, 1, Nil, Nil)];
  }

  /** new HuffmanNode(32, sum, left, right): the branch node over two trees. */
  function Merge(left: Node, right: Node): (b: Node)
    requires Full(left) && Merged(left) && Full(right) && Merged(right)
    ensures Full(b) && Merged(b) && !EndOfTree(b)
    ensures Leaves(b) == Leaves(left) + Leaves(right)
    ensures b.frequency == left.frequency + right.frequency
  {
    Node(BRANCH, left.frequency + right.frequency, left, right)
  }

  /** HuffmanTree(int[] count): rejects an empty array; otherwise merges the
    * offered leaves, two least-frequent nodes at a time, into one tree. */
  method Build(count: seq<int>) returns (r: Result<Node, BuildError>)
    ensures r.Err? <==> |count| == 0
    ensures r.Ok? ==> Full(r.value) && Merged(r.value)
    ensures r.Ok? ==> Leaves(r.value) == CountLeaves(count, |count|) + multiset{(EOF, 1)}
    ensures r.Ok? ==> r.value.frequency == PositiveTotal(count, |count|) + 1
  {
    if |count| == 0 {
      return Err(NoCharacters);
    }
    var q := OfferLeaves(count);
    var root := MergeAll(q);
    r := Ok(root);
  }

  /** One merge iteration: the two removed trees come back as one, so the
    * queue keeps its leaves and its total. */
  lemma MergeStep(q: seq<Node>, left: Node, q1: seq<Node>, right: Node, q2: seq<Node>)
    requires Full(left) && Merged(left) && Full(right) && Merged(right) && Built(q2)
    requires QueueLeaves(q) == QueueLeaves(q1) + Leaves(left) && QueueTotal(q) == QueueTotal(q1) + left.frequency
    requires QueueLeaves(q1) == QueueLeaves(q2) + Leaves(right) && QueueTotal(q1) == QueueTotal(q2) + right.frequency
    ensures Built(q2 + [Merge(left, right)])
    ensures QueueLeaves(q2 + [Merge(left, right)]) == QueueLeaves(q)
    ensures QueueTotal(q2 + [Merge(left, right)]) == QueueTotal(q)
  {
    Offer(q2, Merge(left, right));
  }

  /** The merge loop: while more than one node is queued, remove the two
    * least-frequent ones and offer their branch node; the last node is the root. */
  method MergeAll(q0: seq<Node>) returns (root: Node)
    requires |q0| >= 1 && Built(q0)
    ensures Full(root) && Merged(root)
    ensures Leaves(root) == QueueLeaves(q0)
    ensures root.frequency == QueueTotal(q0)
  {
    var q := q0;
    while |q| > 1
      invariant |q| >= 1 && Built(q)
      invariant QueueLeaves(q) == QueueLeaves(q0) && QueueTotal(q) == QueueTotal(q0)
    {
      var left, right, q1, q2;
      left, q1 := RemoveLeast(q);
      right, q2 := RemoveLeast(q1);
      MergeStep(q, left, q1, right, q2);
      q := q2 + [Merge(left, right)];
    }
    root := q[0];
    QueueSingle(root);
    assert q == [root];
  }

  /** The multiset of offered leaves holds (i, count[i]) once for each
    * positive count and nothing else. */
  lemma {:induction false} CountLeavesAt(count: seq<int>, k: nat, c: int, f: int)
    requires k <= |count|
    ensures CountLeaves(count, k)[(c, f)] == if 0 <= c < k && count[c] > 0 && f == count[c] then 1 else 0
  {
    if k > 0 {
      CountLeavesAt(count, k - 1, c, f);
    }
  }

  /** For an alphabet of at most 256 characters the built tree's leaves hold
    * each positive-count character once and exactly one EOF leaf, of frequency 1. */
  lemma OfferedLeaves(count: seq<int>, c: int, f: int)
    requires |count| <= EOF
    ensures (CountLeaves(count, |count|) + multiset{(EOF, 1)})[(c, f)] ==
      if c == EOF then (if f == 1 then 1 else 0)
      else if 0 <= c < |count| && count[c] > 0 && f == count[c] then 1 else 0
  {
    CountLeavesAt(count, |count|, c, f);
  }

  // ---------------------------------------------------------------------
  // write / binaryEncoding

  /** binaryEncoding(node, s): the (character, route) records of the leaves
    * below node in left-to-right preorder, s put in front of each route; None
    * where it dereferences a null node. */
  function Write(t: Node, s: Route): Option<seq<Record>>
  {
    match t
    case Nil => None
    case Node(c, _, l, r) =>
      if l.Nil? && r.Nil? then Some([(c, s)])
      else
        var wl := Write(l, s + [0]);
        var wr := Write(r, s + [1]);
        if wl.Some? && wr.Some? then Some(wl.value + wr.value) else None
  }

  /** write succeeds exactly on full trees. */
  lemma {:induction false} WriteDefined(t: Node, s: Route)
    ensures Write(t, s).Some? <==> Full(t)
    ensures Write(t, s).Some? ==> |Write(t, s).value| == LeafCount(t) >= 1
  {
    if t.Node? && !EndOfTree(t) {
      WriteDefined(t.left, s + [0]);
      WriteDefined(t.right, s + [1]);
    }
  }

  /** Every written record is a leaf of the tree at its route, behind s. */
  lemma {:induction false} WriteListsLeaves(t: Node, s: Route)
    requires Write(t, s).Some?
    ensures forall i :: 0 <= i < |Write(t, s).value| ==>
      var (c, code) := Write(t, s).value[i];
      s <= code && LeafAt(t, code[|s|..]) && At(t, code[|s|..]).character == c
  {
    var recs := Write(t, s).value;
    if !EndOfTree(t) {
      var sl, sr := s + [0], s + [1];
      WriteListsLeaves(t.left, sl);
      WriteListsLeaves(t.right, sr);
      var wl := Write(t.left, sl).value;
      forall i | 0 <= i < |recs|
        ensures var (c, code) := recs[i]; s <= code && LeafAt(t, code[|s|..]) && At(t, code[|s|..]).character == c
      {
        var (c, code) := recs[i];
        var sb := if i < |wl| then sl else sr;
        assert sb <= code;
        assert code[|s|..] == [sb[|s|]] + code[|sb|..];
      }
    } else {
      assert recs[0].1[|s|..] == [];
    }
  }

  /** Every leaf of the tree appears among the written records, with its route. */
  lemma {:induction false} WriteListsEveryLeaf(t: Node, s: Route, p: Route)
    requires Write(t, s).Some? && LeafAt(t, p)
    ensures (At(t, p).character, s + p) in Write(t, s).value
  {
    if p == [] {
      if !EndOfTree(t) {
        assert false;
      }
      assert s + p == s;
    } else {
      if EndOfTree(t) {
        AtNil(p[1..]);
        assert false;
      }
      var b := p[0];
      WriteListsEveryLeaf(if b == 0 then t.left else t.right, s + [b], p[1..]);
      assert (s + [b]) + p[1..] == s + p;
    }
  }

  /** The written routes are prefix-free: no route starts another. */
  lemma {:induction false} WritePrefixFree(t: Node, s: Route)
    requires Write(t, s).Some?
    ensures PrefixFree(Write(t, s).value)
  {
    if !EndOfTree(t) {
      var sl, sr := s + [0], s + [1];
      WritePrefixFree(t.left, sl);
      WritePrefixFree(t.right, sr);
      WriteListsLeaves(t.left, sl);
      WriteListsLeaves(t.right, sr);
      var wl, wr := Write(t.left, sl).value, Write(t.right, sr).value;
      var recs := wl + wr;
      forall i, j | 0 <= i < |recs| && 0 <= j < |recs| && i != j
        ensures !(recs[i].1 <= recs[j].1)
      {
        if i < |wl| && j < |wl| {
          assert recs[i] == wl[i] && recs[j] == wl[j];
        } else if i >= |wl| && j >= |wl| {
          assert recs[i] == wr[i - |wl|] && recs[j] == wr[j - |wl|];
        } else {
          if i < |wl| {
            assert recs[i] == wl[i] && recs[j] == wr[j - |wl|];
            ForkedRoutes(s, recs[i].1, recs[j].1);
          } else {
            assert recs[j] == wl[j] && recs[i] == wr[i - |wl|];
            ForkedRoutes(s, recs[j].1, recs[i].1);
          }
        }
      }
    }
  }

  /** Writing below route s is writing below the root with s put in front. */
  lemma {:induction false} WriteShift(t: Node, s: Route)
    requires Write(t, []).Some?
    ensures Write(t, s).Some? && Write(t, s).value == Prepend(s, Write(t, []).value)
  {
    WriteDefined(t, []);
    WriteDefined(t, s);
    var empty: Route := [];
    assert empty + [0] == [0] && empty + [1] == [1];
    if !EndOfTree(t) {
      WriteDefined(t.left, []);
      WriteDefined(t.right, []);
      WriteShift(t.left, [0]);
      WriteShift(t.left, s + [0]);
      WriteShift(t.right, [1]);
      WriteShift(t.right, s + [1]);
      var wl, wr := Write(t.left, []).value, Write(t.right, []).value;
      PrependConcat(s, Prepend([0], wl), Prepend([1], wr));
      PrependTwice(s, [0], wl);
      PrependTwice(s, [1], wr);
    } else {
      assert s + [] == s;
    }
  }

  // ---------------------------------------------------------------------
  // HuffmanTree(Scanner): putRoot for the first record, helper for the rest

  datatype ReadError = EmptyCode | MissingCodeLine

  /** The node a record line creates: character n, frequency n. */
  function RecordLeaf(n: int): Node
  {
    Node(n, n, Nil, Nil)
  }

  /** temp with node hung below it on side b. */
  function Hang(b: bit, node: Node): Node
  {
    if b == 0 then Node(0, 0, node, Nil) else Node(0, 0, Nil, node)
  }

  /** putRoot(node, code): builds the route bottom-up, from its last character
    * to its first, hanging each new node below a fresh one. */
  function PutRoot(node: Node, code: Route): Node
    requires |code| >= 1
    decreases |code|
  {
    var temp := Hang(code[|code| - 1], node);
    if |code| == 1 then temp else PutRoot(temp, code[..|code| - 1])
  }

  /** helper(parent, node, code): walks the route from parent, creating a blank
    * node where a child is null, and stores node at the route's last step. */
  function Helper(parent: Node, node: Node, code: Route): (r: Node)
    requires parent.Node? && |code| >= 1
    ensures r.Node? && r.character == parent.character && r.frequency == parent.frequency
    decreases |code|
  {
    if |code| == 1 then
      if code[0] == 0 then parent.(left := node) else parent.(right := node)
    else if code[0] == 0 then
      parent.(left := Helper(if parent.left.Nil? then Blank() else parent.left, node, code[1..]))
    else
      parent.(right := Helper(if parent.right.Nil? then Blank() else parent.right, node, code[1..]))
  }

  /** helper stores node at the route's end. */
  lemma {:induction false} HelperPlaces(parent: Node, node: Node, code: Route)
    requires parent.Node? && |code| >= 1
    ensures At(Helper(parent, node, code), code) == node
    decreases |code|
  {
    if |code| > 1 {
      var b := code[0];
      var child := if b == 0 then parent.left else parent.right;
      HelperPlaces(if child.Nil? then Blank() else child, node, code[1..]);
    }
  }

  /** helper leaves every subtree off the route unchanged. */
  lemma {:induction false} HelperKeepsOthers(parent: Node, node: Node, code: Route, p: Route)
    requires parent.Node? && |code| >= 1
    requires !(p <= code) && !(code <= p)
    ensures At(Helper(parent, node, code), p) == At(parent, p)
    decreases |code|
  {
    var b := code[0];
    assert p != [];
    if p[0] == b && |code| > 1 {
      var child := if b == 0 then parent.left else parent.right;
      var c := if child.Nil? then Blank() else child;
      assert !(p[1..] <= code[1..]) && !(code[1..] <= p[1..]);
      HelperKeepsOthers(c, node, code[1..], p[1..]);
      if child.Nil? {
        AtNil(p[1..][1..]);
        AtNil(p[1..]);
      }
    }
  }

  /** Along the route helper keeps each existing node (its character and
    * frequency) and creates blank nodes only where a child was null. */
  lemma {:induction false} HelperAlongRoute(parent: Node, node: Node, code: Route, p: Route)
    requires parent.Node? && |code| >= 1
    requires p < code
    ensures At(Helper(parent, node, code), p).Node?
    ensures At(parent, p).Node? ==>
      At(Helper(parent, node, code), p).character == At(parent, p).character &&
      At(Helper(parent, node, code), p).frequency == At(parent, p).frequency
    ensures At(parent, p).Nil? ==>
      At(Helper(parent, node, code), p).character == 0 && At(Helper(parent, node, code), p).frequency == 0
    decreases |code|
  {
    if p != [] {
      var b := code[0];
      var child := if b == 0 then parent.left else parent.right;
      var c := if child.Nil? then Blank() else child;
      assert p[0] == b;
      assert p[1..] < code[1..];
      HelperAlongRoute(c, node, code[1..], p[1..]);
      if child.Nil? {
        if p[1..] != [] {
          AtNil(p[1..][1..]);
        }
        AtNil(p[1..]);
      }
    }
  }

  /** Routes with blank nodes only, and node at the end. */
  lemma {:induction false} HelperBlankExtend(node: Node, code: Route, b: bit)
    requires |code| >= 1
    ensures Helper(Blank(), node, code + [b]) == Helper(Blank(), Hang(b, node), code)
    decreases |code|
  {
    if |code| > 1 {
      assert (code + [b])[1..] == code[1..] + [b];
      HelperBlankExtend(node, code[1..], b);
    } else {
      assert (code + [b])[1..] == [b];
    }
  }

  /** putRoot, building the route backwards, makes the tree helper would make
    * from a blank root: node at the route's end, blank nodes along it. */
  lemma {:induction false} PutRootAsHelper(node: Node, code: Route)
    requires |code| >= 1
    ensures PutRoot(node, code) == Helper(Blank(), node, code)
    decreases |code|
  {
    if |code| > 1 {
      var init, b := code[..|code| - 1], code[|code| - 1];
      PutRootAsHelper(Hang(b, node), init);
      HelperBlankExtend(node, init, b);
      assert init + [b] == code;
    }
  }

  /** The Scanner constructor's loop from the current root over the remaining
    * records: putRoot while the root is null, helper afterwards. */
  function Insert(root: Node, recs: seq<Record>): Result<Node, ReadError>
    decreases |recs|
  {
    if recs == [] then Ok(root)
    else if recs[0].1 == [] then Err(EmptyCode)
    else
      var node := RecordLeaf(recs[0].0);
      Insert(if root.Nil? then PutRoot(node, recs[0].1) else Helper(root, node, recs[0].1), recs[1..])
  }

  /** The tree the Scanner constructor builds from a code file. A route line
    * that is missing after a symbol line is an error. */
  function Rebuild(file: CodeFile): Result<Node, ReadError>
  {
    match Insert(Nil, file.records)
    case Err(e) => Err(e)
    case Ok(t) => if file.unpaired then Err(MissingCodeLine) else Ok(t)
  }

  /** HuffmanTree(Scanner input). */
  method ReadCodeFile(file: CodeFile) returns (r: Result<Node, ReadError>)
    ensures r == Rebuild(file)
  {
    var root := Nil;
    var k := 0;
    while k < |file.records|
      invariant k <= |file.records|
      invariant Insert(Nil, file.records) == Insert(root, file.records[k..])
    {
      var (n, code) := file.records[k];
      assert file.records[k..][1..] == file.records[k + 1..];
      if code == [] {
        return Err(EmptyCode);
      }
      var node := RecordLeaf(n);
      if root.Nil? {
        root := PutRoot(node, code);
      } else {
        root := Helper(root, node, code);
      }
      k := k + 1;
    }
    if file.unpaired {
      return Err(MissingCodeLine);
    }
    return Ok(root);
  }

  // The round trip write -> Scanner constructor.

  /** The tree a rebuild produces: branch nodes blank, each leaf's frequency
    * equal to its character. */
  ghost function Relabel(t: Node): Node
  {
    match t
    case Nil => Nil
    case Node(c, _, l, r) => if l.Nil? && r.Nil? then RecordLeaf(c) else Node(0, 0, Relabel(l), Relabel(r))
  }

  /** What a rebuild leaves in a child slot that held c, after placing node at
    * route q below that slot. */
  ghost function Put(c: Node, node: Node, q: Route): Node
  {
    if q == [] then node else Helper(if c.Nil? then Blank() else c, node, q)
  }

  ghost function PutAll(c: Node, recs: seq<Record>): Node
    decreases |recs|
  {
    if recs == [] then c else PutAll(Put(c, RecordLeaf(recs[0].0), recs[0].1), recs[1..])
  }

  /** helper over several records, all with non-empty routes. */
  ghost function HelperAll(t: Node, recs: seq<Record>): (r: Node)
    requires t.Node? && forall i :: 0 <= i < |recs| ==> recs[i].1 != []
    ensures r.Node?
    decreases |recs|
  {
    if recs == [] then t else HelperAll(Helper(t, RecordLeaf(recs[0].0), recs[0].1), recs[1..])
  }

  lemma {:induction false} HelperAllConcat(t: Node, a: seq<Record>, b: seq<Record>)
    requires t.Node? && forall i :: 0 <= i < |a + b| ==> (a + b)[i].1 != []
    ensures forall i :: 0 <= i < |a| ==> a[i].1 != []
    ensures forall i :: 0 <= i < |b| ==> b[i].1 != []
    ensures HelperAll(t, a + b) == HelperAll(HelperAll(t, a), b)
    decreases |a|
  {
    assert forall i :: 0 <= i < |a| ==> a[i] == (a + b)[i];
    assert forall i :: 0 <= i < |b| ==> b[i] == (a + b)[|a| + i];
    if a != [] {
      assert (a + b)[1..] == a[1..] + b;
      HelperAllConcat(Helper(t, RecordLeaf(a[0].0), a[0].1), a[1..], b);
    } else {
      assert a + b == b;
    }
  }

  /** From a non-null root, the loop only calls helper. */
  lemma {:induction false} InsertFromRoot(t: Node, recs: seq<Record>)
    requires t.Node? && forall i :: 0 <= i < |recs| ==> recs[i].1 != []
    ensures Insert(t, recs) == Ok(HelperAll(t, recs))
    decreases |recs|
  {
    if recs != [] {
      InsertFromRoot(Helper(t, RecordLeaf(recs[0].0), recs[0].1), recs[1..]);
    }
  }

  /** Placing records that all start with b fills child b from what it held. */
  lemma {:induction false} HelperAllOneSide(t: Node, b: bit, recs: seq<Record>)
    requires t.Node?
    ensures forall i :: 0 <= i < |Prepend([b], recs)| ==> Prepend([b], recs)[i].1 != []
    ensures HelperAll(t, Prepend([b], recs)) ==
      if b == 0 then t.(left := PutAll(t.left, recs)) else t.(right := PutAll(t.right, recs))
    decreases |recs|
  {
    if recs != [] {
      var pr := Prepend([b], recs);
      var code := [b] + recs[0].1;
      assert pr[0].1 == code && code[1..] == recs[0].1 && pr[1..] == Prepend([b], recs[1..]);
      var t1 := Helper(t, RecordLeaf(recs[0].0), code);
      assert t1 == if b == 0 then t.(left := Put(t.left, RecordLeaf(recs[0].0), recs[0].1))
                   else t.(right := Put(t.right, RecordLeaf(recs[0].0), recs[0].1));
      HelperAllOneSide(t1, b, recs[1..]);
    }
  }

  /** A slot filled by records with non-empty routes is filled by helper from
    * the slot's node, or a blank one if it was null. */
  lemma {:induction false} PutAllAsHelperAll(c: Node, recs: seq<Record>)
    requires recs != [] && forall i :: 0 <= i < |recs| ==> recs[i].1 != []
    ensures PutAll(c, recs) == HelperAll(if c.Nil? then Blank() else c, recs)
    decreases |recs|
  {
    var c1 := Put(c, RecordLeaf(recs[0].0), recs[0].1);
    assert c1.Node?;
    if |recs| > 1 {
      PutAllAsHelperAll(c1, recs[1..]);
    }
  }

  /** Rebuilding a null slot from the records a full tree writes gives that
    * tree, relabelled. */
  lemma {:induction false} PutAllWritten(t: Node)
    requires Full(t)
    ensures Write(t, []).Some? && PutAll(Nil, Write(t, []).value) == Relabel(t)
  {
    WriteDefined(t, []);
    if !EndOfTree(t) {
      WrittenRoutesNonEmpty(t);
      WriteDefined(t.left, []);
      WriteDefined(t.right, []);
      WriteShift(t.left, [0]);
      WriteShift(t.right, [1]);
      var wl, wr := Write(t.left, []).value, Write(t.right, []).value;
      var pl, pr := Prepend([0], wl), Prepend([1], wr);
      var empty: Route := [];
      assert empty + [0] == [0] && empty + [1] == [1];
      assert Write(t, []).value == pl + pr;
      PutAllAsHelperAll(Nil, pl + pr);
      HelperAllConcat(Blank(), pl, pr);
      HelperAllOneSide(Blank(), 0, wl);
      PutAllWritten(t.left);
      var mid := HelperAll(Blank(), pl);
      assert mid == Node(0, 0, Relabel(t.left), Nil);
      HelperAllOneSide(mid, 1, wr);
      PutAllWritten(t.right);
      assert HelperAll(mid, pr) == Node(0, 0, Relabel(t.left), Relabel(t.right));
    }
  }

  /** All routes of a tree whose root is a branch node are non-empty. */
  lemma WrittenRoutesNonEmpty(t: Node)
    requires Full(t) && !EndOfTree(t)
    ensures Write(t, []).Some? && forall i :: 0 <= i < |Write(t, []).value| ==> Write(t, []).value[i].1 != []
  {
    WriteDefined(t, []);
    WriteListsLeaves(t, []);
    forall i | 0 <= i < |Write(t, []).value|
      ensures Write(t, []).value[i].1 != []
    {
      var code := Write(t, []).value[i].1;
      assert code[0..] == code;
    }
  }

  /** Relabelling changes no record that write emits. */
  lemma {:induction false} WriteRelabel(t: Node, s: Route)
    ensures Write(Relabel(t), s) == Write(t, s)
  {
    if t.Node? && !EndOfTree(t) {
      WriteRelabel(t.left, s + [0]);
      WriteRelabel(t.right, s + [1]);
      if t.left.Nil? {
        assert Relabel(t).left.Nil?;
      }
    }
  }

  /** Reading back the lines write emits for a tree whose root is a branch
    * node rebuilds the tree with every branch node blank, so that the
    * rebuilt tree writes the very same (character, route) records. */
  lemma TextRoundTrip(t: Node)
    requires Full(t) && !EndOfTree(t)
    ensures Write(t, []).Some?
    ensures Rebuild(CodeFile(Write(t, []).value, false)) == Ok(Relabel(t))
    ensures Write(Relabel(t), []) == Write(t, [])
  {
    WrittenRoutesNonEmpty(t);
    var recs := Write(t, []).value;
    PutAllWritten(t);
    PutAllAsHelperAll(Nil, recs);
    var node := RecordLeaf(recs[0].0);
    PutRootAsHelper(node, recs[0].1);
    InsertFromRoot(Helper(Blank(), node, recs[0].1), recs[1..]);
    WriteRelabel(t, []);
  }

  /** A tree that is a single leaf writes an empty route line, which the
    * Scanner constructor cannot read: charAt(-1) throws. */
  lemma LeafRootTextFails(t: Node)
    requires t.Node? && EndOfTree(t)
    ensures Write(t, []).Some? && Rebuild(CodeFile(Write(t, []).value, false)) == Err(EmptyCode)
  {
  }

  // ---------------------------------------------------------------------
  // decode

  datatype Status = ReachedEof | NullNode | StepLimit

  /** The bytes written so far and why decoding stopped. */
  datatype Decoded = Decoded(output: seq<byte>, status: Status)

  /** The loop of decode from node cur, with input the unread bits, out the
    * bytes written and at most fuel iterations left. An exhausted stream reads
    * as -1, which the loop treats as a 1. */
  ghost function Run(root: Node, eof: int, cur: Node, input: seq<bit>, out: seq<byte>, fuel: nat): Decoded
    decreases fuel
  {
    if cur.Nil? then Decoded(out, NullNode)
    else if cur.character == eof then Decoded(out, ReachedEof)
    else if fuel == 0 then Decoded(out, StepLimit)
    else if EndOfTree(cur) then Run(root, eof, root, input, out + [cur.character % 256], fuel - 1)
    else if ReadBit(input) == 0 then Run(root, eof, cur.left, Drop(input), out, fuel - 1)
    else Run(root, eof, cur.right, Drop(input), out, fuel - 1)
  }

  /** decode(input, output, eof), run for at most fuel iterations. */
  method Decode(root: Node, input: seq<bit>, eof: int, fuel: nat) returns (r: Decoded)
    ensures r == Run(root, eof, root, input, [], fuel)
  {
    var cur := root;
    var pos := 0;
    var out: seq<byte> := [];
    var steps := 0;
    while cur.Node? && cur.character != eof && steps < fuel
      invariant pos <= |input| && steps <= fuel
      invariant Run(root, eof, root, input, [], fuel) == Run(root, eof, cur, input[pos..], out, fuel - steps)
      decreases fuel - steps
    {
      if EndOfTree(cur) {
        out := out + [cur.character % 256];
        cur := root;
      } else {
        var b := if pos < |input| then input[pos] else -1;
        if pos < |input| {
          assert Drop(input[pos..]) == input[pos + 1..];
          pos := pos + 1;
        }
        cur := if b == 0 then cur.left else cur.right;
      }
      steps := steps + 1;
    }
    r := Decoded(out, if cur.Nil? then NullNode else if cur.character == eof then ReachedEof else StepLimit);
  }

  /** No branch node carries the character decode stops at. */
  ghost predicate BranchesAvoid(t: Node, eof: int)
  {
    match t
    case Nil => true
    case Node(c, _, l, r) => (l.Nil? && r.Nil?) || (c != eof && BranchesAvoid(l, eof) && BranchesAvoid(r, eof))
  }

  /** The bytes decode writes for a message given as routes to leaves. */
  ghost function Emitted(t: Node, msg: seq<Route>): seq<byte>
  {
    if msg == [] then [] else [(if At(t, msg[0]).Node? then At(t, msg[0]).character else 0) % 256] + Emitted(t, msg[1..])
  }

  /** Following a route through branch nodes ends at its leaf, one bit per step. */
  lemma {:induction false} Walk(root: Node, eof: int, cur: Node, p: Route, more: seq<bit>, out: seq<byte>, fuel: nat)
    requires Full(cur) && BranchesAvoid(cur, eof) && LeafAt(cur, p)
    requires fuel >= |p|
    ensures Run(root, eof, cur, p + more, out, fuel) == Run(root, eof, At(cur, p), more, out, fuel - |p|)
  {
    if p == [] {
      assert p + more == more;
    } else {
      if EndOfTree(cur) {
        AtNil(p[1..]);
        assert false;
      }
      var child := if p[0] == 0 then cur.left else cur.right;
      assert ReadBit(p + more) == p[0] && Drop(p + more) == p[1..] + more;
      assert Run(root, eof, cur, p + more, out, fuel) == Run(root, eof, child, p[1..] + more, out, fuel - 1);
      Walk(root, eof, child, p[1..], more, out, fuel - 1);
    }
  }

  /** At a leaf other than EOF, decode writes its byte and returns to the root. */
  lemma LeafStep(root: Node, eof: int, leaf: Node, input: seq<bit>, out: seq<byte>, fuel: nat)
    requires leaf.Node? && EndOfTree(leaf) && leaf.character != eof && fuel >= 1
    ensures Run(root, eof, leaf, input, out, fuel) == Run(root, eof, root, input, out + [leaf.character % 256], fuel - 1)
  {
  }

  /** One whole code: decode walks it to a leaf other than EOF, writes that
    * leaf's byte and is back at the root. */
  lemma DecodeOne(t: Node, eof: int, p: Route, more: seq<bit>, out: seq<byte>, fuel: nat)
    requires Full(t) && BranchesAvoid(t, eof) && LeafAt(t, p) && At(t, p).character != eof
    requires fuel >= |p| + 1
    ensures Run(t, eof, t, p + more, out, fuel) == Run(t, eof, t, more, out + [At(t, p).character % 256], fuel - |p| - 1)
  {
    Walk(t, eof, t, p, more, out, fuel);
    LeafStep(t, eof, At(t, p), more, out, fuel - |p|);
  }

  /** decode fed the routes of leaves c1..cn (none EOF) and then the route of
    * the EOF leaf writes exactly c1..cn and stops at the EOF leaf, whatever
    * bits follow. */
  lemma {:induction false} DecodeMessage(t: Node, eof: int, msg: seq<Route>, eofCode: Route, rest: seq<bit>, out: seq<byte>, fuel: nat)
    requires Full(t) && BranchesAvoid(t, eof)
    requires forall i :: 0 <= i < |msg| ==> LeafAt(t, msg[i]) && At(t, msg[i]).character != eof
    requires LeafAt(t, eofCode) && At(t, eofCode).character == eof
    requires fuel >= |Flatten(msg)| + |msg| + |eofCode|
    ensures Run(t, eof, t, Flatten(msg) + eofCode + rest, out, fuel) == Decoded(out + Emitted(t, msg), ReachedEof)
  {
    if msg == [] {
      assert Flatten(msg) + eofCode + rest == eofCode + rest;
      Walk(t, eof, t, eofCode, rest, out, fuel);
    } else {
      var p, tail := msg[0], msg[1..];
      var more := Flatten(tail) + eofCode + rest;
      FlattenFirst(msg, eofCode + rest);
      assert Flatten(msg) + eofCode + rest == p + more;
      DecodeOne(t, eof, p, more, out, fuel);
      var out' := out + [At(t, p).character % 256];
      assert forall i :: 0 <= i < |tail| ==> tail[i] == msg[i + 1];
      DecodeMessage(t, eof, tail, eofCode, rest, out', fuel - |p| - 1);
      assert Emitted(t, msg) == [At(t, p).character % 256] + Emitted(t, tail);
      AppendOne(out, At(t, p).character % 256, Emitted(t, tail));
    }
  }

  /** The right spine from n (n, n.right, n.right.right, ... down to a leaf)
    * has no null node and no node carrying eof. */
  ghost predicate RightSpineAvoids(n: Node, eof: int)
  {
    n.Node? && n.character != eof && (EndOfTree(n) || RightSpineAvoids(n.right, eof))
  }

  /** On an exhausted stream every readBit gives -1, which decode takes as a
    * step to the right; unless the rightmost leaf is eof, decode then writes
    * the rightmost leaf's byte over and over and never stops by itself. */
  lemma {:induction false} ExhaustedInputNeverStops(t: Node, eof: int, cur: Node, out: seq<byte>, fuel: nat)
    requires RightSpineAvoids(t, eof) && RightSpineAvoids(cur, eof)
    ensures Run(t, eof, cur, [], out, fuel).status == StepLimit
    decreases fuel
  {
    if fuel > 0 {
      if EndOfTree(cur) {
        ExhaustedInputNeverStops(t, eof, t, out + [cur.character % 256], fuel - 1);
      } else {
        ExhaustedInputNeverStops(t, eof, cur.right, out, fuel - 1);
      }
    }
  }

  lemma {:induction false} EmittedCodes(t: Node, recs: seq<Record>, idx: seq<nat>)
    requires forall j :: 0 <= j < |recs| ==> At(t, recs[j].1).Node? && At(t, recs[j].1).character == recs[j].0
    requires forall i :: 0 <= i < |idx| ==> idx[i] < |recs|
    ensures Emitted(t, Codes(recs, idx)) == Bytes(recs, idx)
  {
    if idx != [] {
      EmittedCodes(t, recs, idx[1..]);
      assert Codes(recs, idx)[1..] == Codes(recs, idx[1..]);
    }
  }

  /** Branch nodes the count constructor makes carry character 32, never EOF. */
  lemma {:induction false} MergedAvoidsEof(t: Node)
    requires Merged(t)
    ensures BranchesAvoid(t, EOF)
  {
    if t.Node? && !EndOfTree(t) {
      MergedAvoidsEof(t.left);
      MergedAvoidsEof(t.right);
    }
  }

  /** Each record write emits for the whole tree routes to a leaf holding
    * its character. */
  lemma WrittenLeaves(t: Node, recs: seq<Record>)
    requires Write(t, []) == Some(recs)
    ensures forall j :: 0 <= j < |recs| ==> LeafAt(t, recs[j].1) && At(t, recs[j].1).character == recs[j].0
  {
    WriteListsLeaves(t, []);
    assert forall j :: 0 <= j < |recs| ==> recs[j].1[0..] == recs[j].1;
  }

  /** For a tree built by the count constructor, decode fed the codes write
    * emits for some characters, then the code write emits for EOF, writes
    * exactly those characters' bytes and stops at the EOF leaf. */
  lemma DecodeWrittenCodes(t: Node, recs: seq<Record>, idx: seq<nat>, e: nat, rest: seq<bit>, fuel: nat)
    requires Full(t) && Merged(t) && Write(t, []) == Some(recs)
    requires forall i :: 0 <= i < |idx| ==> idx[i] < |recs| && recs[idx[i]].0 != EOF
    requires e < |recs| && recs[e].0 == EOF
    requires fuel >= |Flatten(Codes(recs, idx))| + |idx| + |recs[e].1|
    ensures Run(t, EOF, t, Flatten(Codes(recs, idx)) + recs[e].1 + rest, [], fuel) == Decoded(Bytes(recs, idx), ReachedEof)
  {
    WrittenLeaves(t, recs);
    var msg := Codes(recs, idx);
    CodesPick(recs, idx);
    assert forall i :: 0 <= i < |msg| ==> LeafAt(t, msg[i]) && At(t, msg[i]).character != EOF by {
      assert forall i :: 0 <= i < |msg| ==> msg[i] == recs[idx[i]].1;
    }
    MergedAvoidsEof(t);
    DecodeMessage(t, EOF, msg, recs[e].1, rest, [], fuel);
    EmittedCodes(t, recs, idx);
  }
}
