/** HuffmanTree2.java: a Huffman code tree whose nodes carry an optional
  * symbol (data) and an optional frequency (freq). A node with a symbol is a
  * leaf. The tree owns its nodes exclusively, so a node is modelled by its
  * value and a null reference by Nil. */
module HuffmanTree2 {
  import opened Common

  datatype TreeNode = Nil | TreeNode(data: Option<int>, freq: Option<int>, left: TreeNode, right: TreeNode)

  /** new HuffmanTreeNode(): no symbol, no frequency, no children. */
  function Placeholder(): TreeNode
  {
    TreeNode(None, None, Nil, Nil)
  }

  /** new HuffmanTreeNode(freq, data): a leaf. */
  function Leaf(freq: int, data: int): TreeNode
  {
    TreeNode(Some(data), Some(freq), Nil, Nil)
  }

  /** The key the priority queue orders nodes by (compareTo compares freq). */
  function Weight(n: TreeNode): int
  {
    if n.TreeNode? && n.freq.Some? then n.freq.value else 0
  }

  /** The child of n on side b; Nil below a null node. */
  function Child(n: TreeNode, b: int): TreeNode
  {
    if n.Nil? then Nil else if b == 0 then n.left else n.right
  }

  /** The node reached from t by following route p. */
  function At(t: TreeNode, p: Route): TreeNode
  {
    if p == [] then t else At(Child(t, p[0]), p[1..])
  }

  /** The node at route p of t holds symbol c. */
  ghost predicate SymbolAt(t: TreeNode, p: Route, c: int)
  {
    At(t, p).TreeNode? && At(t, p).data == Some(c)
  }

  /** The shape every traversal of this class expects: a node with a symbol
    * has no children, a node without one has two. */
  ghost predicate Full(t: TreeNode)
  {
    match t
    case Nil => false
    case TreeNode(d, _, l, r) => if d.Some? then l.Nil? && r.Nil? else Full(l) && Full(r)
  }

  /** Every node has a frequency, and a node without a symbol has the sum of
    * its children's. */
  ghost predicate Merged(t: TreeNode)
  {
    match t
    case Nil => true
    case TreeNode(d, f, l, r) =>
      f.Some? && (d.Some? || (f.value == Weight(l) + Weight(r) && Merged(l) && Merged(r)))
  }

  /** The (symbol, frequency) pairs of the nodes that hold a symbol. */
  ghost function Leaves(t: TreeNode): multiset<(int, int)>
  {
    match t
    case Nil => multiset{}
    case TreeNode(d, _, l, r) => if d.Some? then multiset{(d.value, Weight(t))} else Leaves(l) + Leaves(r)
  }

  lemma {:induction false} AtConcat(t: TreeNode, p: Route, q: Route)
    ensures At(t, p + q) == At(At(t, p), q)
  {
    if p == [] {
      assert p + q == q;
    } else {
      assert (p + q)[0] == p[0] && (p + q)[1..] == p[1..] + q;
      AtConcat(Child(t, p[0]), p[1..], q);
    }
  }

  lemma {:induction false} AtNil(p: Route)
    ensures At(Nil, p) == Nil
  {
    if p != [] {
      AtNil(p[1..]);
    }
  }

  // ---------------------------------------------------------------------
  // The counts constructor

  /** new HuffmanTreeNode(left, right): no symbol, the children's total frequency. */
  function Merge(left: TreeNode, right: TreeNode): (b: TreeNode)
    requires Full(left) && Merged(left) && Full(right) && Merged(right)
    ensures Full(b) && Merged(b) && b.data.None?
    ensures Leaves(b) == Leaves(left) + Leaves(right)
    ensures Weight(b) == Weight(left) + Weight(right)
  {
    TreeNode(None, Some(left.freq.value + right.freq.value), left, right)
  }

  /** The leaves offered for counts[..k]: (i, counts[i]) for each non-zero count. */
  ghost function NonzeroLeaves(counts: seq<int>, k: nat): multiset<(int, int)>
    requires k <= |counts|
  {
    if k == 0 then multiset{}
    else NonzeroLeaves(counts, k - 1) + (if counts[k - 1] != 0 then multiset{(k - 1, counts[k - 1])} else multiset{})
  }

  /** The sum of counts[..k]. */
  ghost function CountTotal(counts: seq<int>, k: nat): int
    requires k <= |counts|
  {
    if k == 0 then 0 else CountTotal(counts, k - 1) + counts[k - 1]
  }

  ghost function QueueLeaves(q: seq<TreeNode>): multiset<(int, int)>
  {
    if q == [] then multiset{} else QueueLeaves(q[..|q| - 1]) + Leaves(q[|q| - 1])
  }

  ghost function QueueTotal(q: seq<TreeNode>): int
  {
    if q == [] then 0 else QueueTotal(q[..|q| - 1]) + Weight(q[|q| - 1])
  }

  /** Every queued tree is full and merged. */
  ghost predicate Built(q: seq<TreeNode>)
  {
    forall j :: 0 <= j < |q| ==> Full(q[j]) && Merged(q[j])
  }

  function Weights(q: seq<TreeNode>): (keys: seq<int>)
    ensures |keys| == |q|
    ensures forall j :: 0 <= j < |q| ==> keys[j] == Weight(q[j])
  {
    seq(|q|, j requires 0 <= j < |q| => Weight(q[j]))
  }

  lemma {:induction false} QueueConcat(a: seq<TreeNode>, b: seq<TreeNode>)
    ensures QueueLeaves(a + b) == QueueLeaves(a) + QueueLeaves(b)
    ensures QueueTotal(a + b) == QueueTotal(a) + QueueTotal(b)
    decreases |b|
  {
    if b != [] {
      assert (a + b)[..|a + b| - 1] == a + b[..|b| - 1];
      QueueConcat(a, b[..|b| - 1]);
    } else {
      assert a + b == a;
    }
  }

  lemma QueueSingle(x: TreeNode)
    ensures QueueLeaves([x]) == Leaves(x) && QueueTotal([x]) == Weight(x)
  {
    assert [x][..0] == [];
  }

  lemma QueueRemove(q: seq<TreeNode>, i: nat)
    requires i < |q|
    ensures QueueLeaves(q) == QueueLeaves(q[..i] + q[i + 1..]) + Leaves(q[i])
    ensures QueueTotal(q) == QueueTotal(q[..i] + q[i + 1..]) + Weight(q[i])
  {
    var a, x, c := q[..i], q[i], q[i + 1..];
    SplitAt(q, i);
    QueueConcat(a + [x], c);
    QueueConcat(a, [x]);
    QueueConcat(a, c);
    QueueSingle(x);
    assert QueueLeaves(q) == QueueLeaves(a) + Leaves(x) + QueueLeaves(c);
    assert QueueTotal(q) == QueueTotal(a) + Weight(x) + QueueTotal(c);
  }

  lemma BuiltRemove(q: seq<TreeNode>, i: nat)
    requires i < |q| && Built(q)
    ensures Built(q[..i] + q[i + 1..])
  {
    var rest := q[..i] + q[i + 1..];
    forall j | 0 <= j < |rest|
      ensures Full(rest[j]) && Merged(rest[j])
    {
      assert rest[j] == if j < i then q[j] else q[j + 1];
    }
  }

  /** q.offer(x). */
  lemma Offer(q: seq<TreeNode>, x: TreeNode)
    requires Built(q) && Full(x) && Merged(x)
    ensures Built(q + [x])
    ensures QueueLeaves(q + [x]) == QueueLeaves(q) + Leaves(x)
    ensures QueueTotal(q + [x]) == QueueTotal(q) + Weight(x)
  {
    assert (q + [x])[..|q + [x]| - 1] == q;
    assert forall j :: 0 <= j < |q + [x]| ==> (q + [x])[j] == if j < |q| then q[j] else x;
  }

  /** q.remove(): takes out a node of least frequency. */
  method RemoveLeast(q: seq<TreeNode>) returns (m: TreeNode, rest: seq<TreeNode>)
    requires |q| > 0 && Built(q)
    ensures Full(m) && Merged(m) && Built(rest) && |rest| == |q| - 1
    ensures forall j :: 0 <= j < |q| ==> Weight(m) <= Weight(q[j])
    ensures multiset(rest) + multiset{m} == multiset(q)
    ensures QueueLeaves(q) == QueueLeaves(rest) + Leaves(m)
    ensures QueueTotal(q) == QueueTotal(rest) + Weight(m)
  {
    var keys := Weights(q);
    var i := IndexOfMin(keys);
    m := q[i];
    rest := q[..i] + q[i + 1..];
    QueueRemove(q, i);
    BuiltRemove(q, i);
    RemoveAt(q, i);
  }

  /** The queue holds exactly what the counts constructor offers for counts[..i]. */
  ghost predicate Offered(q: seq<TreeNode>, counts: seq<int>, i: nat)
    requires i <= |counts|
  {
    Built(q) && QueueLeaves(q) == NonzeroLeaves(counts, i) && QueueTotal(q) == CountTotal(counts, i)
  }

  /** Before the loop nothing is offered. */
  lemma OfferNone(counts: seq<int>)
    ensures Offered([], counts, 0)
  {
  }

  /** Offering the leaf for a non-zero counts[i]. */
  lemma OfferCount(counts: seq<int>, i: nat, q: seq<TreeNode>)
    requires i < |counts| && counts[i] != 0 && Offered(q, counts, i)
    ensures Offered(q + [Leaf(counts[i], i)], counts, i + 1)
  {
    var leaf := Leaf(counts[i], i);
    assert Leaves(leaf) == multiset{(i, counts[i])};
    Offer(q, leaf);
  }

  /** A zero count offers nothing and adds nothing to the total. */
  lemma SkipCount(counts: seq<int>, i: nat, q: seq<TreeNode>)
    requires i < |counts| && counts[i] == 0 && Offered(q, counts, i)
    ensures Offered(q, counts, i + 1)
  {
  }

  /** Offering the EOF leaf after the last count. */
  lemma OfferEof(q: seq<TreeNode>, counts: seq<int>)
    requires Offered(q, counts, |counts|)
    ensures Built(q + [Leaf(1, |counts|)])
    ensures QueueLeaves(q + [Leaf(1, |counts|)]) == NonzeroLeaves(counts, |counts|) + multiset{(|counts|, 1)}
    ensures QueueTotal(q + [Leaf(1, |counts|)]) == CountTotal(counts, |counts|) + 1
  {
    var eof := Leaf(1, |counts|);
    assert Leaves(eof) == multiset{(|counts|, 1)};
    Offer(q, eof);
  }

  /** The first loop of the counts constructor and the EOF leaf after it. */
  method OfferLeaves(counts: seq<int>) returns (q: seq<TreeNode>)
    ensures |q| >= 1 && Built(q)
    ensures QueueLeaves(q) == NonzeroLeaves(counts, |counts|) + multiset{(|counts|, 1)}
    ensures QueueTotal(q) == CountTotal(counts, |counts|) + 1
  {
    q := [];
    var i := 0;
    OfferNone(counts);
    while i < |counts|
      invariant i <= |counts| && Offered(q, counts, i)
    {
      if counts[i] != 0 {
        OfferCount(counts, i, q);
        q := q + [Leaf(counts[i], i)];
      } else {
        SkipCount(counts, i, q);
      }
      i := i + 1;
    }
    OfferEof(q, counts);
    q := q + [Leaf(1, |counts|)];
  }

  /** One merge iteration: the two removed trees come back as one, so the
    * queue keeps its leaves and its total. */
  lemma MergeStep(q: seq<TreeNode>, left: TreeNode, q1: seq<TreeNode>, right: TreeNode, q2: seq<TreeNode>)
    requires Full(left) && Merged(left) && Full(right) && Merged(right) && Built(q2)
    requires QueueLeaves(q) == QueueLeaves(q1) + Leaves(left) && QueueTotal(q) == QueueTotal(q1) + Weight(left)
    requires QueueLeaves(q1) == QueueLeaves(q2) + Leaves(right) && QueueTotal(q1) == QueueTotal(q2) + Weight(right)
    ensures Built(q2 + [Merge(left, right)])
    ensures QueueLeaves(q2 + [Merge(left, right)]) == QueueLeaves(q)
    ensures QueueTotal(q2 + [Merge(left, right)]) == QueueTotal(q)
  {
    Offer(q2, Merge(left, right));
  }

  /** The merge loop: while the queue does not hold exactly one node, the
    * first node removed becomes the left child and the second the right. */
  method MergeAll(q0: seq<TreeNode>) returns (root: TreeNode)
    requires |q0| >= 1 && Built(q0)
    ensures Full(root) && Merged(root)
    ensures Leaves(root) == QueueLeaves(q0) && Weight(root) == QueueTotal(q0)
  {
    var q := q0;
    while |q| != 1
      invariant |q| >= 1 && Built(q)
      invariant QueueLeaves(q) == QueueLeaves(q0) && QueueTotal(q) == QueueTotal(q0)
      decreases |q|
    {
      var left, q1, right, q2;
      left, q1 := RemoveLeast(q);
      right, q2 := RemoveLeast(q1);
      MergeStep(q, left, q1, right, q2);
      q := q2 + [Merge(left, right)];
    }
    root := q[0];
    QueueSingle(root);
    assert q == [root];
  }

  /** HuffmanTree2(int[] counts): a leaf per non-zero count (negative counts
    * included), the EOF leaf (symbol counts.length, frequency 1), merged two
    * least-frequent nodes at a time. An empty array gives the EOF leaf alone. */
  method Build(counts: seq<int>) returns (root: TreeNode)
    ensures Full(root) && Merged(root)
    ensures Leaves(root) == NonzeroLeaves(counts, |counts|) + multiset{(|counts|, 1)}
    ensures Weight(root) == CountTotal(counts, |counts|) + 1
  {
    var q := OfferLeaves(counts);
    root := MergeAll(q);
  }

  /** The multiset of offered leaves holds (i, counts[i]) once for each
    * non-zero count and nothing else. */
  lemma {:induction false} NonzeroLeavesAt(counts: seq<int>, k: nat, c: int, f: int)
    requires k <= |counts|
    ensures NonzeroLeaves(counts, k)[(c, f)] == if 0 <= c < k && counts[c] != 0 && f == counts[c] then 1 else 0
  {
    if k > 0 {
      NonzeroLeavesAt(counts, k - 1, c, f);
    }
  }

  /** The built tree's symbols: each non-zero-count symbol once, with its count,
    * and one EOF symbol counts.length, with frequency 1. */
  lemma BuiltLeaves(counts: seq<int>, c: int, f: int)
    ensures (NonzeroLeaves(counts, |counts|) + multiset{(|counts|, 1)})[(c, f)] ==
      if c == |counts| then (if f == 1 then 1 else 0)
      else if 0 <= c < |counts| && counts[c] != 0 && f == counts[c] then 1 else 0
  {
    NonzeroLeavesAt(counts, |counts|, c, f);
  }

  // ---------------------------------------------------------------------
  // toString / write, and reading the lines back

  /** One line of the text form: a symbol written in decimal, or a string of
    * route digits (possibly empty). */
  datatype Line = Number(n: int) | Digits(bits: Route)

  /** subTreetoString(root, route) as the pieces it joins with line breaks: a
    * null node is one empty piece, a node with a symbol gives its symbol and
    * its route, any other node its left and then its right subtree. */
  function Text(t: TreeNode, route: Route): seq<Line>
  {
    match t
    case Nil => [Digits([])]
    case TreeNode(d, _, l, r) =>
      if d.Some? then [Number(d.value), Digits(route)] else Text(l, route + [0]) + Text(r, route + [1])
  }

  /** toString() (and write, which prints it) as the lines a Scanner reads:
    * nothing after the last line break is no line. */
  function Lines(root: TreeNode): seq<Line>
  {
    var pieces := Text(root, []);
    if pieces != [] && pieces[|pieces| - 1] == Digits([]) then pieces[..|pieces| - 1] else pieces
  }

  /** The (symbol, route) records of the nodes holding a symbol, left to right. */
  function Records(t: TreeNode, route: Route): seq<Record>
  {
    match t
    case Nil => []
    case TreeNode(d, _, l, r) =>
      if d.Some? then [(d.value, route)] else Records(l, route + [0]) + Records(r, route + [1])
  }

  /** Records written as line pairs. */
  function Render(recs: seq<Record>): seq<Line>
  {
    if recs == [] then [] else [Number(recs[0].0), Digits(recs[0].1)] + Render(recs[1..])
  }

  lemma {:induction false} RenderConcat(a: seq<Record>, b: seq<Record>)
    ensures Render(a + b) == Render(a) + Render(b)
    decreases |a|
  {
    if a == [] {
      assert a + b == b;
    } else {
      assert (a + b)[1..] == a[1..] + b;
      RenderConcat(a[1..], b);
    }
  }

  /** A full tree's text is exactly its records, a symbol line and a route line each. */
  lemma {:induction false} TextOfFull(t: TreeNode, s: Route)
    requires Full(t)
    ensures Text(t, s) == Render(Records(t, s))
  {
    if t.data.None? {
      TextOfFull(t.left, s + [0]);
      TextOfFull(t.right, s + [1]);
      RenderConcat(Records(t.left, s + [0]), Records(t.right, s + [1]));
    } else {
      assert [(t.data.value, s)][1..] == [];
    }
  }

  /** The records below route s are those below the root with s put in front. */
  lemma {:induction false} RecordsShift(t: TreeNode, s: Route)
    ensures Records(t, s) == Prepend(s, Records(t, []))
  {
    if t.TreeNode? {
      if t.data.None? {
        var empty: Route := [];
        assert empty + [0] == [0] && empty + [1] == [1];
        RecordsShift(t.left, s + [0]);
        RecordsShift(t.left, [0]);
        RecordsShift(t.right, s + [1]);
        RecordsShift(t.right, [1]);
        var rl, rr := Records(t.left, []), Records(t.right, []);
        PrependConcat(s, Prepend([0], rl), Prepend([1], rr));
        PrependTwice(s, [0], rl);
        PrependTwice(s, [1], rr);
      } else {
        assert s + [] == s;
      }
    }
  }

  /** Each record names a node holding its symbol, at its route behind s. */
  lemma {:induction false} RecordsAreSymbols(t: TreeNode, s: Route)
    ensures forall i :: 0 <= i < |Records(t, s)| ==>
      s <= Records(t, s)[i].1 && SymbolAt(t, Records(t, s)[i].1[|s|..], Records(t, s)[i].0)
  {
    var recs := Records(t, s);
    if t.TreeNode? {
      if t.data.None? {
        var sl, sr := s + [0], s + [1];
        RecordsAreSymbols(t.left, sl);
        RecordsAreSymbols(t.right, sr);
        var rl := Records(t.left, sl);
        forall i | 0 <= i < |recs|
          ensures s <= recs[i].1 && SymbolAt(t, recs[i].1[|s|..], recs[i].0)
        {
          var (c, code) := recs[i];
          var sb := if i < |rl| then sl else sr;
          var child := if i < |rl| then t.left else t.right;
          assert recs[i] == if i < |rl| then rl[i] else Records(t.right, sr)[i - |rl|];
          assert sb <= code && SymbolAt(child, code[|sb|..], c);
          var p := code[|s|..];
          assert p == [sb[|s|]] + code[|sb|..];
          assert At(t, p) == At(child, code[|sb|..]);
        }
      } else {
        assert recs[0].1[|s|..] == [];
      }
    }
  }

  /** In a full tree every node holding a symbol is listed, at its route. */
  lemma {:induction false} RecordsComplete(t: TreeNode, s: Route, p: Route, c: int)
    requires Full(t) && SymbolAt(t, p, c)
    ensures (c, s + p) in Records(t, s)
  {
    if p == [] {
      assert s + p == s;
      if t.data.None? {
        assert false;
      }
    } else {
      if t.data.Some? {
        AtNil(p[1..]);
        assert false;
      }
      var b := p[0];
      var child := if b == 0 then t.left else t.right;
      RecordsComplete(child, s + [b], p[1..], c);
      assert (s + [b]) + p[1..] == s + p;
    }
  }

  /** No record's route starts another's: a node holding a symbol is not
    * descended into. */
  lemma {:induction false} RecordsPrefixFree(t: TreeNode, s: Route)
    ensures PrefixFree(Records(t, s))
  {
    if t.TreeNode? && t.data.None? {
      var sl, sr := s + [0], s + [1];
      RecordsPrefixFree(t.left, sl);
      RecordsPrefixFree(t.right, sr);
      RecordsAreSymbols(t.left, sl);
      RecordsAreSymbols(t.right, sr);
      var rl, rr := Records(t.left, sl), Records(t.right, sr);
      var recs := rl + rr;
      forall i, j | 0 <= i < |recs| && 0 <= j < |recs| && i != j
        ensures !(recs[i].1 <= recs[j].1)
      {
        if i < |rl| && j < |rl| {
          assert recs[i] == rl[i] && recs[j] == rl[j];
        } else if i >= |rl| && j >= |rl| {
          assert recs[i] == rr[i - |rl|] && recs[j] == rr[j - |rl|];
        } else if i < |rl| {
          assert recs[i] == rl[i] && recs[j] == rr[j - |rl|];
          ForkedRoutes(s, recs[i].1, recs[j].1);
        } else {
          assert recs[j] == rl[j] && recs[i] == rr[i - |rl|];
          ForkedRoutes(s, recs[j].1, recs[i].1);
        }
      }
    }
  }

  // Reading lines back: the Scanner constructor and assign

  /** Integer.parseInt on a line: a numeral's value; an empty line is no number. */
  function ParseSymbol(line: Line): Option<int>
  {
    match line
    case Number(n) => Some(n)
    case Digits(b) => if b == [] then None else Some(Decimal(b))
  }

  /** The value of a string of digits 0 and 1 read in decimal. */
  function Decimal(b: seq<bit>): nat
  {
    if b == [] then 0 else 10 * Decimal(b[..|b| - 1]) + b[|b| - 1]
  }

  /** How reading line pairs ends: the lines ran out before a symbol line, or
    * a symbol line has no route line after it, or a symbol line is no number,
    * or (for assign) a route line is a numeral, which toString never writes
    * (see LinesArePaired). */
  datatype Ending = Complete | MissingRoute | NotANumber | NumeralRoute

  datatype Scanned = Scanned(records: seq<Record>, ending: Ending)

  /** The (symbol, route) pairs assign reads, two lines at a time, and how the
    * reading ends. assign parses the symbol line before it reads the route
    * line, so a last line that is no number ends in NotANumber. */
  function Pairs(lines: seq<Line>): Scanned
    decreases |lines|
  {
    if lines == [] then Scanned([], Complete)
    else if ParseSymbol(lines[0]).None? then Scanned([], NotANumber)
    else if |lines| == 1 then Scanned([], MissingRoute)
    else if lines[1].Number? then Scanned([], NumeralRoute)
    else
      var rest := Pairs(lines[2..]);
      Scanned([(ParseSymbol(lines[0]).value, lines[1].bits)] + rest.records, rest.ending)
  }

  /** The route subTreeAddNode follows for a route line: a line of 0/1 digits
    * as it stands; for a numeral, its decimal text, going left at each '0'
    * and right at every other character (digits 1-9 and a minus sign). */
  function RouteOf(line: Line): (r: Route)
    ensures line.Number? ==> r != []
  {
    match line
    case Digits(b) => b
    case Number(n) => if n < 0 then [1] + NumeralSteps(-n) else NumeralSteps(n)
  }

  /** The steps the decimal digits of n take, most significant first. */
  function NumeralSteps(n: nat): (r: Route)
    ensures r != []
  {
    if n < 10 then [if n == 0 then 0 else 1] else NumeralSteps(n / 10) + [if n % 10 == 0 then 0 else 1]
  }

  /** The decimal digits of n are all 0 or 1. */
  predicate BinaryDigits(n: nat)
  {
    if n < 10 then n <= 1 else n % 10 <= 1 && BinaryDigits(n / 10)
  }

  /** Appending a digit to a 0/1 string appends it in decimal. */
  lemma DecimalAppend(b: seq<bit>, d: bit)
    ensures Decimal(b + [d]) == 10 * Decimal(b) + d
  {
    assert (b + [d])[..|b|] == b;
  }

  /** A numeral whose text is a 0/1 string reads as that string does: the
    * same route, and the same value when parsed. */
  lemma {:induction false} BinaryNumeral(n: nat)
    requires BinaryDigits(n)
    ensures RouteOf(Digits(NumeralSteps(n))) == RouteOf(Number(n))
    ensures ParseSymbol(Digits(NumeralSteps(n))) == ParseSymbol(Number(n))
  {
    if n >= 10 {
      var q, d := n / 10, n % 10;
      BinaryNumeral(q);
      var init := NumeralSteps(q);
      assert Decimal(init) == q;
      assert NumeralSteps(n) == init + [d];
      DecimalAppend(init, d);
      assert n == 10 * q + d;
      assert Decimal(NumeralSteps(n)) == n;
    } else {
      DecimalAppend([], n);
      assert NumeralSteps(n) == [] + [n];
      assert Decimal(NumeralSteps(n)) == n;
    }
  }

  /** The (symbol, route) pairs HuffmanTree2(Scanner) reads and how the
    * reading ends. Both lines of a pair are read before the symbol line is
    * parsed, so a last line without a partner ends the reading (the
    * NoSuchElementException is caught) without being parsed. */
  function ReadPairs(lines: seq<Line>): Scanned
    decreases |lines|
  {
    if lines == [] then Scanned([], Complete)
    else if |lines| == 1 then Scanned([], MissingRoute)
    else if ParseSymbol(lines[0]).None? then Scanned([], NotANumber)
    else
      var rest := ReadPairs(lines[2..]);
      Scanned([(ParseSymbol(lines[0]).value, RouteOf(lines[1]))] + rest.records, rest.ending)
  }

  /** Where assign's reader meets no numeral route line, the constructor's
    * reader reads the same pairs and ends the same way, except that a last
    * lone line that is no number is dropped instead of failing. */
  lemma {:induction false} ReadersAgree(lines: seq<Line>)
    requires Pairs(lines).ending != NumeralRoute
    ensures ReadPairs(lines).records == Pairs(lines).records
    ensures ReadPairs(lines).ending ==
      if Pairs(lines).ending == NotANumber && 2 * |Pairs(lines).records| + 1 == |lines| then MissingRoute
      else Pairs(lines).ending
    decreases |lines|
  {
    if |lines| >= 2 && ParseSymbol(lines[0]).Some? {
      ReadersAgree(lines[2..]);
    }
  }

  /** A code file with a blank line after its last pair: the constructor
    * keeps the pair and drops the blank line, while assign's order of
    * reading would fail to parse that line. */
  lemma TrailingBlankLine()
    ensures ReadPairs([Number(65), Digits([0]), Digits([])]) == Scanned([(65, [0])], MissingRoute)
    ensures Pairs([Number(65), Digits([0]), Digits([])]) == Scanned([(65, [0])], NotANumber)
  {
    var lines := [Number(65), Digits([0]), Digits([])];
    assert lines[2..] == [Digits([])];
  }

  /** A run of line pairs reads back as its records. */
  lemma {:induction false} PairsRender(recs: seq<Record>)
    ensures Pairs(Render(recs)) == Scanned(recs, Complete)
  {
    if recs != [] {
      var lines := Render(recs);
      assert lines[2..] == Render(recs[1..]);
      PairsRender(recs[1..]);
      assert [recs[0]] + recs[1..] == recs;
    }
  }

  /** The pieces toString joins come in blocks: an empty piece for a null
    * node, or a numeral followed by a route; the lines a Scanner sees may end
    * in a lone numeral instead. */
  ghost predicate Blocks(pieces: seq<Line>)
    decreases |pieces|
  {
    if pieces == [] then true
    else if pieces[0] == Digits([]) then Blocks(pieces[1..])
    else pieces[0].Number? && (|pieces| == 1 || (pieces[1].Digits? && Blocks(pieces[2..])))
  }

  /** A block list that ends in a route line starts with a whole block. */
  lemma BlocksFirst(a: seq<Line>)
    requires Blocks(a) && a != [] && a[|a| - 1].Digits?
    ensures (a[0] == Digits([]) && Blocks(a[1..])) || (|a| >= 2 && a[0].Number? && a[1].Digits? && Blocks(a[2..]))
  {
  }

  /** Putting an empty piece in front of blocks leaves blocks. */
  lemma BlocksEmptyFirst(a: seq<Line>, b: seq<Line>)
    requires a != [] && a[0] == Digits([]) && Blocks(a[1..] + b)
    ensures Blocks(a + b)
  {
    assert (a + b)[0] == a[0] && (a + b)[1..] == a[1..] + b;
  }

  /** Putting a numeral and a route in front of blocks leaves blocks. */
  lemma BlocksPairFirst(a: seq<Line>, b: seq<Line>)
    requires |a| >= 2 && a[0].Number? && a[1].Digits? && Blocks(a[2..] + b)
    ensures Blocks(a + b)
  {
    assert (a + b)[0] == a[0] && (a + b)[1] == a[1] && (a + b)[2..] == a[2..] + b;
  }

  /** A suffix of pieces that end in a route line ends in that line too. */
  lemma EndsInRoute(a: seq<Line>, k: nat)
    requires k <= |a| && a != [] && a[|a| - 1].Digits?
    ensures a[k..] == [] || a[k..][|a[k..]| - 1].Digits?
  {
    if k < |a| {
      assert a[k..][|a[k..]| - 1] == a[|a| - 1];
    }
  }

  lemma {:induction false} BlocksConcat(a: seq<Line>, b: seq<Line>)
    requires Blocks(a) && Blocks(b) && (a == [] || a[|a| - 1].Digits?)
    ensures Blocks(a + b)
    decreases |a|
  {
    if a == [] {
      assert a + b == b;
    } else {
      BlocksFirst(a);
      if a[0] == Digits([]) {
        EndsInRoute(a, 1);
        BlocksConcat(a[1..], b);
        BlocksEmptyFirst(a, b);
      } else {
        EndsInRoute(a, 2);
        BlocksConcat(a[2..], b);
        BlocksPairFirst(a, b);
      }
    }
  }

  lemma {:induction false} TextBlocks(t: TreeNode, s: Route)
    ensures Blocks(Text(t, s)) && |Text(t, s)| >= 1 && Text(t, s)[|Text(t, s)| - 1].Digits?
  {
    if t.TreeNode? {
      if t.data.None? {
        TextBlocks(t.left, s + [0]);
        TextBlocks(t.right, s + [1]);
        BlocksConcat(Text(t.left, s + [0]), Text(t.right, s + [1]));
      } else {
        assert Text(t, s)[2..] == [];
      }
    } else {
      assert Text(t, s)[1..] == [];
    }
  }

  /** Dropping a last empty piece leaves blocks. */
  lemma {:induction false} BlocksDropEmpty(pieces: seq<Line>)
    requires Blocks(pieces) && pieces != [] && pieces[|pieces| - 1] == Digits([])
    ensures Blocks(pieces[..|pieces| - 1])
    decreases |pieces|
  {
    var init := pieces[..|pieces| - 1];
    if pieces[0] == Digits([]) {
      if |pieces| > 1 {
        BlocksDropEmpty(pieces[1..]);
        assert init[1..] == pieces[1..][..|pieces| - 2];
      }
    } else if |pieces| > 2 {
      BlocksDropEmpty(pieces[2..]);
      assert init[2..] == pieces[2..][..|pieces| - 3];
    }
  }

  /** Blocks never put a numeral in a route line. */
  lemma {:induction false} BlocksPaired(pieces: seq<Line>)
    requires Blocks(pieces)
    ensures Pairs(pieces).ending != NumeralRoute
    decreases |pieces|
  {
    if |pieces| >= 2 && pieces[0].Number? {
      BlocksPaired(pieces[2..]);
    }
  }

  /** Reading toString's own lines never meets a numeral where a route is due. */
  lemma LinesArePaired(root: TreeNode)
    ensures Pairs(Lines(root)).ending != NumeralRoute
  {
    var pieces := Text(root, []);
    TextBlocks(root, []);
    if pieces[|pieces| - 1] == Digits([]) {
      BlocksDropEmpty(pieces);
    }
    BlocksPaired(Lines(root));
  }

  /** A child slot as subTreeAddNode continues into it: a null child is
    * replaced by a placeholder. */
  function Slot(n: TreeNode): TreeNode
  {
    if n.Nil? then Placeholder() else n
  }

  /** subTreeAddNode(root, route, code): nothing below a null node; otherwise
    * walks the route (0 to the left, anything else to the right), creating a
    * placeholder for each null child on the way, and gives the node at the
    * route's end the symbol. */
  function AddNode(t: TreeNode, route: Route, code: int): (r: TreeNode)
    ensures r.Nil? <==> t.Nil?
    decreases |route|
  {
    if t.Nil? then Nil
    else if route == [] then t.(data := Some(code))
    else if route[0] == 0 then t.(left := AddNode(Slot(t.left), route[1..], code))
    else t.(right := AddNode(Slot(t.right), route[1..], code))
  }

  /** subTreeAddNode stores the symbol at the route's end and changes nothing
    * else there: the node found (or the placeholder created) keeps its
    * frequency and both subtrees. */
  lemma {:induction false} AddNodePlaces(t: TreeNode, route: Route, code: int)
    requires t.TreeNode?
    ensures SymbolAt(AddNode(t, route, code), route, code)
    ensures var e := Slot(At(t, route));
      At(AddNode(t, route, code), route) == TreeNode(Some(code), e.freq, e.left, e.right)
    decreases |route|
  {
    if route != [] {
      var c := Child(t, route[0]);
      AddNodePlaces(Slot(c), route[1..], code);
      if c.Nil? {
        AtNil(route[1..]);
      }
    }
  }

  /** subTreeAddNode leaves every node off the route unchanged. */
  lemma {:induction false} AddNodeKeepsOthers(t: TreeNode, route: Route, code: int, p: Route)
    requires !(p <= route) && !(route <= p)
    ensures At(AddNode(t, route, code), p) == At(t, p)
    decreases |route|
  {
    if t.TreeNode? {
      assert p != [] && route != [];
      var b := route[0];
      if p[0] == b {
        var c := Child(t, b);
        assert !(p[1..] <= route[1..]) && !(route[1..] <= p[1..]);
        AddNodeKeepsOthers(Slot(c), route[1..], code, p[1..]);
        if c.Nil? {
          AtNil(p[1..][1..]);
          AtNil(p[1..]);
        }
      }
    } else {
      AtNil(p);
    }
  }

  /** Along the route subTreeAddNode keeps each existing node's symbol and
    * frequency, and puts placeholders where there was no node. */
  lemma {:induction false} AddNodeAlongRoute(t: TreeNode, route: Route, code: int, p: Route)
    requires t.TreeNode? && p < route
    ensures At(AddNode(t, route, code), p).TreeNode?
    ensures At(t, p).TreeNode? ==>
      At(AddNode(t, route, code), p).data == At(t, p).data && At(AddNode(t, route, code), p).freq == At(t, p).freq
    ensures At(t, p).Nil? ==> At(AddNode(t, route, code), p).data.None? && At(AddNode(t, route, code), p).freq.None?
    decreases |route|
  {
    if p != [] {
      var b := route[0];
      var c := Child(t, b);
      assert p[0] == b && p[1..] < route[1..];
      AddNodeAlongRoute(Slot(c), route[1..], code, p[1..]);
      if c.Nil? {
        if p[1..] != [] {
          AtNil(p[1..][1..]);
        }
        AtNil(p[1..]);
      }
    }
  }

  /** subTreeAddNode for each record in turn. */
  function AddAll(root: TreeNode, recs: seq<Record>): TreeNode
    decreases |recs|
  {
    if recs == [] then root else AddAll(AddNode(root, recs[0].1, recs[0].0), recs[1..])
  }

  datatype ReadError = NumberFormat

  /** The tree HuffmanTree2(Scanner) builds: subTreeAddNode into a placeholder
    * root for each pair read. The lines running out ends the reading normally
    * (NoSuchElementException is caught); a symbol line that is no number
    * throws out of the constructor. */
  function Rebuild(lines: seq<Line>): Result<TreeNode, ReadError>
  {
    var scanned := ReadPairs(lines);
    if scanned.ending == NotANumber then Err(NumberFormat) else Ok(AddAll(Placeholder(), scanned.records))
  }

  /** HuffmanTree2(Scanner input). */
  method ReadCodeFile(lines: seq<Line>) returns (r: Result<TreeNode, ReadError>)
    ensures r == Rebuild(lines)
  {
    var root := Placeholder();
    var k := 0;
    while k < |lines|
      invariant k <= |lines|
      invariant ReadPairs(lines).ending == ReadPairs(lines[k..]).ending
      invariant AddAll(Placeholder(), ReadPairs(lines).records) == AddAll(root, ReadPairs(lines[k..]).records)
      decreases |lines| - k
    {
      if k + 1 == |lines| {
        break;
      }
      var symbol := ParseSymbol(lines[k]);
      if symbol.None? {
        return Err(NumberFormat);
      }
      assert lines[k..][2..] == lines[k + 2..];
      root := AddNode(root, RouteOf(lines[k + 1]), symbol.value);
      k := k + 2;
    }
    return Ok(root);
  }

  // The round trip toString -> Scanner constructor.

  /** The tree that reading a tree back produces: nodes without a symbol
    * become placeholders, nodes with one keep only the symbol. */
  ghost function Skeleton(t: TreeNode): TreeNode
  {
    match t
    case Nil => Nil
    case TreeNode(d, _, l, r) =>
      if d.Some? then TreeNode(d, None, Nil, Nil) else TreeNode(None, None, Skeleton(l), Skeleton(r))
  }

  lemma {:induction false} AddAllConcat(t: TreeNode, a: seq<Record>, b: seq<Record>)
    ensures AddAll(t, a + b) == AddAll(AddAll(t, a), b)
    decreases |a|
  {
    if a == [] {
      assert a + b == b;
    } else {
      assert (a + b)[1..] == a[1..] + b;
      AddAllConcat(AddNode(t, a[0].1, a[0].0), a[1..], b);
    }
  }

  /** Adding records that all start with b fills child b of a node, starting
    * from its slot. */
  lemma {:induction false} AddAllOneSide(t: TreeNode, b: bit, recs: seq<Record>)
    requires t.TreeNode? && recs != []
    ensures AddAll(t, Prepend([b], recs)) ==
      if b == 0 then t.(left := AddAll(Slot(t.left), recs)) else t.(right := AddAll(Slot(t.right), recs))
    decreases |recs|
  {
    var pr := Prepend([b], recs);
    var code := [b] + recs[0].1;
    assert pr[0] == (recs[0].0, code) && code[0] == b && code[1..] == recs[0].1;
    assert pr[1..] == Prepend([b], recs[1..]);
    var t1 := AddNode(t, code, recs[0].0);
    var slot := if b == 0 then Slot(t.left) else Slot(t.right);
    var placed := AddNode(slot, recs[0].1, recs[0].0);
    assert t1 == if b == 0 then t.(left := placed) else t.(right := placed);
    assert Slot(placed) == placed;
    assert AddAll(slot, recs) == AddAll(placed, recs[1..]);
    assert AddAll(t, pr) == AddAll(t1, pr[1..]);
    if |recs| > 1 {
      AddAllOneSide(t1, b, recs[1..]);
    }
    if b == 0 {
      assert t1.left == placed;
    } else {
      assert t1.right == placed;
    }
  }

  /** A full tree holds at least one symbol. */
  lemma {:induction false} FullHasRecords(t: TreeNode, s: Route)
    requires Full(t)
    ensures Records(t, s) != []
  {
    if t.data.None? {
      FullHasRecords(t.left, s + [0]);
    }
  }

  /** Adding a full tree's records to a placeholder builds its skeleton. */
  lemma {:induction false} AddAllRecords(t: TreeNode)
    requires Full(t)
    ensures AddAll(Placeholder(), Records(t, [])) == Skeleton(t)
  {
    if t.data.None? {
      var rl, rr := Records(t.left, []), Records(t.right, []);
      var empty: Route := [];
      assert empty + [0] == [0] && empty + [1] == [1];
      RecordsShift(t.left, [0]);
      RecordsShift(t.right, [1]);
      FullHasRecords(t.left, []);
      FullHasRecords(t.right, []);
      AddAllConcat(Placeholder(), Prepend([0], rl), Prepend([1], rr));
      AddAllOneSide(Placeholder(), 0, rl);
      AddAllRecords(t.left);
      AddAllOneSide(Placeholder().(left := Skeleton(t.left)), 1, rr);
      AddAllRecords(t.right);
    } else {
      assert Records(t, [])[1..] == [];
    }
  }

  /** The skeleton lists the same records. */
  lemma {:induction false} SkeletonRecords(t: TreeNode, s: Route)
    ensures Records(Skeleton(t), s) == Records(t, s)
  {
    if t.TreeNode? && t.data.None? {
      SkeletonRecords(t.left, s + [0]);
      SkeletonRecords(t.right, s + [1]);
    }
  }

  /** Every route of a full tree whose root holds no symbol is non-empty. */
  lemma RoutesNonEmpty(t: TreeNode)
    requires Full(t) && t.data.None?
    ensures forall i :: 0 <= i < |Records(t, [])| ==> Records(t, [])[i].1 != []
  {
    RecordsAreSymbols(t, []);
    forall i | 0 <= i < |Records(t, [])|
      ensures Records(t, [])[i].1 != []
    {
      var code := Records(t, [])[i].1;
      assert code[0..] == code;
    }
  }

  /** Reading back the text of a full tree whose root holds no symbol yields
    * every record and rebuilds the tree's skeleton, which has the same text
    * records. */
  lemma TextRoundTrip(t: TreeNode)
    requires Full(t) && t.data.None?
    ensures Pairs(Lines(t)) == Scanned(Records(t, []), Complete)
    ensures ReadPairs(Lines(t)) == Scanned(Records(t, []), Complete)
    ensures Rebuild(Lines(t)) == Ok(Skeleton(t))
    ensures Records(Skeleton(t), []) == Records(t, [])
  {
    var recs := Records(t, []);
    TextOfFull(t, []);
    RoutesNonEmpty(t);
    RecordsAreSymbols(t, []);
    assert recs != [] by {
      if recs == [] {
        assert Text(t, []) == [];
        TextBlocks(t, []);
      }
    }
    RenderLast(recs);
    assert Lines(t) == Render(recs);
    PairsRender(recs);
    ReadersAgree(Lines(t));
    AddAllRecords(t);
    SkeletonRecords(t, []);
  }

  lemma {:induction false} RenderLast(recs: seq<Record>)
    requires recs != []
    ensures Render(recs) != [] && Render(recs)[|Render(recs)| - 1] == Digits(recs[|recs| - 1].1)
  {
    if |recs| > 1 {
      RenderLast(recs[1..]);
    }
  }

  /** A tree that is a single node holding a symbol writes one line (its
    * route is empty), and reading it back loses the symbol: the route line is
    * missing, the exception is caught and the root stays a placeholder. */
  lemma LeafRootTextLost(t: TreeNode)
    requires Full(t) && t.data.Some?
    ensures Lines(t) == [Number(t.data.value)]
    ensures ReadPairs(Lines(t)) == Scanned([], MissingRoute)
    ensures Rebuild(Lines(t)) == Ok(Placeholder())
  {
    assert Text(t, [])[..1] == [Number(t.data.value)];
  }

  // assign

  /** How assign ends: normally, or by the exception that escapes it. A
    * numeral in a route line is left aside (toString never writes one). */
  datatype AssignEnd = Assigned | NumberFormatThrown | NoSuchElementThrown | IndexOutOfBoundsThrown | NumeralRouteSkipped

  function EndOf(e: Ending): AssignEnd
  {
    match e
    case Complete => Assigned
    case MissingRoute => NoSuchElementThrown
    case NotANumber => NumberFormatThrown
    case NumeralRoute => NumeralRouteSkipped
  }

  /** The codes array after storing each pair's route at its symbol, in
    * order, up to the first symbol outside the array, and how assign ends. */
  function AssignResult(codes: seq<Route>, scanned: Scanned): (r: (seq<Route>, AssignEnd))
    ensures |r.0| == |codes|
    decreases |scanned.records|
  {
    if scanned.records == [] then (codes, EndOf(scanned.ending))
    else
      var (c, route) := scanned.records[0];
      if 0 <= c < |codes| then AssignResult(codes[c := route], Scanned(scanned.records[1..], scanned.ending))
      else (codes, IndexOutOfBoundsThrown)
  }

  /** assign(codes): reads toString's lines two at a time and stores each
    * route at its symbol. */
  method Assign(root: TreeNode, codes: array<Route>) returns (e: AssignEnd)
    modifies codes
    ensures (codes[..], e) == AssignResult(old(codes[..]), Pairs(Lines(root)))
  {
    var lines := Lines(root);
    var k := 0;
    while k < |lines|
      invariant k <= |lines|
      invariant AssignResult(old(codes[..]), Pairs(lines)) == AssignResult(codes[..], Pairs(lines[k..]))
      decreases |lines| - k
    {
      var symbol := ParseSymbol(lines[k]);
      if symbol.None? {
        return NumberFormatThrown;
      }
      if k + 1 == |lines| {
        return NoSuchElementThrown;
      }
      if lines[k + 1].Number? {
        return NumeralRouteSkipped;
      }
      var c := symbol.value;
      if !(0 <= c < codes.Length) {
        return IndexOutOfBoundsThrown;
      }
      assert lines[k..][2..] == lines[k + 2..];
      codes[c] := lines[k + 1].bits;
      k := k + 2;
    }
    return Assigned;
  }

  /** Storing records whose symbols all fit the array ends as the lines do,
    * and leaves every entry no record names unchanged. */
  lemma {:induction false} AssignKeeps(codes: seq<Route>, recs: seq<Record>, ending: Ending, c: int)
    requires forall i :: 0 <= i < |recs| ==> 0 <= recs[i].0 < |codes|
    requires 0 <= c < |codes| && forall i :: 0 <= i < |recs| ==> recs[i].0 != c
    ensures AssignResult(codes, Scanned(recs, ending)).1 == EndOf(ending)
    ensures AssignResult(codes, Scanned(recs, ending)).0[c] == codes[c]
    decreases |recs|
  {
    if recs != [] {
      AssignKeeps(codes[recs[0].0 := recs[0].1], recs[1..], ending, c);
    }
  }

  /** After storing records whose symbols all fit the array, the entry of a
    * record's symbol is the route of the last record with that symbol. */
  lemma {:induction false} AssignFinds(codes: seq<Route>, recs: seq<Record>, ending: Ending, i: nat)
    requires forall k :: 0 <= k < |recs| ==> 0 <= recs[k].0 < |codes|
    requires i < |recs|
    ensures exists j ::
      0 <= j < |recs| && recs[j] == (recs[i].0, AssignResult(codes, Scanned(recs, ending)).0[recs[i].0]) &&
      forall k :: j < k < |recs| ==> recs[k].0 != recs[i].0
    decreases |recs|
  {
    var (c, route) := recs[0];
    var rest := recs[1..];
    var codes' := codes[c := route];
    var res := AssignResult(codes, Scanned(recs, ending)).0;
    assert res == AssignResult(codes', Scanned(rest, ending)).0;
    var d := recs[i].0;
    if k :| 0 <= k < |rest| && rest[k].0 == d {
      AssignFinds(codes', rest, ending, k);
      var j :|
        0 <= j < |rest| && rest[j] == (rest[k].0, res[rest[k].0]) &&
        forall m :: j < m < |rest| ==> rest[m].0 != rest[k].0;
      assert recs[j + 1] == (d, res[d]);
      assert forall m :: j + 1 < m < |recs| ==> recs[m] == rest[m - 1];
    } else {
      assert i == 0;
      AssignKeeps(codes', rest, ending, d);
      assert recs[0] == (d, res[d]);
      assert forall m :: 0 < m < |recs| ==> recs[m] == rest[m - 1];
    }
  }

  /** Storing records whose symbols all fit the array ends as the lines do. */
  lemma {:induction false} AssignEnds(codes: seq<Route>, recs: seq<Record>, ending: Ending)
    requires forall k :: 0 <= k < |recs| ==> 0 <= recs[k].0 < |codes|
    ensures AssignResult(codes, Scanned(recs, ending)).1 == EndOf(ending)
    decreases |recs|
  {
    if recs != [] {
      AssignEnds(codes[recs[0].0 := recs[0].1], recs[1..], ending);
    }
  }

  /** assign on a full tree whose root holds no symbol and whose symbols all
    * fit the array ends normally, and each symbol's entry is a route from the
    * root to a node holding that symbol; other entries are unchanged. */
  lemma AssignTable(t: TreeNode, codes: seq<Route>)
    requires Full(t) && t.data.None?
    requires forall i :: 0 <= i < |Records(t, [])| ==> 0 <= Records(t, [])[i].0 < |codes|
    ensures AssignResult(codes, Pairs(Lines(t))).1 == Assigned
    ensures forall i :: 0 <= i < |Records(t, [])| ==>
      var c := Records(t, [])[i].0; SymbolAt(t, AssignResult(codes, Pairs(Lines(t))).0[c], c)
    ensures forall c :: 0 <= c < |codes| && (forall i :: 0 <= i < |Records(t, [])| ==> Records(t, [])[i].0 != c) ==>
      AssignResult(codes, Pairs(Lines(t))).0[c] == codes[c]
  {
    var recs := Records(t, []);
    TextRoundTrip(t);
    AssignEnds(codes, recs, Complete);
    RecordsAreSymbols(t, []);
    var res := AssignResult(codes, Pairs(Lines(t))).0;
    forall i | 0 <= i < |recs|
      ensures SymbolAt(t, res[recs[i].0], recs[i].0)
    {
      AssignFinds(codes, recs, Complete, i);
      var j :| 0 <= j < |recs| && recs[j] == (recs[i].0, res[recs[i].0]);
      assert recs[j].1[0..] == recs[j].1;
    }
    forall c | 0 <= c < |codes| && (forall i :: 0 <= i < |recs| ==> recs[i].0 != c)
      ensures res[c] == codes[c]
    {
      AssignKeeps(codes, recs, Complete, c);
    }
  }

  // ---------------------------------------------------------------------
  // The binary header: serializeToBinary with write9, and the BitInputStream
  // constructor, constructFromBinary with read9

  /** The bits write9 writes and read9 reads for one symbol. */
  const SymbolBits: nat := 9

  /** 2^SymbolBits: one more than the largest symbol a header can carry. */
  const SymbolLimit: nat := 512

  function Pow2(k: nat): (p: nat)
    ensures p >= 1
  {
    if k == 0 then 1 else 2 * Pow2(k - 1)
  }

  /** The k low bits of n, least significant first. */
  function LowBits(n: nat, k: nat): (bits: seq<bit>)
    ensures |bits| == k
  {
    if k == 0 then [] else [n % 2] + LowBits(n / 2, k - 1)
  }

  /** write9(output, n): nine bits of n, least significant first. A value of
    * 512 or more loses its high bits. */
  method Write9(n: int) returns (bits: seq<bit>)
    requires n >= 0
    ensures bits == LowBits(n, SymbolBits)
  {
    bits := [];
    var m := n;
    var i := 0;
    while i < SymbolBits
      invariant 0 <= i <= SymbolBits && m >= 0
      invariant bits + LowBits(m, SymbolBits - i) == LowBits(n, SymbolBits)
    {
      assert LowBits(m, SymbolBits - i) == [m % 2] + LowBits(m / 2, SymbolBits - i - 1);
      assert bits + LowBits(m, SymbolBits - i) == (bits + [m % 2]) + LowBits(m / 2, SymbolBits - i - 1);
      bits := bits + [m % 2];
      m := m / 2;
      i := i + 1;
    }
    assert LowBits(m, 0) == [];
    assert bits + [] == bits;
  }

  /** The bits left after k calls of readBit. */
  function DropN(input: seq<bit>, k: nat): (rest: seq<bit>)
    ensures |rest| <= |input|
  {
    if k == 0 then input else DropN(Drop(input), k - 1)
  }

  /** What k calls of readBit add up to, weighted 1, 2, 4, ...; each call on
    * an exhausted stream gives -1. */
  function LittleEndian(input: seq<bit>, k: nat): int
  {
    if k == 0 then 0 else ReadBit(input) + 2 * LittleEndian(Drop(input), k - 1)
  }

  /** read9(input): the value of the next nine bits and the bits left. */
  method Read9(input: seq<bit>) returns (n: int, rest: seq<bit>)
    ensures n == LittleEndian(input, SymbolBits) && rest == DropN(input, SymbolBits)
  {
    var multiplier := 1;
    n := 0;
    rest := input;
    var i := 0;
    while i < SymbolBits
      invariant 0 <= i <= SymbolBits && multiplier == Pow2(i)
      invariant n + multiplier * LittleEndian(rest, SymbolBits - i) == LittleEndian(input, SymbolBits)
      invariant DropN(rest, SymbolBits - i) == DropN(input, SymbolBits)
    {
      var b := ReadBit(rest);
      var later := LittleEndian(Drop(rest), SymbolBits - i - 1);
      assert LittleEndian(rest, SymbolBits - i) == b + 2 * later;
      Weigh(multiplier, b, later);
      n := n + multiplier * b;
      multiplier := multiplier * 2;
      rest := Drop(rest);
      i := i + 1;
    }
  }

  /** One reading's share of the sum, and the weight of the readings after it. */
  lemma Weigh(m: int, b: int, later: int)
    ensures m * (b + 2 * later) == m * b + (m * 2) * later
  {
  }

  lemma ModDouble(n: nat, m: nat)
    requires m >= 1
    ensures n % 2 + 2 * ((n / 2) % m) == n % (2 * m)
  {
    var q, r := n / 2, n % 2;
    var a, b := q / m, q % m;
    assert n == 2 * q + r;
    assert q == m * a + b;
    assert n == (2 * m) * a + (2 * b + r);
    assert 0 <= 2 * b + r < 2 * m;
    ModUnique(n, 2 * m, a, 2 * b + r);
  }

  lemma ModUnique(n: int, d: int, a: int, c: int)
    requires d > 0 && n == d * a + c && 0 <= c < d
    ensures n % d == c
  {
    var a', c' := n / d, n % d;
    assert n == d * a' + c';
    assert d * (a' - a) == c - c' by { assert d * (a' - a) == d * a' - d * a; }
    ZeroMultiple(d, a' - a);
  }

  /** The only multiple of d strictly between -d and d is 0. */
  lemma ZeroMultiple(d: int, k: int)
    requires d > 0 && -d < d * k < d
    ensures k == 0
  {
    if k >= 1 {
      MulAtLeast(d, k);
    } else if k <= -1 {
      MulAtLeast(d, -k);
    }
  }

  lemma {:induction false} MulAtLeast(d: int, k: int)
    requires d > 0 && k >= 1
    ensures d * k >= d
  {
    if k > 1 {
      MulAtLeast(d, k - 1);
      assert d * k == d * (k - 1) + d;
    }
  }

  /** Reading k bits back after writing them gives n modulo 2^k and consumes
    * exactly those bits. */
  lemma {:induction false} LowBitsRead(n: nat, k: nat, rest: seq<bit>)
    ensures LittleEndian(LowBits(n, k) + rest, k) == n % Pow2(k)
    ensures DropN(LowBits(n, k) + rest, k) == rest
  {
    if k == 0 {
      assert LowBits(n, k) + rest == rest;
    } else {
      var tail := LowBits(n / 2, k - 1) + rest;
      assert LowBits(n, k) + rest == [n % 2] + tail;
      assert Drop([n % 2] + tail) == tail;
      LowBitsRead(n / 2, k - 1, rest);
      ModDouble(n, Pow2(k - 1));
    }
  }

  /** read9 undoes write9 for 0 <= n < 512 (the contract both of them state);
    * a larger n reads back as n % 512. */
  lemma NineBitsRoundTrip(n: nat, rest: seq<bit>)
    ensures LittleEndian(LowBits(n, SymbolBits) + rest, SymbolBits) == n % SymbolLimit
    ensures n < SymbolLimit ==> LittleEndian(LowBits(n, SymbolBits) + rest, SymbolBits) == n
    ensures DropN(LowBits(n, SymbolBits) + rest, SymbolBits) == rest
  {
    LowBitsRead(n, SymbolBits, rest);
    NineBitLimit();
    if n < SymbolLimit {
      ModUnique(n, SymbolLimit, 0, n);
    }
  }

  /** Nine bits carry the values 0 .. 511. */
  lemma NineBitLimit()
    ensures Pow2(SymbolBits) == SymbolLimit
  {
    assert Pow2(3) == 8;
    assert Pow2(6) == 8 * Pow2(3) by {
      assert Pow2(6) == 2 * Pow2(5) && Pow2(5) == 2 * Pow2(4) && Pow2(4) == 2 * Pow2(3);
    }
    assert Pow2(9) == 8 * Pow2(6) by {
      assert Pow2(9) == 2 * Pow2(8) && Pow2(8) == 2 * Pow2(7) && Pow2(7) == 2 * Pow2(6);
    }
  }

  /** read9 on an exhausted stream. */
  lemma {:induction false} ExhaustedRead(k: nat)
    ensures LittleEndian([], k) == 1 - Pow2(k)
  {
    if k > 0 {
      ExhaustedRead(k - 1);
    }
  }

  /** Every symbol serializeToBinary writes is non-negative, which write9 needs. */
  ghost predicate NonNegativeData(t: TreeNode)
  {
    match t
    case Nil => true
    case TreeNode(d, _, l, r) => if d.Some? then d.value >= 0 else NonNegativeData(l) && NonNegativeData(r)
  }

  /** serializeToBinary(output, root): nothing for a null node; otherwise 1
    * and the symbol's nine bits, or 0 and both subtrees. */
  function Serialize(t: TreeNode): seq<bit>
    requires NonNegativeData(t)
  {
    match t
    case Nil => []
    case TreeNode(d, _, l, r) =>
      if d.Some? then [1] + LowBits(d.value, SymbolBits) else [0] + Serialize(l) + Serialize(r)
  }

  /** constructFromBinary(input, new node): the tree read and the bits left.
    * None where a flag bit is due and the stream is exhausted: readBit then
    * gives -1, which is not 1, so constructFromBinary recurses without end. A
    * symbol cut short reads its missing bits as -1. */
  function FromBinary(input: seq<bit>): (r: Option<(TreeNode, seq<bit>)>)
    ensures r.Some? ==> |r.value.1| < |input|
    decreases |input|
  {
    if input == [] then None
    else if input[0] == 1 then Some((TreeNode(Some(LittleEndian(input[1..], SymbolBits)), None, Nil, Nil), DropN(input[1..], SymbolBits)))
    else
      match FromBinary(input[1..])
      case None => None
      case Some((l, mid)) =>
        match FromBinary(mid)
        case None => None
        case Some((r, rest)) => Some((TreeNode(None, None, l, r), rest))
  }

  /** The trees writeHeader writes so that the constructor can read them:
    * full, with every symbol in 0 .. 511. */
  ghost predicate HeaderReadable(t: TreeNode)
  {
    match t
    case Nil => false
    case TreeNode(d, _, l, r) =>
      if d.Some? then 0 <= d.value < SymbolLimit else HeaderReadable(l) && HeaderReadable(r)
  }

  /** Reading back what writeHeader writes rebuilds the tree's skeleton and
    * leaves what follows the header unread. */
  lemma {:induction false} HeaderRoundTrip(t: TreeNode, rest: seq<bit>)
    requires HeaderReadable(t)
    ensures NonNegativeData(t) && FromBinary(Serialize(t) + rest) == Some((Skeleton(t), rest))
  {
    HeaderNonNegative(t);
    if t.data.Some? {
      HeaderLeaf(t, rest);
    } else {
      HeaderNonNegative(t.left);
      HeaderNonNegative(t.right);
      HeaderRoundTrip(t.left, Serialize(t.right) + rest);
      HeaderRoundTrip(t.right, rest);
      HeaderBranch(t, rest);
    }
  }

  lemma HeaderLeaf(t: TreeNode, rest: seq<bit>)
    requires t.TreeNode? && t.data.Some? && 0 <= t.data.value < SymbolLimit
    ensures NonNegativeData(t) && FromBinary(Serialize(t) + rest) == Some((Skeleton(t), rest))
  {
    var d := t.data.value;
    var bits := LowBits(d, SymbolBits);
    var input := Serialize(t) + rest;
    assert Serialize(t) == [1] + bits;
    assert input[0] == 1 && input[1..] == bits + rest;
    NineBitsRoundTrip(d, rest);
    assert FromBinary(input) == Some((TreeNode(Some(LittleEndian(bits + rest, SymbolBits)), None, Nil, Nil), DropN(bits + rest, SymbolBits)));
  }

  lemma HeaderBranch(t: TreeNode, rest: seq<bit>)
    requires t.TreeNode? && t.data.None? && NonNegativeData(t.left) && NonNegativeData(t.right)
    requires FromBinary(Serialize(t.left) + (Serialize(t.right) + rest)) == Some((Skeleton(t.left), Serialize(t.right) + rest))
    requires FromBinary(Serialize(t.right) + rest) == Some((Skeleton(t.right), rest))
    ensures NonNegativeData(t) && FromBinary(Serialize(t) + rest) == Some((Skeleton(t), rest))
  {
    var sl, sr := Serialize(t.left), Serialize(t.right);
    assert Serialize(t) == [0] + sl + sr;
    Regroup([0], sl, sr, rest);
    BranchRead(sl + (sr + rest), Skeleton(t.left), Skeleton(t.right), sr + rest, rest);
  }

  /** A 0 flag followed by a left and a right header reads as a node without
    * a symbol over the two trees read. */
  lemma BranchRead(x: seq<bit>, l: TreeNode, r: TreeNode, mid: seq<bit>, rest: seq<bit>)
    requires FromBinary(x) == Some((l, mid)) && FromBinary(mid) == Some((r, rest))
    ensures FromBinary([0] + x) == Some((TreeNode(None, None, l, r), rest))
  {
    assert ([0] + x)[0] == 0 && ([0] + x)[1..] == x;
  }

  lemma {:induction false} HeaderNonNegative(t: TreeNode)
    requires HeaderReadable(t)
    ensures NonNegativeData(t)
  {
    if t.data.None? {
      HeaderNonNegative(t.left);
      HeaderNonNegative(t.right);
    }
  }

  /** A full tree whose symbols are all below 512 can be written as a header. */
  lemma {:induction false} SymbolsReadable(t: TreeNode)
    requires Full(t) && forall x :: x in Leaves(t) ==> 0 <= x.0 < SymbolLimit
    ensures HeaderReadable(t)
  {
    if t.data.None? {
      SymbolsReadable(t.left);
      SymbolsReadable(t.right);
    } else {
      assert (t.data.value, Weight(t)) in Leaves(t);
    }
  }

  /** The tree the counts constructor builds for fewer than 512 counts
    * survives writeHeader and the BitInputStream constructor. */
  lemma BuiltHeaderRoundTrip(counts: seq<int>, t: TreeNode, rest: seq<bit>)
    requires |counts| < SymbolLimit
    requires Full(t) && Leaves(t) == NonzeroLeaves(counts, |counts|) + multiset{(|counts|, 1)}
    ensures NonNegativeData(t) && FromBinary(Serialize(t) + rest) == Some((Skeleton(t), rest))
  {
    forall x | x in Leaves(t)
      ensures 0 <= x.0 < SymbolLimit
    {
      BuiltLeaves(counts, x.0, x.1);
    }
    SymbolsReadable(t);
    HeaderRoundTrip(t, rest);
  }

  /** A header cut short after a leaf's flag bit still reads a leaf, with no
    * error: its nine missing bits each count as -1. */
  lemma TruncatedLeaf()
    ensures FromBinary([1]) == Some((TreeNode(Some(-511), None, Nil, Nil), []))
  {
    ExhaustedRead(SymbolBits);
    NineBitLimit();
  }

  // ---------------------------------------------------------------------
  // decode

  datatype Stop = ReachedEof | NullNode | EndOfStream

  /** The bytes written and why decoding stopped. */
  datatype Decoded = Decoded(output: seq<byte>, stop: Stop)

  /** The loop of decode from node cur, with input the unread bits and out the
    * bytes written. A node holding a symbol other than eof is written when the
    * next bit is read, and that bit is the first step from the root again. */
  ghost function Run(root: TreeNode, eof: int, cur: TreeNode, input: seq<bit>, out: seq<byte>): Decoded
    decreases |input|
  {
    if cur.Nil? then Decoded(out, NullNode)
    else if cur.data == Some(eof) then Decoded(out, ReachedEof)
    else if input == [] then Decoded(out, EndOfStream)
    else
      var from := if cur.data.Some? then root else cur;
      var out' := if cur.data.Some? then out + [cur.data.value % 256] else out;
      Run(root, eof, Child(from, input[0]), input[1..], out')
  }

  /** decode(input, output, eof). */
  method Decode(root: TreeNode, input: seq<bit>, eof: int) returns (r: Decoded)
    ensures r == Run(root, eof, root, input, [])
  {
    var cur := root;
    var pos := 0;
    var out: seq<byte> := [];
    while cur.TreeNode? && cur.data != Some(eof) && pos < |input|
      invariant pos <= |input|
      invariant Run(root, eof, root, input, []) == Run(root, eof, cur, input[pos..], out)
      decreases |input| - pos
    {
      var b := input[pos];
      assert input[pos..][1..] == input[pos + 1..];
      pos := pos + 1;
      if cur.data.Some? {
        out := out + [cur.data.value % 256];
        cur := root;
      }
      cur := Child(cur, b);
    }
    r := Decoded(out, if cur.Nil? then NullNode else if cur.data == Some(eof) then ReachedEof else EndOfStream);
  }

  /** Route p of t leads to a node holding a symbol. */
  ghost predicate SymbolRoute(t: TreeNode, p: Route)
  {
    At(t, p).TreeNode? && At(t, p).data.Some?
  }

  /** The bytes decode writes for a message given as routes to symbols. */
  ghost function Emitted(t: TreeNode, msg: seq<Route>): seq<byte>
  {
    if msg == [] then []
    else [(if SymbolRoute(t, msg[0]) then At(t, msg[0]).data.value else 0) % 256] + Emitted(t, msg[1..])
  }

  /** Following a route of a full tree to a symbol passes only nodes without
    * one, one bit per step. */
  lemma {:induction false} Walk(root: TreeNode, eof: int, cur: TreeNode, p: Route, more: seq<bit>, out: seq<byte>)
    requires Full(cur) && At(cur, p).TreeNode?
    ensures Run(root, eof, cur, p + more, out) == Run(root, eof, At(cur, p), more, out)
  {
    if p == [] {
      assert p + more == more;
    } else {
      if cur.data.Some? {
        AtNil(p[1..]);
        assert false;
      }
      var child := Child(cur, p[0]);
      assert (p + more)[0] == p[0] && (p + more)[1..] == p[1..] + more;
      Walk(root, eof, child, p[1..], more, out);
    }
  }

  /** At a symbol other than eof with input left, decode writes the symbol's
    * low byte and carries on from the root. */
  lemma LeafStep(root: TreeNode, eof: int, leaf: TreeNode, input: seq<bit>, out: seq<byte>)
    requires root.TreeNode? && root.data.None?
    requires leaf.TreeNode? && leaf.data.Some? && leaf.data.value != eof && input != []
    ensures Run(root, eof, leaf, input, out) == Run(root, eof, root, input, out + [leaf.data.value % 256])
  {
  }

  /** In a tree whose root holds no symbol, every route to a symbol is non-empty. */
  lemma RouteNonEmpty(t: TreeNode, p: Route)
    requires t.TreeNode? && t.data.None? && SymbolRoute(t, p)
    ensures p != []
  {
  }

  /** decode fed the routes of symbols c1..cn (none of them eof) and then the
    * route of eof writes the low bytes of c1..cn and stops at eof, whatever
    * bits follow. */
  lemma {:induction false} DecodeMessage(t: TreeNode, eof: int, msg: seq<Route>, eofCode: Route, rest: seq<bit>, out: seq<byte>)
    requires Full(t) && t.data.None?
    requires forall i :: 0 <= i < |msg| ==> SymbolRoute(t, msg[i]) && At(t, msg[i]).data != Some(eof)
    requires SymbolAt(t, eofCode, eof)
    ensures Run(t, eof, t, Flatten(msg) + eofCode + rest, out) == Decoded(out + Emitted(t, msg), ReachedEof)
    decreases |msg|
  {
    if msg == [] {
      assert Flatten(msg) + eofCode + rest == eofCode + rest;
      Walk(t, eof, t, eofCode, rest, out);
    } else {
      var p, tail := msg[0], msg[1..];
      var more := Flatten(tail) + eofCode + rest;
      assert Flatten(msg) + eofCode + rest == p + more;
      Walk(t, eof, t, p, more, out);
      var leaf := At(t, p);
      RouteNonEmpty(t, eofCode);
      assert more != [];
      LeafStep(t, eof, leaf, more, out);
      var out' := out + [leaf.data.value % 256];
      assert forall i :: 0 <= i < |tail| ==> tail[i] == msg[i + 1];
      DecodeMessage(t, eof, tail, eofCode, rest, out');
      assert Emitted(t, msg) == [leaf.data.value % 256] + Emitted(t, tail);
      AppendOne(out, leaf.data.value % 256, Emitted(t, tail));
    }
  }

  /** Without the route of eof at the end, decode stops when the input runs
    * out, before it writes the last symbol: that symbol is only written when a
    * further bit is read. */
  lemma {:induction false} DecodeWithoutEof(t: TreeNode, eof: int, msg: seq<Route>, out: seq<byte>)
    requires Full(t) && t.data.None? && msg != []
    requires forall i :: 0 <= i < |msg| ==> SymbolRoute(t, msg[i]) && At(t, msg[i]).data != Some(eof)
    ensures Run(t, eof, t, Flatten(msg), out) == Decoded(out + Emitted(t, msg[..|msg| - 1]), EndOfStream)
    decreases |msg|
  {
    var p, tail := msg[0], msg[1..];
    assert Flatten(msg) == p + Flatten(tail);
    Walk(t, eof, t, p, Flatten(tail), out);
    var leaf := At(t, p);
    if tail == [] {
      assert msg[..|msg| - 1] == [];
    } else {
      RouteNonEmpty(t, tail[0]);
      assert Flatten(tail) == tail[0] + Flatten(tail[1..]);
      LeafStep(t, eof, leaf, Flatten(tail), out);
      var out' := out + [leaf.data.value % 256];
      assert forall i :: 0 <= i < |tail| ==> tail[i] == msg[i + 1];
      DecodeWithoutEof(t, eof, tail, out');
      assert msg[..|msg| - 1] == [p] + tail[..|tail| - 1];
      assert Emitted(t, msg[..|msg| - 1]) == [leaf.data.value % 256] + Emitted(t, tail[..|tail| - 1]);
      assert out' + Emitted(t, tail[..|tail| - 1]) == out + Emitted(t, msg[..|msg| - 1]);
    }
  }

  lemma {:induction false} EmittedCodes(t: TreeNode, recs: seq<Record>, idx: seq<nat>)
    requires forall j :: 0 <= j < |recs| ==> SymbolAt(t, recs[j].1, recs[j].0)
    requires forall i :: 0 <= i < |idx| ==> idx[i] < |recs|
    ensures Emitted(t, Codes(recs, idx)) == Bytes(recs, idx)
  {
    if idx != [] {
      EmittedCodes(t, recs, idx[1..]);
      assert Codes(recs, idx)[1..] == Codes(recs, idx[1..]);
    }
  }

  /** decode fed the routes toString lists for some symbols, then the route
    * it lists for eof, writes exactly those symbols' low bytes and stops at
    * the eof leaf, whatever bits follow. */
  lemma DecodeListedCodes(t: TreeNode, eof: int, recs: seq<Record>, idx: seq<nat>, e: nat, rest: seq<bit>)
    requires Full(t) && t.data.None? && recs == Records(t, [])
    requires forall i :: 0 <= i < |idx| ==> idx[i] < |recs| && recs[idx[i]].0 != eof
    requires e < |recs| && recs[e].0 == eof
    ensures Run(t, eof, t, Flatten(Codes(recs, idx)) + recs[e].1 + rest, []) == Decoded(Bytes(recs, idx), ReachedEof)
  {
    ListedSymbols(t, recs);
    var msg := Codes(recs, idx);
    CodesPick(recs, idx);
    assert forall i :: 0 <= i < |msg| ==> SymbolRoute(t, msg[i]) && At(t, msg[i]).data != Some(eof) by {
      assert forall i :: 0 <= i < |msg| ==> msg[i] == recs[idx[i]].1;
    }
    DecodeMessage(t, eof, msg, recs[e].1, rest, []);
    EmittedCodes(t, recs, idx);
  }

  /** Each record toString lists routes to a node holding its symbol. */
  lemma ListedSymbols(t: TreeNode, recs: seq<Record>)
    requires recs == Records(t, [])
    ensures forall j :: 0 <= j < |recs| ==> SymbolAt(t, recs[j].1, recs[j].0)
  {
    RecordsAreSymbols(t, []);
    assert forall j :: 0 <= j < |recs| ==> recs[j].1[0..] == recs[j].1;
  }
}
