/** Vocabulary shared by the two Huffman code tree implementations: bit
  * streams, routes, the text code file, and the extract-min step of a
  * priority queue. */
module Common {

  /** One bit of a bit stream, as readBit returns it while input remains. */
  type bit = x: int | 0 <= x <= 1

  /** One byte, as PrintStream.write(int) emits it. */
  type byte = x: int | 0 <= x < 256

  /** A route from the root: 0 steps to the left child ('0'), 1 to the right ('1'). */
  type Route = seq<bit>

  /** One leaf in the text code file: its symbol line and its route line. */
  type Record = (int, Route)

  /** A text code file as a line reader sees it: the complete (symbol, route)
    * line pairs in order, and whether one more line follows the last pair. */
  datatype CodeFile = CodeFile(records: seq<Record>, unpaired: bool)

  datatype Option<T> = None | Some(value: T)

  datatype Result<T, E> = Ok(value: T) | Err(error: E)

  /** readBit on the unread rest of a stream: -1 once it is exhausted. */
  function ReadBit(input: seq<bit>): int
  {
    if input == [] then -1 else input[0]
  }

  /** The unread rest after one readBit; an exhausted stream stays exhausted. */
  function Drop(input: seq<bit>): seq<bit>
  {
    if input == [] then [] else input[1..]
  }

  /** The codes of a message, one after another. */
  function Flatten(codes: seq<Route>): seq<bit>
  {
    if codes == [] then [] else codes[0] + Flatten(codes[1..])
  }

  /** The codes of a message are its first code, then the codes of the rest. */
  lemma FlattenFirst(codes: seq<Route>, after: seq<bit>)
    requires codes != []
    ensures Flatten(codes) == codes[0] + Flatten(codes[1..])
    ensures |Flatten(codes)| == |codes[0]| + |Flatten(codes[1..])|
    ensures Flatten(codes) + after == codes[0] + (Flatten(codes[1..]) + after)
  {
  }

  /** No record's route is a prefix of (or equal to) another record's route. */
  ghost predicate PrefixFree(recs: seq<Record>)
  {
    forall i, j :: 0 <= i < |recs| && 0 <= j < |recs| && i != j ==> !(recs[i].1 <= recs[j].1)
  }

  /** Routes that leave s by different children never start one another. */
  lemma ForkedRoutes(s: Route, a: Route, b: Route)
    requires s + [0] <= a && s + [1] <= b
    ensures !(a <= b) && !(b <= a)
  {
    assert a[|s|] == 0 && b[|s|] == 1;
  }

  /** The records with route s put in front of every route. */
  function Prepend(s: Route, recs: seq<Record>): (r: seq<Record>)
    ensures |r| == |recs|
    ensures forall i :: 0 <= i < |recs| ==> r[i] == (recs[i].0, s + recs[i].1)
  {
    if recs == [] then [] else [(recs[0].0, s + recs[0].1)] + Prepend(s, recs[1..])
  }

  lemma PrependConcat(s: Route, a: seq<Record>, b: seq<Record>)
    ensures Prepend(s, a + b) == Prepend(s, a) + Prepend(s, b)
  {
    assert forall i :: 0 <= i < |a + b| ==> Prepend(s, a + b)[i] == (Prepend(s, a) + Prepend(s, b))[i];
  }

  lemma PrependTwice(s: Route, t: Route, a: seq<Record>)
    ensures Prepend(s, Prepend(t, a)) == Prepend(s + t, a)
  {
    forall i | 0 <= i < |a|
      ensures Prepend(s, Prepend(t, a))[i] == Prepend(s + t, a)[i]
    {
      assert s + (t + a[i].1) == (s + t) + a[i].1;
    }
  }

  /** A sequence is its part before i, its element at i and its part after i. */
  lemma SplitAt<T>(q: seq<T>, i: nat)
    requires i < |q|
    ensures q == (q[..i] + [q[i]]) + q[i + 1..]
  {
    assert forall j :: 0 <= j < |q| ==> q[j] == ((q[..i] + [q[i]]) + q[i + 1..])[j];
  }

  /** Concatenation regrouped to the right. */
  lemma Regroup<T>(a: seq<T>, b: seq<T>, c: seq<T>, d: seq<T>)
    ensures a + b + c + d == a + (b + (c + d))
  {
  }

  /** Appending one element and then a sequence appends both at once. */
  lemma AppendOne<T>(out: seq<T>, x: T, later: seq<T>)
    ensures (out + [x]) + later == out + ([x] + later)
  {
  }

  /** Taking out the element at position i leaves the other elements. */
  lemma RemoveAt<T>(q: seq<T>, i: nat)
    requires i < |q|
    ensures multiset(q[..i] + q[i + 1..]) + multiset{q[i]} == multiset(q)
  {
    SplitAt(q, i);
  }

  /** A position of a least key: the first one. */
  ghost function FirstLeast(keys: seq<int>): (i: nat)
    requires |keys| > 0
    ensures i < |keys|
    ensures forall j :: 0 <= j < |keys| ==> keys[i] <= keys[j]
  {
    if |keys| == 1 then 0
    else
      var k := FirstLeast(keys[..|keys| - 1]);
      if keys[k] <= keys[|keys| - 1] then k else |keys| - 1
  }

  /** PriorityQueue.remove: the position of some element of least key. Which
    * one among equal keys is not specified, so none is promised. */
  method IndexOfMin(keys: seq<int>) returns (i: nat)
    requires |keys| > 0
    ensures i < |keys|
    ensures forall j :: 0 <= j < |keys| ==> keys[i] <= keys[j]
  {
    ghost var least := FirstLeast(keys);
    i :| i < |keys| && forall j :: 0 <= j < |keys| ==> keys[i] <= keys[j];
  }

  /** The routes of the records picked by idx, in order. */
  function Codes(recs: seq<Record>, idx: seq<nat>): seq<Route>
    requires forall i :: 0 <= i < |idx| ==> idx[i] < |recs|
  {
    if idx == [] then [] else [recs[idx[0]].1] + Codes(recs, idx[1..])
  }

  /** The low bytes of the characters of the records picked by idx, in order. */
  function Bytes(recs: seq<Record>, idx: seq<nat>): seq<byte>
    requires forall i :: 0 <= i < |idx| ==> idx[i] < |recs|
  {
    if idx == [] then [] else [recs[idx[0]].0 % 256] + Bytes(recs, idx[1..])
  }

  /** Codes picks, position by position, the route of the record idx names. */
  lemma {:induction false} CodesPick(recs: seq<Record>, idx: seq<nat>)
    requires forall i :: 0 <= i < |idx| ==> idx[i] < |recs|
    ensures |Codes(recs, idx)| == |idx|
    ensures forall i :: 0 <= i < |idx| ==> Codes(recs, idx)[i] == recs[idx[i]].1
  {
    if idx != [] {
      CodesPick(recs, idx[1..]);
    }
  }
}
