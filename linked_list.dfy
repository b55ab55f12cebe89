/**
 * A mutable singly linked list of integers: a `LinkedList` holds a reference
 * to its first `Node`, and every node holds a value and a reference to its
 * successor. The ghost fields `Nodes` and `Contents` give the abstract view:
 * the chain of node objects from the head, and the values they hold.
 */
module LinkedLists {
  import opened Seqs

  /** Python's `None` for queries that may find no value. */
  datatype Option<T> = None | Some(value: T)

  /** The three kinds of answer `get_at_index` gives. */
  datatype IndexResult = Error(message: string) | Nothing | Value(value: int)

  /** The string `get_at_index` returns for a negative index. */
  const NegativeIndexMessage: string := "Error: this is a singly linked list..."

  class Node {
    var value: int
    var next: Node?

    constructor (value: int, next: Node?)
      ensures this.value == value && this.next == next
    {
      this.value := value;
      this.next := next;
    }
  }

  /** Every successor of a node in `ns` is again in `ns` (or is the end of the chain). */
  ghost predicate ClosedUnder(ns: seq<Node>)
    reads ns
  {
    forall n :: n in ns ==> n.next == null || n.next in ns
  }

  /** The node reached from `n` after following `k` links, or null once the chain has ended. */
  ghost function Walk(ns: seq<Node>, n: Node?, k: nat): (r: Node?)
    requires ClosedUnder(ns) && (n == null || n in ns)
    reads ns
    ensures r == null || r in ns
  {
    if k == 0 || n == null then n else Walk(ns, n.next, k - 1)
  }

  /** Following `a + b` links is following `a` links, then `b` more. */
  lemma {:induction false} WalkSplit(ns: seq<Node>, n: Node?, a: nat, b: nat)
    requires ClosedUnder(ns) && (n == null || n in ns)
    ensures Walk(ns, n, a + b) == Walk(ns, Walk(ns, n, a), b)
    decreases a
  {
    if a > 0 && n != null {
      WalkSplit(ns, n.next, a - 1, b);
    }
  }

  /**
   * A walk that comes back to a node it has visited before never ends: if
   * the first `i + 1` steps from `h` are all nodes and step `j < i` equals
   * step `i`, no step reaches the end.
   */
  lemma {:induction false} RepeatNeverEnds(ns: seq<Node>, h: Node?, j: nat, i: nat, k: nat)
    requires ClosedUnder(ns) && (h == null || h in ns)
    requires j < i
    requires forall t :: 0 <= t <= i ==> Walk(ns, h, t) != null
    requires Walk(ns, h, j) == Walk(ns, h, i)
    ensures Walk(ns, h, k) != null
    decreases k
  {
    if k > i {
      var m := k - i;
      calc {
        Walk(ns, h, k);
      == { WalkSplit(ns, h, i, m); }
        Walk(ns, Walk(ns, h, i), m);
      == { WalkSplit(ns, h, j, m); }
        Walk(ns, h, j + m);
      }
      RepeatNeverEnds(ns, h, j, i, j + m);
    }
  }

  /** In a node set where every node has a successor, no walk ever reaches the end. */
  lemma {:induction false} NoEndNeverEnds(ns: seq<Node>, h: Node, k: nat)
    requires ClosedUnder(ns) && h in ns
    requires forall n :: n in ns ==> n.next != null
    ensures Walk(ns, h, k) != null
    decreases k
  {
    if k > 0 {
      NoEndNeverEnds(ns, h.next, k - 1);
    }
  }

  /**
   * `ns` is a chain of distinct nodes holding `vs` in order: each node links
   * to the next, and the last one links to nothing.
   */
  ghost predicate Chain(ns: seq<Node>, vs: seq<int>)
    reads ns
  {
    |ns| == |vs| && Distinct(ns) &&
    (forall i :: 0 <= i < |ns| ==> ns[i].value == vs[i]) &&
    (forall i :: 0 <= i < |ns| - 1 ==> ns[i].next == ns[i + 1]) &&
    (ns != [] ==> ns[|ns| - 1].next == null)
  }

  /**
   * Distinct nodes holding `vs` that are linked in order, except that node
   * `k - 1` links past node `k` to node `k + 1` (or to nothing), form a chain
   * without node `k`.
   */
  lemma UnlinkedChain(ns: seq<Node>, vs: seq<int>, k: nat)
    requires |ns| == |vs| && Distinct(ns) && 0 < k < |ns|
    requires forall j :: 0 <= j < |ns| ==> ns[j].value == vs[j]
    requires forall j :: 0 <= j < |ns| - 1 && j != k - 1 && j != k ==> ns[j].next == ns[j + 1]
    requires ns[k - 1].next == if k + 1 < |ns| then ns[k + 1] else null
    requires k < |ns| - 1 ==> ns[|ns| - 1].next == null
    ensures Chain(RemoveAt(ns, k), RemoveAt(vs, k))
  {
    var rs := RemoveAt(ns, k);
    forall j | 0 <= j < |rs|
      ensures rs[j] == ns[if j < k then j else j + 1]
      ensures RemoveAt(vs, k)[j] == vs[if j < k then j else j + 1]
    {
      RemoveAtAt(ns, k, j);
      RemoveAtAt(vs, k, j);
    }
    RemoveAtDistinct(ns, k);
  }

  class LinkedList {
    var head: Node?

    /** The nodes of the chain, from the head. */
    ghost var Nodes: seq<Node>
    /** The values of the chain, from the head. */
    ghost var Contents: seq<int>

    /**
     * The object invariant of every list built by the operations other than
     * `CreateCycle`: `head` starts a chain of distinct nodes that ends in
     * null, and those nodes hold `Contents` in order.
     */
    ghost predicate Valid()
      reads this, Nodes
    {
      Chain(Nodes, Contents) && head == if Nodes == [] then null else Nodes[0]
    }

    /**
     * The weaker invariant that survives `CreateCycle`: following links from
     * the head never leaves the set of nodes.
     */
    ghost predicate Closed()
      reads this, Nodes
    {
      (head == null || head in Nodes) && ClosedUnder(Nodes)
    }

    /** Following links from the head never reaches the end: the chain has a cycle. */
    ghost predicate Endless()
      reads this, Nodes
      requires Closed()
    {
      forall k: nat :: Walk(Nodes, head, k) != null
    }

    /** In a valid list, step `k` from the head is the `k`-th node, and step `|Nodes|` is the end. */
    lemma ValidWalk()
      requires Valid()
      ensures Closed()
      ensures forall k :: 0 <= k < |Nodes| ==> Walk(Nodes, head, k) == Nodes[k]
      ensures Walk(Nodes, head, |Nodes|) == null
    {
      ValidIsClosed();
      forall k | 0 <= k <= |Nodes|
        ensures Walk(Nodes, head, k) == if k < |Nodes| then Nodes[k] else null
      {
        if Nodes != [] {
          WalkFrom(0, k);
        }
      }
    }

    lemma {:induction false} WalkFrom(i: nat, k: nat)
      requires Valid() && i < |Nodes| && i + k <= |Nodes|
      ensures Closed()
      ensures Walk(Nodes, Nodes[i], k) == if i + k < |Nodes| then Nodes[i + k] else null
      decreases k
    {
      ValidIsClosed();
      if k > 0 {
        if i + 1 < |Nodes| {
          WalkFrom(i + 1, k - 1);
        }
      }
    }

    /** In a valid list every successor of a node is again one of the nodes. */
    lemma ValidIsClosed()
      requires Valid()
      ensures Closed()
    {
      forall n | n in Nodes
        ensures n.next == null || n.next in Nodes
      {
        var i :| 0 <= i < |Nodes| && Nodes[i] == n;
        if i < |Nodes| - 1 {
          assert n.next == Nodes[i + 1];
        }
      }
    }

    /** In a valid list exactly the last node has no successor. */
    lemma NextIsNull(i: nat)
      requires Valid() && i < |Nodes|
      ensures Nodes[i].next == null <==> i == |Nodes| - 1
    {
      if i < |Nodes| - 1 {
        assert Nodes[i].next == Nodes[i + 1];
      }
    }

    /** A valid list has no cycle. */
    lemma ValidNotEndless()
      requires Valid()
      ensures Closed() && !Endless()
    {
      ValidWalk();
    }

    constructor ()
      ensures Valid() && Contents == [] && Nodes == []
    {
      head := null;
      Nodes := [];
      Contents := [];
    }

    /** `get_first`: the first value, or None on an empty list. */
    method GetFirst() returns (r: Option<int>)
      requires Valid()
      ensures r.None? <==> Contents == []
      ensures r.Some? ==> r.value == Contents[0]
    {
      if head == null {
        return None;
      }
      return Some(head.value);
    }

    /** `add_first`: a new node holding `value` becomes the head. */
    method AddFirst(value: int)
      requires Valid()
      modifies this
      ensures Valid()
      ensures Contents == [value] + old(Contents)
      ensures |Nodes| == |old(Nodes)| + 1 && fresh(Nodes[0]) && Nodes[1..] == old(Nodes)
    {
      var newNode := new Node(value, null);
      newNode.next := head;
      head := newNode;
      Nodes := [newNode] + Nodes;
      Contents := [value] + Contents;
    }

    /** `search`: whether some node holds `value`. */
    method Search(value: int) returns (found: bool)
      requires Valid()
      ensures found <==> value in Contents
    {
      var cur := head;
      ghost var i := 0;
      while cur != null
        invariant 0 <= i <= |Nodes|
        invariant i < |Nodes| ==> cur == Nodes[i]
        invariant i == |Nodes| ==> cur == null
        invariant value !in Contents[..i]
        decreases |Nodes| - i
      {
        if cur.value == value {
          return true;
        }
        cur := cur.next;
        i := i + 1;
      }
      assert Contents[..i] == Contents;
      return false;
    }

    /** `length`: the number of nodes from the head to the end. */
    method Length() returns (count: nat)
      requires Valid()
      ensures count == |Contents|
    {
      count := 0;
      var cur := head;
      while cur != null
        invariant count <= |Nodes|
        invariant count < |Nodes| ==> cur == Nodes[count]
        invariant count == |Nodes| ==> cur == null
        decreases |Nodes| - count
      {
        count := count + 1;
        cur := cur.next;
      }
    }

    /**
     * `get_at_index`: a negative index gives the error string; an index past
     * the length, or any index on an empty list, gives None; otherwise the
     * value at that zero-based position. The guard lets `index == length`
     * through on a non-empty list, and the walk then runs off the end of the
     * chain, so callers must not ask for it.
     */
    method GetAtIndex(index: int) returns (r: IndexResult)
      requires Valid()
      requires index != |Contents| || Contents == []
      ensures index < 0 ==> r == Error(NegativeIndexMessage)
      ensures 0 <= index && (Contents == [] || |Contents| < index) ==> r == Nothing
      ensures 0 <= index < |Contents| ==> r == Value(Contents[index])
    {
      if index < 0 {
        return Error(NegativeIndexMessage);
      }
      var length := Length();
      if length == 0 || length < index {
        return Nothing;
      }
      var cur := head;
      if index == 0 {
        return Value(cur.value);
      }
      for k := 0 to index
        invariant cur == Nodes[k]
      {
        cur := cur.next;
      }
      return Value(cur.value);
    }

    /** `get_last`: the last value, or None on an empty list. */
    method GetLast() returns (r: Option<int>)
      requires Valid()
      ensures r.None? <==> Contents == []
      ensures r.Some? ==> r.value == Contents[|Contents| - 1]
    {
      if head == null {
        return None;
      }
      var cur := head;
      ghost var i := 0;
      while cur.next != null
        invariant 0 <= i < |Nodes| && cur == Nodes[i]
        decreases |Nodes| - i
      {
        cur := cur.next;
        i := i + 1;
      }
      NextIsNull(i);
      return Some(cur.value);
    }

    /** `add_last`: a new node holding `value` is linked after the last node. */
    method AddLast(value: int)
      requires Valid()
      modifies this, Nodes
      ensures Valid()
      ensures Contents == old(Contents) + [value]
      ensures |Nodes| == |old(Nodes)| + 1 && Nodes[..|old(Nodes)|] == old(Nodes)
      ensures fresh(Nodes[|Nodes| - 1])
    {
      var newNode := new Node(value, null);
      if head == null {
        head := newNode;
        Nodes := [newNode];
        Contents := [value];
        return;
      }
      var cur := head;
      ghost var i := 0;
      while cur.next != null
        invariant 0 <= i < |Nodes| && cur == Nodes[i]
        decreases |Nodes| - i
      {
        cur := cur.next;
        i := i + 1;
      }
      NextIsNull(i);
      cur.next := newNode;
      Nodes := Nodes + [newNode];
      Contents := Contents + [value];
    }

    /** `find_max`: the largest value, or None on an empty list. */
    method FindMax() returns (r: Option<int>)
      requires Valid()
      ensures r.None? <==> Contents == []
      ensures r.Some? ==> r.value in Contents && forall x :: x in Contents ==> x <= r.value
    {
      var maxVal: Option<int> := None;
      var cur := head;
      ghost var i := 0;
      while cur != null
        invariant 0 <= i <= |Nodes|
        invariant i < |Nodes| ==> cur == Nodes[i]
        invariant i == |Nodes| ==> cur == null
        invariant maxVal.None? <==> i == 0
        invariant maxVal.Some? ==> maxVal.value in Contents[..i]
        invariant maxVal.Some? ==> forall j :: 0 <= j < i ==> Contents[j] <= maxVal.value
        decreases |Nodes| - i
      {
        if maxVal.None? || cur.value > maxVal.value {
          maxVal := Some(cur.value);
        }
        cur := cur.next;
        i := i + 1;
      }
      assert Contents[..i] == Contents;
      return maxVal;
    }

    /**
     * `delete`: unlinks the first node holding `value`, if any. A matching
     * head is skipped by moving the head and keeps its link to the new head;
     * a later match is skipped by its predecessor and has its own link
     * cleared, which also ends the walk. No node's value changes.
     */
    method Delete(value: int)
      requires Valid()
      modifies this, Nodes
      ensures Valid()
      ensures old(FirstIndex(Contents, value)) == |old(Contents)| ==>
                Nodes == old(Nodes) && Contents == old(Contents)
      ensures old(FirstIndex(Contents, value)) < |old(Contents)| ==>
                Nodes == RemoveAt(old(Nodes), old(FirstIndex(Contents, value))) &&
                Contents == RemoveAt(old(Contents), old(FirstIndex(Contents, value)))
      ensures 0 < old(FirstIndex(Contents, value)) < |old(Contents)| ==>
                old(Nodes)[old(FirstIndex(Contents, value))].next == null
      ensures old(FirstIndex(Contents, value)) == 0 < |old(Contents)| ==> old(Nodes)[0].next == head
      ensures forall j :: 0 <= j < |old(Nodes)| ==> old(Nodes)[j].value == old(Contents)[j]
    {
      if head == null {
        return;
      }
      if head.value == value {
        assert RemoveAt(Nodes, 0) == Nodes[1..] && RemoveAt(Contents, 0) == Contents[1..];
        head := head.next;
        Nodes := Nodes[1..];
        Contents := Contents[1..];
        return;
      }
      var cur := head.next;
      var prevSeen := head;
      ghost var ns, vs := Nodes, Contents;
      ghost var k := FirstIndex(vs, value);
      ghost var i := 1;
      ghost var done := false;
      while cur != null
        invariant Valid() && 0 < k
        invariant !done ==> 1 <= i <= |ns| && i <= k && Nodes == ns && Contents == vs
        invariant !done ==> prevSeen == ns[i - 1]
        invariant !done && i < |ns| ==> cur == ns[i]
        invariant !done && i == |ns| ==> cur == null
        invariant done ==> cur == null && k < |vs| && ns[k].next == null
        invariant done ==> Nodes == RemoveAt(ns, k) && Contents == RemoveAt(vs, k)
        invariant forall j :: 0 <= j < |ns| ==> ns[j].value == vs[j]
        decreases if done then 0 else |ns| + 1 - i
      {
        if cur.value == value {
          assert i == k;
          UnlinkAfter(prevSeen, k);
          done := true;
        }
        prevSeen := cur;
        cur := cur.next;
        i := i + 1;
      }
    }

    /**
     * The unlinking step of `delete`: the predecessor of node `k` skips it,
     * and node `k` has its own link cleared.
     */
    method UnlinkAfter(prev: Node, ghost k: nat)
      requires Valid() && 0 < k < |Nodes| && prev == Nodes[k - 1]
      modifies this, Nodes
      ensures Valid()
      ensures Nodes == RemoveAt(old(Nodes), k) && Contents == RemoveAt(old(Contents), k)
      ensures old(Nodes)[k].next == null
      ensures forall j :: 0 <= j < |old(Nodes)| ==> old(Nodes)[j].value == old(Contents)[j]
    {
      ghost var ns, vs := Nodes, Contents;
      assert ns[k - 1].next == ns[k];
      var cur := prev.next;
      prev.next := cur.next;
      cur.next := null;
      forall j | 0 <= j < |ns| - 1 && j != k - 1 && j != k
        ensures ns[j].next == ns[j + 1]
      {
        assert ns[j] != ns[k - 1] && ns[j] != ns[k];
      }
      if k < |ns| - 1 {
        assert ns[|ns| - 1] != ns[k - 1] && ns[|ns| - 1] != ns[k];
      }
      UnlinkedChain(ns, vs, k);
      Nodes := RemoveAt(ns, k);
      Contents := RemoveAt(vs, k);
    }

    /**
     * `reverse`: relinks every node to its predecessor, so the same nodes
     * now run from the old tail to the old head.
     */
    method Reverse()
      requires Valid()
      modifies this, Nodes
      ensures Valid()
      ensures Nodes == Reversed(old(Nodes))
      ensures Contents == Reversed(old(Contents))
    {
      if head == null {
        return;
      }
      ghost var ns := Nodes;
      var cur := head;
      var prev: Node? := null;
      ghost var i := 0;
      while cur != null
        invariant Nodes == old(Nodes) && Contents == old(Contents) && head == old(head)
        invariant 0 <= i <= |ns|
        invariant i < |ns| ==> cur == ns[i]
        invariant i == |ns| ==> cur == null
        invariant prev == if i == 0 then null else ns[i - 1]
        invariant forall j :: 0 < j < i ==> ns[j].next == ns[j - 1]
        invariant 0 < i ==> ns[0].next == null
        invariant forall j :: i <= j < |ns| - 1 ==> ns[j].next == ns[j + 1]
        invariant i < |ns| ==> ns[|ns| - 1].next == null
        invariant forall j :: 0 <= j < |ns| ==> ns[j].value == Contents[j]
        decreases |ns| - i
      {
        var following := cur.next;
        cur.next := prev;
        prev := cur;
        cur := following;
        i := i + 1;
      }
      head := prev;
      Nodes := Reversed(ns);
      Contents := Reversed(Contents);
      forall k | 0 <= k < |ns|
        ensures Nodes[k] == ns[|ns| - 1 - k] && Contents[k] == old(Contents)[|ns| - 1 - k]
      {
        ReversedAt(ns, k);
        ReversedAt(old(Contents), k);
      }
      ReversedDistinct(ns);
    }

    /** `find_middle_value`: the value at position `length // 2`; an empty list has none. */
    method FindMiddleValue() returns (v: int)
      requires Valid() && Contents != []
      ensures v == Contents[|Contents| / 2]
    {
      var length := Length();
      var mid := length / 2;
      var cur := head;
      for k := 0 to mid
        invariant cur == Nodes[k]
      {
        cur := cur.next;
      }
      return cur.value;
    }

    /**
     * `find_nth_from_end`: None on an empty list or when `n >= length`;
     * otherwise the walk takes `length - n` steps, so `n == 0` runs to the
     * end and gives None, and `0 < n < length` gives the value at position
     * `length - n`. A negative `n` on a non-empty list walks off the end.
     */
    method FindNthFromEnd(n: int) returns (r: Option<int>)
      requires Valid()
      requires n >= 0 || Contents == []
      ensures Contents == [] || n >= |Contents| || n == 0 ==> r == None
      ensures 0 < n < |Contents| ==> r == Some(Contents[|Contents| - n])
    {
      var length := Length();
      if n >= length || length == 0 {
        return None;
      }
      var nFromFront := length - n;
      var cur := head;
      for k := 0 to nFromFront
        invariant k < |Nodes| ==> cur == Nodes[k]
        invariant k == |Nodes| ==> cur == null
      {
        cur := cur.next;
      }
      if cur == null {
        return None;
      } else {
        return Some(cur.value);
      }
    }

    /**
     * `has_cycle`: walks from the head, remembering every node seen by
     * identity, and reports a cycle when it meets a node a second time.
     * The answer is true exactly when the walk never reaches the end.
     */
    method HasCycle() returns (found: bool)
      requires Valid() || Closed()
      ensures Closed() && (found <==> Endless())
      ensures Valid() ==> !found
    {
      assert Closed() by {
        if Valid() {
          ValidIsClosed();
        }
      }
      var uniqueNodes: set<Node> := {};
      ghost var all := set n | n in Nodes;
      var cur := head;
      ghost var i: nat := 0;
      while cur != null
        invariant cur == Walk(Nodes, head, i)
        invariant uniqueNodes <= all
        invariant forall m :: m in uniqueNodes ==> exists j :: 0 <= j < i && Walk(Nodes, head, j) == m
        invariant forall t :: 0 <= t < i ==> Walk(Nodes, head, t) != null
        decreases |all - uniqueNodes|
      {
        if cur in uniqueNodes {
          ghost var j :| 0 <= j < i && Walk(Nodes, head, j) == cur;
          forall k: nat
            ensures Walk(Nodes, head, k) != null
          {
            RepeatNeverEnds(Nodes, head, j, i, k);
          }
          if Valid() {
            ValidNotEndless();
          }
          return true;
        }
        assert all - (uniqueNodes + {cur}) < all - uniqueNodes;
        uniqueNodes := uniqueNodes + {cur};
        cur := cur.next;
        WalkSplit(Nodes, head, i, 1);
        i := i + 1;
      }
      return false;
    }

    /**
     * `create_cycle`, the test helper: links the last node back to the head.
     * On an empty list it does nothing; on a non-empty list the chain no
     * longer ends, and only `Closed()` remains of the invariant.
     */
    method CreateCycle()
      requires Valid()
      modifies Nodes
      ensures Nodes == old(Nodes) && Contents == old(Contents) && head == old(head)
      ensures Closed()
      ensures Nodes == [] ==> Valid()
      ensures Nodes != [] ==> Nodes[|Nodes| - 1].next == head && Endless()
      ensures forall i :: 0 <= i < |Nodes| - 1 ==> Nodes[i].next == Nodes[i + 1]
      ensures forall i :: 0 <= i < |Nodes| ==> Nodes[i].value == Contents[i]
    {
      if head == null {
        return;
      }
      var current := head;
      ghost var i := 0;
      while current.next != null
        invariant 0 <= i < |Nodes| && current == Nodes[i]
        decreases |Nodes| - i
      {
        current := current.next;
        i := i + 1;
      }
      NextIsNull(i);
      current.next := head;
      forall j | 0 <= j < |Nodes| - 1
        ensures Nodes[j].next == Nodes[j + 1]
      {
        assert Nodes[j] != Nodes[|Nodes| - 1];
      }
      forall n | n in Nodes
        ensures n.next != null && n.next in Nodes
      {
        var j :| 0 <= j < |Nodes| && Nodes[j] == n;
        if j < |Nodes| - 1 {
          assert n.next == Nodes[j + 1];
        }
      }
      forall k: nat
        ensures Walk(Nodes, head, k) != null
      {
        NoEndNeverEnds(Nodes, head, k);
      }
    }
  }
}
