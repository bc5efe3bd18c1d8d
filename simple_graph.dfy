/**
 * src/simple_graph.rs: the Kahn-shaped `get_topological_order`, as written.
 * The in-degree counters are never computed (they all start at zero), and
 * the decrement is indexed by the child's position in the child list, so
 * the routine returns the nodes in reverse order whatever the edges are.
 * A graph is given by its node list (`get_nodes`) and its `children` function.
 */
module SimpleGraph {
  import opened Wrappers

  const CycleError: string := "Circular dependency detected!"

  /** The elements of s, last first. */
  function Reversed<T>(s: seq<T>): (r: seq<T>)
    ensures |r| == |s|
    ensures forall i :: 0 <= i < |s| ==> r[i] == s[|s| - 1 - i]
  {
    if s == [] then [] else Reversed(s[1..]) + [s[0]]
  }

  /** Reversing twice gives the sequence back. */
  lemma ReversedTwice<T>(s: seq<T>)
    ensures Reversed(Reversed(s)) == s
  {
  }

  /** Reversing keeps every element with its multiplicity. */
  lemma {:induction false} ReversedPermutes<T>(s: seq<T>)
    ensures multiset(Reversed(s)) == multiset(s)
    decreases |s|
  {
    if s != [] {
      ReversedPermutes(s[1..]);
      assert s == [s[0]] + s[1..];
    }
  }

  /** Every node comes before each of its children (Kahn's promise). */
  predicate ParentsFirst<N(==)>(order: seq<N>, children: N -> seq<N>)
  {
    forall i, j :: 0 <= i < |order| && 0 <= j < |order| && order[j] in children(order[i]) ==> i < j
  }

  /** `get_topological_order` as written: the counters all start at 0, every
    * node is seeded and popped last-in-first-out, no counter ever returns to
    * 0 after a decrement, so nothing is pushed again and the result is the
    * node list reversed; a cycle is never reported. A node with more children
    * than there are nodes would index past the counters (a panic). */
  method GetTopologicalOrder<N>(nodes: seq<N>, children: N -> seq<N>) returns (r: Result<seq<N>, string>)
    requires forall k :: 0 <= k < |nodes| ==> |children(nodes[k])| <= |nodes|
    ensures r == Ok(Reversed(nodes))
  {
    var n := |nodes|;
    var inDegree := new int[n](_ => 0);
    // the in-degrees are never computed

    var candidates: seq<N> := [];
    var list: seq<N> := [];

    for i := 0 to n
      invariant candidates == nodes[..i]
      invariant forall j :: 0 <= j < n ==> inDegree[j] == 0
    {
      if inDegree[i] == 0 {
        candidates := candidates + [nodes[i]];
      }
    }

    while |candidates| > 0
      invariant |candidates| <= n && candidates == nodes[..|candidates|]
      invariant list == Reversed(nodes[|candidates|..])
      invariant forall j :: 0 <= j < n ==> -|list| <= inDegree[j] <= 0
      decreases |candidates|
    {
      var node := candidates[|candidates| - 1];
      candidates := candidates[..|candidates| - 1];
      assert node == nodes[|candidates|];
      assert nodes[|candidates|..][1..] == nodes[|candidates| + 1..];
      ghost var before := inDegree[..];
      ghost var remaining := candidates;
      list := list + [node];

      var ch := children(node);
      for i := 0 to |ch|
        invariant forall j :: 0 <= j < n ==> inDegree[j] == if j < i then before[j] - 1 else before[j]
        invariant candidates == remaining
      {
        inDegree[i] := inDegree[i] - 1;
        var child := nodes[i];
        if inDegree[i] == 0 {
          candidates := candidates + [child];
        }
      }
    }

    if |list| == n {
      return Ok(list);
    } else {
      return Err(CycleError);
    }
  }

  /** The order ignores the edges: for a -> b, the node list [a, b] comes
    * out child first and the node list [b, a] comes out parent first. */
  method OrderIgnoresEdges<N(==)>(a: N, b: N, children: N -> seq<N>)
      returns (fromAB: Result<seq<N>, string>, fromBA: Result<seq<N>, string>)
    requires a != b && children(a) == [b] && children(b) == []
    ensures fromAB == Ok([b, a]) && !ParentsFirst([b, a], children)
    ensures fromBA == Ok([a, b]) && ParentsFirst([a, b], children)
  {
    fromAB := GetTopologicalOrder([a, b], children);
    assert Reversed([a, b]) == [b, a];
    assert [b, a][1] == a && [b, a][0] in children(a);
    fromBA := GetTopologicalOrder([b, a], children);
    assert Reversed([b, a]) == [a, b];
  }

  /** A two-node cycle is returned as an order, not as an error. */
  method TwoCycleAccepted<N(==)>(a: N, b: N) returns (r: Result<seq<N>, string>)
    requires a != b
    ensures r == Ok([b, a])
  {
    var children := (x: N) => if x == a then [b] else [a];
    r := GetTopologicalOrder([a, b], children);
    assert Reversed([a, b]) == [b, a];
  }
}
