/**
 * The `simple_graph` module inlined in src/lib.rs: `get_topological_order`
 * sorts the nodes by their number of children with the stable `sort_by`.
 * The library sort is modelled by a stable insertion sort; since a stable
 * sort's result is unique (SortedStableUnique), any stable sort gives the
 * same order.
 */
module LibSimpleGraph {

  /** Non-decreasing by key. */
  predicate SortedBy<N>(s: seq<N>, key: N -> nat)
  {
    forall i, j :: 0 <= i < j < |s| ==> key(s[i]) <= key(s[j])
  }

  /** The elements of s with key c, in their order in s. */
  function Filter<N>(s: seq<N>, key: N -> nat, c: nat): seq<N>
  {
    if s == [] then []
    else (if key(s[0]) == c then [s[0]] else []) + Filter(s[1..], key, c)
  }

  /** Inserts x before the first element whose key is not smaller. */
  function Insert<N>(x: N, s: seq<N>, key: N -> nat): seq<N>
  {
    if s == [] then [x]
    else if key(x) <= key(s[0]) then [x] + s
    else [s[0]] + Insert(x, s[1..], key)
  }

  /** Stable insertion sort by key. */
  function SortBy<N>(s: seq<N>, key: N -> nat): seq<N>
  {
    if s == [] then [] else Insert(s[0], SortBy(s[1..], key), key)
  }

  /** The number of children of a node: the sort key. */
  function ChildCount<N>(children: N -> seq<N>): N -> nat
  {
    n => |children(n)|
  }

  /** `get_topological_order` of src/lib.rs: the nodes, as a permutation
    * ordered by number of children, nodes with equally many children kept in
    * their `get_nodes` order. It never fails. */
  function GetTopologicalOrder<N>(nodes: seq<N>, children: N -> seq<N>): (res: seq<N>)
    ensures SortedBy(res, ChildCount(children))
    ensures multiset(res) == multiset(nodes)
    ensures forall c :: Filter(res, ChildCount(children), c) == Filter(nodes, ChildCount(children), c)
  {
    var key := ChildCount(children);
    SortBySorted(nodes, key);
    SortByPermutes(nodes, key);
    forall c ensures Filter(SortBy(nodes, key), key, c) == Filter(nodes, key, c) {
      SortByStable(nodes, key, c);
    }
    SortBy(nodes, key)
  }

  // ---------------------------------------------------------------------
  // Insertion

  lemma {:induction false} InsertSorted<N>(x: N, s: seq<N>, key: N -> nat)
    requires SortedBy(s, key)
    ensures SortedBy(Insert(x, s, key), key)
    decreases |s|
  {
    if s != [] && key(x) > key(s[0]) {
      InsertSorted(x, s[1..], key);
      InsertLowerBound(x, s[1..], key, key(s[0]));
      ConsSorted(s[0], Insert(x, s[1..], key), key);
    } else if s != [] {
      ConsSorted(x, s, key);
    }
  }

  /** A lower bound of x and of s bounds their insertion. */
  lemma {:induction false} InsertLowerBound<N>(x: N, s: seq<N>, key: N -> nat, b: nat)
    requires b <= key(x)
    requires forall i :: 0 <= i < |s| ==> b <= key(s[i])
    ensures forall i :: 0 <= i < |Insert(x, s, key)| ==> b <= key(Insert(x, s, key)[i])
    decreases |s|
  {
    if s != [] && key(x) > key(s[0]) {
      InsertLowerBound(x, s[1..], key, b);
      var t := Insert(x, s[1..], key);
      assert Insert(x, s, key) == [s[0]] + t;
      forall i | 0 <= i < |[s[0]] + t| ensures b <= key(([s[0]] + t)[i]) {
        if i > 0 {
          assert ([s[0]] + t)[i] == t[i - 1];
        }
      }
    }
  }

  lemma ConsSorted<N>(y: N, t: seq<N>, key: N -> nat)
    requires SortedBy(t, key)
    requires forall i :: 0 <= i < |t| ==> key(y) <= key(t[i])
    ensures SortedBy([y] + t, key)
  {
    var r := [y] + t;
    forall i, j | 0 <= i < j < |r| ensures key(r[i]) <= key(r[j]) {
      assert r[j] == t[j - 1];
      if i > 0 {
        assert r[i] == t[i - 1];
      }
    }
  }

  lemma {:induction false} InsertMembers<N>(x: N, s: seq<N>, key: N -> nat)
    ensures multiset(Insert(x, s, key)) == multiset(s) + multiset{x}
    decreases |s|
  {
    if s != [] && key(x) > key(s[0]) {
      InsertMembers(x, s[1..], key);
      assert s == [s[0]] + s[1..];
    }
  }

  lemma FilterCons<N>(x: N, s: seq<N>, key: N -> nat, c: nat)
    ensures Filter([x] + s, key, c) == (if key(x) == c then [x] else []) + Filter(s, key, c)
  {
    assert ([x] + s)[1..] == s;
  }

  lemma {:induction false} InsertFilter<N>(x: N, s: seq<N>, key: N -> nat, c: nat)
    ensures Filter(Insert(x, s, key), key, c)
      == (if key(x) == c then [x] else []) + Filter(s, key, c)
    decreases |s|
  {
    if s == [] {
    } else if key(x) <= key(s[0]) {
      FilterCons(x, s, key, c);
    } else {
      InsertFilter(x, s[1..], key, c);
      InsertFilterPast(x, s, key, c);
    }
  }

  /** The step of InsertFilter where x moves past the smaller s[0]. */
  lemma InsertFilterPast<N>(x: N, s: seq<N>, key: N -> nat, c: nat)
    requires s != [] && key(s[0]) < key(x)
    requires Filter(Insert(x, s[1..], key), key, c)
      == (if key(x) == c then [x] else []) + Filter(s[1..], key, c)
    ensures Filter(Insert(x, s, key), key, c)
      == (if key(x) == c then [x] else []) + Filter(s, key, c)
  {
    var r, i := Insert(x, s, key), Insert(x, s[1..], key);
    assert r == [s[0]] + i;
    assert r[0] == s[0] && r[1..] == i;
    var a: seq<N> := if key(s[0]) == c then [s[0]] else [];
    assert Filter(r, key, c) == a + Filter(i, key, c);
    assert Filter(s, key, c) == a + Filter(s[1..], key, c);
    if key(x) == c {
      assert a == [];
    } else {
      assert Filter(i, key, c) == Filter(s[1..], key, c);
    }
  }

  // ---------------------------------------------------------------------
  // The sort

  lemma {:induction false} SortBySorted<N>(s: seq<N>, key: N -> nat)
    ensures SortedBy(SortBy(s, key), key)
    decreases |s|
  {
    if s != [] {
      SortBySorted(s[1..], key);
      InsertSorted(s[0], SortBy(s[1..], key), key);
    }
  }

  lemma {:induction false} SortByPermutes<N>(s: seq<N>, key: N -> nat)
    ensures multiset(SortBy(s, key)) == multiset(s)
    decreases |s|
  {
    if s != [] {
      SortByPermutes(s[1..], key);
      InsertMembers(s[0], SortBy(s[1..], key), key);
      assert s == [s[0]] + s[1..];
    }
  }

  /** Elements with equal keys keep their relative order. */
  lemma {:induction false} SortByStable<N>(s: seq<N>, key: N -> nat, c: nat)
    ensures Filter(SortBy(s, key), key, c) == Filter(s, key, c)
    decreases |s|
  {
    if s != [] {
      SortByStable(s[1..], key, c);
      InsertFilter(s[0], SortBy(s[1..], key), key, c);
    }
  }

  // ---------------------------------------------------------------------
  // Uniqueness of the stable order

  lemma {:induction false} FilterMember<N>(s: seq<N>, key: N -> nat, i: nat)
    requires i < |s|
    ensures s[i] in Filter(s, key, key(s[i]))
    decreases |s|
  {
    if i > 0 {
      FilterMember(s[1..], key, i - 1);
    }
  }

  lemma {:induction false} FilterKeys<N>(s: seq<N>, key: N -> nat, c: nat)
    ensures forall y :: y in Filter(s, key, c) ==> y in s && key(y) == c
    decreases |s|
  {
    if s != [] {
      FilterKeys(s[1..], key, c);
    }
  }

  lemma FilterHead<N>(s: seq<N>, key: N -> nat)
    requires s != []
    ensures Filter(s, key, key(s[0])) != []
  {
  }

  /** Two sorted sequences with the same elements for every key start alike. */
  lemma SameHead<N>(t: seq<N>, u: seq<N>, key: N -> nat)
    requires t != [] && u != []
    requires SortedBy(t, key) && SortedBy(u, key)
    requires forall c :: Filter(t, key, c) == Filter(u, key, c)
    ensures t[0] == u[0]
  {
    var k0, k1 := key(t[0]), key(u[0]);
    FilterMember(t, key, 0);
    FilterMember(u, key, 0);
    FilterKeys(u, key, k0);
    FilterKeys(t, key, k1);
    assert t[0] in Filter(u, key, k0);
    var a :| 0 <= a < |u| && u[a] == t[0];
    assert u[0] in Filter(t, key, k1);
    var b :| 0 <= b < |t| && t[b] == u[0];
    assert k1 <= k0 && k0 <= k1;
    assert Filter(t, key, k0)[0] == t[0];
    assert Filter(u, key, k0)[0] == u[0];
  }

  /** Dropping a common head keeps the filters equal. */
  lemma SameTailFilter<N>(t: seq<N>, u: seq<N>, key: N -> nat, c: nat)
    requires t != [] && u != [] && t[0] == u[0]
    requires Filter(t, key, c) == Filter(u, key, c)
    ensures Filter(t[1..], key, c) == Filter(u[1..], key, c)
  {
    var a: seq<N> := if key(t[0]) == c then [t[0]] else [];
    var ft, fu := Filter(t[1..], key, c), Filter(u[1..], key, c);
    assert Filter(t, key, c) == a + ft;
    assert Filter(u, key, c) == a + fu;
    assert (a + ft)[|a|..] == ft && (a + fu)[|a|..] == fu;
  }

  /** Two sequences sorted by key with the same elements for every key, in the
    * same order, are equal. */
  lemma {:induction false} SortedStableUnique<N>(t: seq<N>, u: seq<N>, key: N -> nat)
    requires SortedBy(t, key) && SortedBy(u, key)
    requires forall c :: Filter(t, key, c) == Filter(u, key, c)
    ensures t == u
    decreases |t| + |u|
  {
    if t == [] && u == [] {
    } else if t == [] {
      FilterHead(u, key);
      assert false;
    } else if u == [] {
      FilterHead(t, key);
      assert false;
    } else {
      SameHead(t, u, key);
      forall c ensures Filter(t[1..], key, c) == Filter(u[1..], key, c) {
        SameTailFilter(t, u, key, c);
      }
      assert SortedBy(t[1..], key) && SortedBy(u[1..], key);
      SortedStableUnique(t[1..], u[1..], key);
      assert t == [t[0]] + t[1..] && u == [u[0]] + u[1..];
    }
  }

  /** Any stable sort of the nodes by number of children gives this order. */
  lemma OrderIsTheStableSort<N>(nodes: seq<N>, children: N -> seq<N>, other: seq<N>)
    requires SortedBy(other, ChildCount(children))
    requires forall c :: Filter(other, ChildCount(children), c) == Filter(nodes, ChildCount(children), c)
    ensures other == GetTopologicalOrder(nodes, children)
  {
    var res := GetTopologicalOrder(nodes, children);
    SortedStableUnique(other, res, ChildCount(children));
  }

  /** Nodes without children come first: a node with no children never
    * follows one with children. */
  lemma LeavesFirst<N>(nodes: seq<N>, children: N -> seq<N>, i: nat, j: nat)
    requires i < j < |GetTopologicalOrder(nodes, children)|
    requires children(GetTopologicalOrder(nodes, children)[j]) == []
    ensures children(GetTopologicalOrder(nodes, children)[i]) == []
  {
    var res := GetTopologicalOrder(nodes, children);
    assert ChildCount(children)(res[i]) <= ChildCount(children)(res[j]);
  }
}
