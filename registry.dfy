/**
 * The node registry `Discovery._nodes` as a value: a Python dict from node id
 * to node, with the operations `Discovery` performs on it (assignment under a
 * node's id, the fold of `set_nodes`, and the name-sorted view of
 * `get_sorted_nodes`).
 */
module Registry {
  import opened Nodes

  /**
   * A Python dict keyed by node id. Python dicts enumerate their values in
   * the order keys were first inserted, and `get_sorted_nodes` inherits that
   * order among nodes of equal name, so the order is kept beside the map.
   */
  datatype NodeTable = NodeTable(order: seq<int>, entries: map<int, Node>)

  const Empty := NodeTable([], map[])

  /** Every id is listed once, the listed ids are the keys, and each node is stored under its own id. */
  ghost predicate WellFormed(t: NodeTable) {
    && (forall i, j :: 0 <= i < j < |t.order| ==> t.order[i] != t.order[j])
    && (forall k :: k in t.entries <==> k in t.order)
    && (forall k :: k in t.entries ==> t.entries[k].id == k)
  }

  /** `self._nodes[node.id] = node`: a new key goes last, a known key keeps its place. */
  function Put(t: NodeTable, n: Node): (r: NodeTable)
    ensures n.id in r.entries && r.entries[n.id] == n
    ensures forall k :: k in t.entries && k != n.id ==> k in r.entries && r.entries[k] == t.entries[k]
    ensures r.entries.Keys == t.entries.Keys + {n.id}
    ensures |t.order| <= |r.order| <= |t.order| + 1 && r.order[..|t.order|] == t.order
    ensures WellFormed(t) ==> WellFormed(r)
  {
    if n.id in t.order then NodeTable(t.order, t.entries[n.id := n])
    else NodeTable(t.order + [n.id], t.entries[n.id := n])
  }

  /** Storing a node equal to the one already stored under its id changes nothing. */
  lemma PutStoredIsIdentity(t: NodeTable, n: Node)
    requires WellFormed(t)
    requires n.id in t.entries && Same(t.entries[n.id], n)
    ensures Put(t, n) == t
  {
    assert t.entries[n.id := n] == t.entries;
  }

  /** Storing the same node twice is storing it once. */
  lemma PutTwice(t: NodeTable, n: Node)
    requires WellFormed(t)
    ensures Put(Put(t, n), n) == Put(t, n)
  {
    PutStoredIsIdentity(Put(t, n), n);
  }

  /** The nodes stored one after another, as `set_nodes` does: a left fold of Put. */
  function PutAll(t: NodeTable, ns: seq<Node>): NodeTable
  {
    if ns == [] then t else Put(PutAll(t, ns[..|ns| - 1]), ns[|ns| - 1])
  }

  lemma PutAllSnoc(t: NodeTable, ns: seq<Node>, n: Node)
    ensures PutAll(t, ns + [n]) == Put(PutAll(t, ns), n)
  {
    assert (ns + [n])[..|ns|] == ns;
  }

  /** The position of the last node in `ns` with id `k`, or -1 when there is none. */
  function LastIndexWithId(ns: seq<Node>, k: int): (i: int)
    ensures -1 <= i < |ns|
    ensures i >= 0 ==> ns[i].id == k
    ensures forall j :: i < j < |ns| ==> ns[j].id != k
  {
    if ns == [] then -1
    else if ns[|ns| - 1].id == k then |ns| - 1
    else LastIndexWithId(ns[..|ns| - 1], k)
  }

  /**
   * Last observation wins: after storing `ns`, an id holds the last node of
   * `ns` with that id, or, when `ns` has none, what it held before; no id is
   * ever removed.
   */
  lemma {:induction false} PutAllLastWins(t: NodeTable, ns: seq<Node>, k: int)
    ensures var r, i := PutAll(t, ns), LastIndexWithId(ns, k);
      && (k in r.entries <==> k in t.entries || i >= 0)
      && (i >= 0 ==> r.entries[k] == ns[i])
      && (i < 0 && k in t.entries ==> r.entries[k] == t.entries[k])
  {
    if ns != [] {
      PutAllLastWins(t, ns[..|ns| - 1], k);
    }
  }

  lemma {:induction false} PutAllWellFormed(t: NodeTable, ns: seq<Node>)
    requires WellFormed(t)
    ensures WellFormed(PutAll(t, ns))
  {
    if ns != [] {
      PutAllWellFormed(t, ns[..|ns| - 1]);
    }
  }

  /** `self._nodes.values()`, in insertion order: entry i is the node of the i-th id stored. */
  function Values(t: NodeTable): (vs: seq<Node>)
    requires WellFormed(t)
    ensures |vs| == |t.order|
    ensures forall k :: k in t.entries ==> t.entries[k] in vs
    ensures forall i :: 0 <= i < |vs| ==> vs[i].id in t.entries && t.entries[vs[i].id] == vs[i]
    ensures forall i :: 0 <= i < |vs| ==> vs[i].id == t.order[i]
    ensures forall i, j :: 0 <= i < j < |vs| ==> vs[i].id != vs[j].id
  {
    forall i | 0 <= i < |t.order| ensures t.order[i] in t.entries {
      var k := t.order[i];
      assert k in t.order;
      assert k in t.entries <==> k in t.order;
    }
    var vs := seq(|t.order|, i requires 0 <= i < |t.order| => t.entries[t.order[i]]);
    assert forall k :: k in t.entries ==> t.entries[k] in vs by {
      forall k | k in t.entries ensures t.entries[k] in vs {
        var i :| 0 <= i < |t.order| && t.order[i] == k;
        assert vs[i] == t.entries[k];
      }
    }
    vs
  }

  // ---------------------------------------------------------------------
  // Ordering by name: Python compares the decoded names as strings.

  /** Lexicographic order on name bytes; a proper prefix comes first. */
  predicate NameLe(a: seq<bv8>, b: seq<bv8>) {
    if a == [] then true
    else if b == [] then false
    else if a[0] != b[0] then a[0] < b[0]
    else NameLe(a[1..], b[1..])
  }

  lemma {:induction false} NameLeTotal(a: seq<bv8>, b: seq<bv8>)
    ensures NameLe(a, b) || NameLe(b, a)
  {
    if a != [] && b != [] && a[0] == b[0] {
      NameLeTotal(a[1..], b[1..]);
    }
  }

  lemma {:induction false} NameLeTransitive(a: seq<bv8>, b: seq<bv8>, c: seq<bv8>)
    requires NameLe(a, b) && NameLe(b, c)
    ensures NameLe(a, c)
  {
    if a != [] && b != [] && c != [] && a[0] == b[0] && b[0] == c[0] {
      NameLeTransitive(a[1..], b[1..], c[1..]);
    }
  }

  lemma {:induction false} NameLeAntisymmetric(a: seq<bv8>, b: seq<bv8>)
    requires NameLe(a, b) && NameLe(b, a)
    ensures a == b
  {
    if a != [] && b != [] {
      NameLeAntisymmetric(a[1..], b[1..]);
      assert a == [a[0]] + a[1..];
      assert b == [b[0]] + b[1..];
    }
  }

  ghost predicate SortedByName(s: seq<Node>) {
    forall i, j :: 0 <= i < j < |s| ==> NameLe(s[i].name, s[j].name)
  }

  /** Places `x` before the first node whose name is not smaller, so ties keep `x` first. */
  function InsertByName(x: Node, s: seq<Node>): (r: seq<Node>)
    ensures multiset(r) == multiset(s) + multiset{x}
  {
    if s == [] then [x]
    else if NameLe(x.name, s[0].name) then [x] + s
    else
      assert s == [s[0]] + s[1..];
      [s[0]] + InsertByName(x, s[1..])
  }

  lemma SortedCons(h: Node, s: seq<Node>)
    requires SortedByName(s)
    requires forall j :: 0 <= j < |s| ==> NameLe(h.name, s[j].name)
    ensures SortedByName([h] + s)
  {
    var r := [h] + s;
    forall i, j | 0 <= i < j < |r| ensures NameLe(r[i].name, r[j].name) {
      if i > 0 { assert r[i] == s[i - 1] && r[j] == s[j - 1]; }
    }
  }

  lemma {:induction false} InsertByNameSorted(x: Node, s: seq<Node>)
    requires SortedByName(s)
    ensures SortedByName(InsertByName(x, s))
  {
    if s == [] {
    } else if NameLe(x.name, s[0].name) {
      forall j | 0 <= j < |s| ensures NameLe(x.name, s[j].name) {
        if j > 0 { NameLeTransitive(x.name, s[0].name, s[j].name); }
      }
      SortedCons(x, s);
    } else {
      var tail := s[1..];
      assert SortedByName(tail) by {
        forall i, j | 0 <= i < j < |tail| ensures NameLe(tail[i].name, tail[j].name) {
          assert tail[i] == s[i + 1] && tail[j] == s[j + 1];
        }
      }
      InsertByNameSorted(x, tail);
      var rest := InsertByName(x, tail);
      NameLeTotal(x.name, s[0].name);
      forall j | 0 <= j < |rest| ensures NameLe(s[0].name, rest[j].name) {
        assert rest[j] in multiset(rest);
        if rest[j] != x {
          assert rest[j] in multiset(tail);
          var m :| 0 <= m < |tail| && tail[m] == rest[j];
          assert s[m + 1] == rest[j];
        }
      }
      SortedCons(s[0], rest);
    }
  }

  /** `sorted(values, key=lambda n: n.name)`: a stable insertion sort. */
  function SortByName(s: seq<Node>): (r: seq<Node>)
    ensures multiset(r) == multiset(s)
    ensures SortedByName(r)
  {
    if s == [] then [] else
      var sortedTail := SortByName(s[1..]);
      assert s == [s[0]] + s[1..];
      InsertByNameSorted(s[0], sortedTail);
      InsertByName(s[0], sortedTail)
  }

  /** `get_sorted_nodes`: the stored nodes, each once, ordered by name. */
  function SortedValues(t: NodeTable): (r: seq<Node>)
    requires WellFormed(t)
    ensures SortedByName(r)
    ensures multiset(r) == multiset(Values(t))
    ensures forall n :: n in r <==> n.id in t.entries && t.entries[n.id] == n
    ensures |r| == |t.order|
  {
    var r := SortByName(Values(t));
    assert |r| == |multiset(r)| == |multiset(Values(t))| == |Values(t)|;
    assert forall n :: n in r <==> n in Values(t) by {
      forall n ensures n in r <==> n in Values(t) {
        assert n in r <==> n in multiset(r);
      }
    }
    r
  }

  // ---------------------------------------------------------------------
  // The sorted view does not depend on the order in which ids arrived.

  /** No two stored nodes share a name. */
  ghost predicate DistinctNames(t: NodeTable) {
    forall k1, k2 :: k1 in t.entries && k2 in t.entries && k1 != k2 ==>
      t.entries[k1].name != t.entries[k2].name
  }

  lemma {:induction false} CountInDistinct(s: seq<Node>)
    requires forall i, j :: 0 <= i < j < |s| ==> s[i] != s[j]
    ensures forall x :: multiset(s)[x] == if x in s then 1 else 0
  {
    if s != [] {
      CountInDistinct(s[1..]);
      assert s == [s[0]] + s[1..];
      assert s[0] !in s[1..];
    }
  }

  lemma CountOfRepeated(s: seq<Node>, i: int, j: int)
    requires 0 <= i < j < |s| && s[i] == s[j]
    ensures multiset(s)[s[i]] >= 2
  {
    assert s == s[..j] + [s[j]] + s[j + 1..];
    assert s[i] in s[..j];
  }

  /** Two tables holding the same nodes list them in permuted orders. */
  lemma ValuesArePermuted(t1: NodeTable, t2: NodeTable)
    requires WellFormed(t1) && WellFormed(t2) && t1.entries == t2.entries
    ensures multiset(Values(t1)) == multiset(Values(t2))
  {
    var v1, v2 := Values(t1), Values(t2);
    CountInDistinct(v1);
    CountInDistinct(v2);
    forall x ensures multiset(v1)[x] == multiset(v2)[x] {
      assert x in v1 <==> x.id in t1.entries && t1.entries[x.id] == x;
      assert x in v2 <==> x.id in t2.entries && t2.entries[x.id] == x;
    }
  }

  /** Two sorted arrangements of the same nodes agree when no two of them share a name. */
  lemma {:induction false} SortedArrangementUnique(a: seq<Node>, b: seq<Node>)
    requires SortedByName(a) && SortedByName(b) && multiset(a) == multiset(b)
    requires forall i, j :: 0 <= i < j < |a| ==> a[i].name != a[j].name
    ensures a == b
  {
    if a == [] {
      assert |b| == |multiset(b)| == 0;
    } else {
      assert |b| == |multiset(b)| == |a|;
      assert a[0] in multiset(b) && b[0] in multiset(a);
      var j :| 0 <= j < |b| && b[j] == a[0];
      var i :| 0 <= i < |a| && a[i] == b[0];
      if a[0] != b[0] {
        NameLeAntisymmetric(a[0].name, b[0].name);
        assert false;
      }
      assert a == [a[0]] + a[1..];
      assert b == [b[0]] + b[1..];
      assert multiset(a) == multiset{a[0]} + multiset(a[1..]);
      assert multiset(b) == multiset{b[0]} + multiset(b[1..]);
      assert multiset(a[1..]) == multiset(a) - multiset{a[0]};
      assert multiset(b[1..]) == multiset(b) - multiset{b[0]};
      SortedArrangementUnique(a[1..], b[1..]);
    }
  }

  lemma SortedValuesNamesDistinct(t: NodeTable)
    requires WellFormed(t) && DistinctNames(t)
    ensures var a := SortedValues(t);
      forall i, j :: 0 <= i < j < |a| ==> a[i].name != a[j].name
  {
    var a := SortedValues(t);
    CountInDistinct(Values(t));
    forall i, j | 0 <= i < j < |a| ensures a[i].name != a[j].name {
      if a[i] == a[j] {
        CountOfRepeated(a, i, j);
        assert false;
      }
      assert a[i] in a && a[j] in a;
    }
  }

  /**
   * When no two stored nodes share a name, the sorted view is determined by
   * the stored nodes alone, whatever order their ids were first seen in.
   */
  lemma SortedValuesIgnoresArrivalOrder(t1: NodeTable, t2: NodeTable)
    requires WellFormed(t1) && WellFormed(t2) && t1.entries == t2.entries
    requires DistinctNames(t1)
    ensures SortedValues(t1) == SortedValues(t2)
  {
    ValuesArePermuted(t1, t2);
    SortedValuesNamesDistinct(t1);
    SortedArrangementUnique(SortedValues(t1), SortedValues(t2));
  }
}
