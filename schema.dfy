/** Schema declaration: what the `_SchemaMeta` metaclass does when a schema
    class is created. It detaches every schema-node attribute from the class
    body, names it, sorts the class's own nodes by their creation counter
    `_order`, and concatenates the node lists of the whole inheritance chain
    from the most distant ancestor down to the class itself. */
module Schema {

  /** One declared field. `name` is the key it reads (empty when the
      declaration gave none), `internalName` the attribute it was declared
      as (the source's `_name`), `order` colander's creation counter, and
      `toplevel` marks a field that receives the whole input mapping. */
  datatype Node = Node(name: string, internalName: string, order: int, toplevel: bool)

  /** A class-body attribute: a schema node, or anything else. */
  datatype Attr = NodeAttr(node: Node) | PlainAttr

  /** How the metaclass names a node found under attribute `attrName`:
      an unnamed node takes the attribute name, and `_name` is always the
      attribute name. */
  function Named(attrName: string, n: Node): (r: Node)
    ensures r.internalName == attrName
    ensures r.name == if n.name == [] then attrName else n.name
    ensures r.order == n.order && r.toplevel == n.toplevel
  {
    n.(name := if n.name == [] then attrName else n.name, internalName := attrName)
  }

  /** The named nodes of a class body, in the order the body lists them. */
  function Declared(clsattrs: seq<(string, Attr)>): (r: seq<Node>)
    ensures |r| <= |clsattrs|
  {
    if clsattrs == [] then []
    else
      var (attrName, a) := clsattrs[|clsattrs| - 1];
      Declared(clsattrs[..|clsattrs| - 1]) + if a.NodeAttr? then [Named(attrName, a.node)] else []
  }

  /** The attributes left on the class once the nodes are detached. */
  function Remaining(clsattrs: seq<(string, Attr)>): (r: seq<(string, Attr)>)
    ensures |r| <= |clsattrs|
  {
    if clsattrs == [] then []
    else
      var (attrName, a) := clsattrs[|clsattrs| - 1];
      Remaining(clsattrs[..|clsattrs| - 1]) + if a.PlainAttr? then [(attrName, a)] else []
  }

  predicate SortedByOrder(s: seq<Node>) {
    forall i, j :: 0 <= i < j < |s| ==> s[i].order <= s[j].order
  }

  /** No two nodes share a creation counter (colander draws `_order` from a
      global counter, one value per node created). */
  predicate DistinctOrders(s: seq<Node>) {
    forall i, j :: 0 <= i < j < |s| ==> s[i].order != s[j].order
  }

  /** Placing `x` at position `i` of a sorted list keeps it sorted when
      every node before `i` has order at most `x`'s and the node at `i` a
      larger one. */
  lemma InsertSorted(s: seq<Node>, i: nat, x: Node)
    requires SortedByOrder(s) && i <= |s|
    requires forall j :: 0 <= j < i ==> s[j].order <= x.order
    requires i < |s| ==> x.order < s[i].order
    ensures SortedByOrder(s[..i] + [x] + s[i..])
    ensures multiset(s[..i] + [x] + s[i..]) == multiset(s) + multiset{x}
  {
    var r := s[..i] + [x] + s[i..];
    forall a, b | 0 <= a < b < |r| ensures r[a].order <= r[b].order {
      InsertPair(s, i, x, a, b);
    }
    assert s == s[..i] + s[i..];
  }

  /** Any two positions of the list `InsertSorted` builds are in order. */
  lemma InsertPair(s: seq<Node>, i: nat, x: Node, a: nat, b: nat)
    requires SortedByOrder(s) && i <= |s|
    requires forall j :: 0 <= j < i ==> s[j].order <= x.order
    requires i < |s| ==> x.order < s[i].order
    requires a < b <= |s|
    ensures (s[..i] + [x] + s[i..])[a].order <= (s[..i] + [x] + s[i..])[b].order
  {
    var r := s[..i] + [x] + s[i..];
    if b < i {
      assert r[a] == s[a] && r[b] == s[b];
    } else if b == i {
      assert r[a] == s[a] && r[b] == x;
    } else if a < i {
      assert r[a] == s[a] && r[b] == s[b - 1];
      assert s[a].order <= x.order;
    } else if a == i {
      assert r[a] == x && r[b] == s[b - 1];
      assert s[i].order <= s[b - 1].order;
    } else {
      assert r[a] == s[a - 1] && r[b] == s[b - 1];
    }
  }

  /** One insertion step: `x` placed after every node whose order does not
      exceed its own, so equal orders keep their arrival order. */
  method InsertByOrder(s: seq<Node>, x: Node) returns (r: seq<Node>)
    requires SortedByOrder(s)
    ensures SortedByOrder(r)
    ensures multiset(r) == multiset(s) + multiset{x}
  {
    var i := 0;
    while i < |s| && s[i].order <= x.order
      invariant i <= |s|
      invariant forall j :: 0 <= j < i ==> s[j].order <= x.order
    {
      i := i + 1;
    }
    InsertSorted(s, i, x);
    r := s[..i] + [x] + s[i..];
  }

  /** `nodes.sort()` on the `(order, node)` pairs: the nodes in ascending
      `order`, a permutation of the input. */
  method SortByOrder(nodes: seq<Node>) returns (sorted: seq<Node>)
    ensures SortedByOrder(sorted)
    ensures multiset(sorted) == multiset(nodes)
  {
    sorted := [];
    var k := 0;
    while k < |nodes|
      invariant k <= |nodes|
      invariant SortedByOrder(sorted)
      invariant multiset(sorted) == multiset(nodes[..k])
    {
      sorted := InsertByOrder(sorted, nodes[k]);
      assert nodes[..k + 1] == nodes[..k] + [nodes[k]];
      k := k + 1;
    }
    assert nodes[..k] == nodes;
  }

  /** The first node of a sorted list has the least order of all. */
  lemma SameHead(a: seq<Node>, b: seq<Node>)
    requires SortedByOrder(a) && SortedByOrder(b)
    requires multiset(a) == multiset(b)
    requires DistinctOrders(a)
    requires a != []
    ensures b != [] && a[0] == b[0]
  {
    assert a[0] in multiset(b);
    var k :| 0 <= k < |b| && b[k] == a[0];
    assert b[0] in multiset(a);
    var m :| 0 <= m < |a| && a[m] == b[0];
    assert a[m].order <= a[0].order;
  }

  lemma TailMultiset(a: seq<Node>)
    requires a != []
    ensures multiset(a[1..]) == multiset(a) - multiset{a[0]}
  {
    assert a == [a[0]] + a[1..];
  }

  /** With distinct creation counters the sorted order is fully
      determined: any two orderings of the same nodes sorted by `order` are
      equal, so the declared field order is deterministic. */
  lemma {:induction false} SortedUnique(a: seq<Node>, b: seq<Node>)
    requires SortedByOrder(a) && SortedByOrder(b)
    requires multiset(a) == multiset(b)
    requires DistinctOrders(a)
    ensures a == b
  {
    if a != [] {
      SameHead(a, b);
      TailMultiset(a);
      TailMultiset(b);
      SortedUnique(a[1..], b[1..]);
      assert a == [a[0]] + a[1..] && b == [b[0]] + b[1..];
    }
  }

  // ---------------------------------------------------------------------------
  // the inheritance chain

  /** The concatenation the metaclass builds: `mro[0]` holds the node list
      of the class itself, `mro[|mro| - 1]` that of its most distant
      ancestor, and the lists are joined from the ancestor down. */
  function FromRoot(mro: seq<seq<Node>>): seq<Node> {
    if mro == [] then [] else FromRoot(mro[1..]) + mro[0]
  }

  /** Every node of every class in the chain, duplicates included. */
  function AllOf(mro: seq<seq<Node>>): multiset<Node> {
    if mro == [] then multiset{} else multiset(mro[0]) + AllOf(mro[1..])
  }

  /** The `for c in reversed(cls.__mro__): ... extend(csn)` loop. */
  method MergeMro(mro: seq<seq<Node>>) returns (all: seq<Node>)
    ensures all == FromRoot(mro)
  {
    all := [];
    var i := |mro|;
    while i > 0
      invariant 0 <= i <= |mro|
      invariant all == FromRoot(mro[i..])
    {
      i := i - 1;
      assert mro[i..][1..] == mro[i + 1..];
      all := all + mro[i];
    }
  }

  /** Nothing is dropped or merged: same-named nodes of different classes
      are all kept, and the length is the sum of the per-class lengths. */
  lemma {:induction false} FromRootKeepsAll(mro: seq<seq<Node>>)
    ensures multiset(FromRoot(mro)) == AllOf(mro)
  {
    if mro != [] {
      FromRootKeepsAll(mro[1..]);
    }
  }

  /** The classes past position `k` of the MRO (the more distant ancestors)
      contribute their nodes, in full and in their own order, ahead of the
      nodes of the nearer classes. */
  lemma {:induction false} AncestorsFirst(mro: seq<seq<Node>>, k: nat)
    requires k <= |mro|
    ensures FromRoot(mro) == FromRoot(mro[k..]) + FromRoot(mro[..k])
  {
    if k > 0 {
      AncestorsFirst(mro[1..], k - 1);
      assert mro[1..][k - 1..] == mro[k..];
      assert mro[..k][1..] == mro[1..][..k - 1];
    } else {
      assert mro[k..] == mro;
    }
  }

  /** Subclassing appends: the subclass's own nodes come after every
      inherited node, whose order is untouched. */
  lemma SubclassExtends(own: seq<Node>, ancestors: seq<seq<Node>>)
    ensures FromRoot([own] + ancestors) == FromRoot(ancestors) + own
  {
    assert ([own] + ancestors)[1..] == ancestors;
  }

  // ---------------------------------------------------------------------------
  // the class body

  /** Every attribute is either detached as a node or left on the class. */
  lemma {:induction false} DeclaredPartition(clsattrs: seq<(string, Attr)>)
    ensures |Declared(clsattrs)| + |Remaining(clsattrs)| == |clsattrs|
    ensures forall i :: 0 <= i < |Remaining(clsattrs)| ==> Remaining(clsattrs)[i].1.PlainAttr?
    ensures forall k :: 0 <= k < |clsattrs| && clsattrs[k].1.PlainAttr? ==> clsattrs[k] in Remaining(clsattrs)
  {
    if clsattrs != [] {
      var init := clsattrs[..|clsattrs| - 1];
      DeclaredPartition(init);
      assert forall k :: 0 <= k < |init| ==> clsattrs[k] == init[k];
      if clsattrs[|clsattrs| - 1].1.NodeAttr? {
        assert Remaining(clsattrs) == Remaining(init);
        assert |Declared(clsattrs)| == |Declared(init)| + 1;
      } else {
        assert Declared(clsattrs) == Declared(init);
        assert Remaining(clsattrs) == Remaining(init) + [clsattrs[|clsattrs| - 1]];
      }
    }
  }

  /** Each node attribute is collected, named after its attribute. */
  lemma {:induction false} DeclaredAt(clsattrs: seq<(string, Attr)>, k: nat)
    requires k < |clsattrs| && clsattrs[k].1.NodeAttr?
    ensures Named(clsattrs[k].0, clsattrs[k].1.node) in Declared(clsattrs)
  {
    if k < |clsattrs| - 1 {
      DeclaredAt(clsattrs[..|clsattrs| - 1], k);
    }
  }

  /** When attribute names are non-empty (Python identifiers), every
      collected node has a non-empty key and an attribute's name as `_name`. */
  lemma {:induction false} DeclaredNamed(clsattrs: seq<(string, Attr)>)
    requires forall k :: 0 <= k < |clsattrs| ==> clsattrs[k].0 != []
    ensures forall n :: n in Declared(clsattrs) ==>
      (n.name != [] &&
       exists k :: 0 <= k < |clsattrs| && clsattrs[k].0 == n.internalName && clsattrs[k].1.NodeAttr?)
  {
    if clsattrs != [] {
      var init := clsattrs[..|clsattrs| - 1];
      DeclaredNamed(init);
      forall n | n in Declared(clsattrs)
        ensures n.name != [] &&
          exists k :: 0 <= k < |clsattrs| && clsattrs[k].0 == n.internalName && clsattrs[k].1.NodeAttr?
      {
        if n in Declared(init) {
          var k :| 0 <= k < |init| && init[k].0 == n.internalName && init[k].1.NodeAttr?;
          assert clsattrs[k] == init[k];
        } else {
          assert clsattrs[|clsattrs| - 1].0 == n.internalName;
        }
      }
    }
  }

  /** The node lists of a sequence of schema classes. */
  function ClassNodes(classes: seq<SchemaClass>): (r: seq<seq<Node>>)
    reads set c | c in classes
    ensures |r| == |classes| && forall i :: 0 <= i < |classes| ==> r[i] == classes[i].classSchemaNodes
  {
    if classes == [] then [] else [classes[0].classSchemaNodes] + ClassNodes(classes[1..])
  }

  /** A schema class after `_SchemaMeta.__init__` has run: the attributes
      left on it, its own sorted nodes (`__class_schema_nodes__`) and the
      merged list (`__all_schema_nodes__`). */
  class SchemaClass {
    var attrs: seq<(string, Attr)>
    var classSchemaNodes: seq<Node>
    var allSchemaNodes: seq<Node>

    /** Creates the class from its body `clsattrs` (attribute name and
        value, in the order the body's mapping yields them) and `bases`,
        the rest of its MRO nearest first, restricted to schema classes:
        other classes in the MRO contribute no nodes. */
    constructor (clsattrs: seq<(string, Attr)>, bases: seq<SchemaClass>)
      ensures attrs == Remaining(clsattrs)
      ensures SortedByOrder(classSchemaNodes)
      ensures multiset(classSchemaNodes) == multiset(Declared(clsattrs))
      ensures allSchemaNodes == FromRoot([classSchemaNodes] + ClassNodes(bases))
    {
      var nodes: seq<Node> := [];
      var rest: seq<(string, Attr)> := [];
      var k := 0;
      while k < |clsattrs|
        invariant k <= |clsattrs|
        invariant nodes == Declared(clsattrs[..k])
        invariant rest == Remaining(clsattrs[..k])
      {
        var (attrName, a) := clsattrs[k];
        assert clsattrs[..k + 1][..k] == clsattrs[..k];
        if a.NodeAttr? {
          nodes := nodes + [Named(attrName, a.node)];
        } else {
          rest := rest + [(attrName, a)];
        }
        k := k + 1;
      }
      assert clsattrs[..k] == clsattrs;
      var sorted := SortByOrder(nodes);
      var all := MergeMro([sorted] + ClassNodes(bases));
      attrs := rest;
      classSchemaNodes := sorted;
      allSchemaNodes := all;
    }
  }
}
