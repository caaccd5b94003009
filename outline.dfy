/** The outline tree: nodes owned by their parent's child list (or by the
    root list), addressed by paths of zero-based indices from the root list. */
module Outline {

  datatype Option<T> = None | Some(value: T)

  /** One outline entry: a display name and its ordered children. */
  datatype Node = Node(name: string, children: seq<Node>)

  /** The placeholder name every freshly added node gets. */
  const NewNodeName: string := "new node"

  /** A fresh node: the given name and no children (one node in all). */
  function NewNode(name: string): (n: Node)
    ensures n.name == name && n.children == [] && Size(n) == 1
  {
    Node(name, [])
  }

  /** Number of nodes in a subtree, the root included. */
  function Size(n: Node): nat
    decreases n, 1
  {
    1 + Count(n.children)
  }

  /** Number of nodes in a forest, all depths included. */
  function Count(nodes: seq<Node>): nat
    decreases nodes, 0
  {
    if |nodes| == 0 then 0
    else Count(nodes[..|nodes| - 1]) + Size(nodes[|nodes| - 1])
  }

  /** The path of the parent's child list, and the index within it. */
  function Parent(path: seq<nat>): seq<nat>
    requires |path| > 0
  {
    path[..|path| - 1]
  }

  function Last(path: seq<nat>): nat
    requires |path| > 0
  {
    path[|path| - 1]
  }

  /** `a` is a (not necessarily proper) prefix of `b`. */
  predicate IsPrefix(a: seq<nat>, b: seq<nat>)
  {
    |a| <= |b| && b[..|a|] == a
  }

  /** The node reached by following every index of `path` from the root
      list; None for the empty path or when an index is out of range at
      its level. */
  function Resolve(nodes: seq<Node>, path: seq<nat>): (r: Option<Node>)
    ensures r.Some? ==> |path| > 0 && path[0] < |nodes|
    decreases path
  {
    if |path| == 0 || path[0] >= |nodes| then None
    else if |path| == 1 then Some(nodes[path[0]])
    else Resolve(nodes[path[0]].children, path[1..])
  }

  /** The child list reached by following `path`: the root list itself
      for the empty path, otherwise the children of the node at `path`;
      None when an index is out of range at its level. */
  function ChildrenAt(nodes: seq<Node>, path: seq<nat>): (r: Option<seq<Node>>)
    ensures path == [] ==> r == Some(nodes)
    ensures |path| > 0 ==> (r.Some? <==> Resolve(nodes, path).Some?)
    decreases path
  {
    if |path| == 0 then Some(nodes)
    else if path[0] >= |nodes| then None
    else ChildrenAt(nodes[path[0]].children, path[1..])
  }

  /** Resolving a path is looking up its last index in the child list of
      its parent path. */
  lemma {:induction false} ResolveViaParent(nodes: seq<Node>, path: seq<nat>)
    requires |path| > 0
    ensures Resolve(nodes, path) ==
      match ChildrenAt(nodes, Parent(path))
      case None => None
      case Some(siblings) => if Last(path) < |siblings| then Some(siblings[Last(path)]) else None
    decreases path
  {
    if |path| > 1 && path[0] < |nodes| {
      var rest := path[1..];
      ResolveViaParent(nodes[path[0]].children, rest);
      assert Parent(path)[1..] == Parent(rest);
    }
  }

  /** For a non-empty path the child list found is exactly the children
      of the node the path resolves to. */
  lemma {:induction false} ChildrenAtViaResolve(nodes: seq<Node>, path: seq<nat>)
    requires |path| > 0
    ensures ChildrenAt(nodes, path) ==
      match Resolve(nodes, path)
      case None => None
      case Some(n) => Some(n.children)
    decreases path
  {
    if |path| > 1 && path[0] < |nodes| {
      ChildrenAtViaResolve(nodes[path[0]].children, path[1..]);
    }
  }

  /** Stepping one level down from a child list that resolves. */
  lemma ChildrenAtExtend(nodes: seq<Node>, path: seq<nat>, i: nat)
    requires ChildrenAt(nodes, path).Some? && i < |ChildrenAt(nodes, path).value|
    ensures Resolve(nodes, path + [i]) == Some(ChildrenAt(nodes, path).value[i])
    ensures ChildrenAt(nodes, path + [i]) == Some(ChildrenAt(nodes, path).value[i].children)
  {
    var p := path + [i];
    assert Parent(p) == path && Last(p) == i;
    ResolveViaParent(nodes, p);
    ChildrenAtViaResolve(nodes, p);
  }

  /** A path whose first index stays below `m` resolves the same in the
      first `m` roots as in the whole root list. */
  lemma ResolveInPrefix(nodes: seq<Node>, m: nat, q: seq<nat>)
    requires m <= |nodes| && |q| > 0 && q[0] < m
    ensures Resolve(nodes[..m], q) == Resolve(nodes, q)
  {
  }

  /** Prefixing both paths with the same index keeps the prefix relation. */
  lemma PrefixCons(i: nat, a: seq<nat>, b: seq<nat>)
    ensures IsPrefix([i] + a, [i] + b) <==> IsPrefix(a, b)
  {
    if |a| <= |b| {
      assert ([i] + b)[..|a| + 1] == [i] + b[..|a|];
      assert ([i] + b[..|a|])[1..] == b[..|a|] && ([i] + a)[1..] == a;
    }
  }

  /** Every non-empty prefix of a path that resolves resolves too. */
  lemma {:induction false} PrefixResolves(nodes: seq<Node>, p: seq<nat>, q: seq<nat>)
    requires Resolve(nodes, q).Some?
    ensures 0 < |p| && IsPrefix(p, q) ==> Resolve(nodes, p).Some?
    decreases q
  {
    if 1 < |p| && IsPrefix(p, q) {
      assert p[0] == q[0] && p[1..] == q[1..][..|p| - 1];
      PrefixResolves(nodes[q[0]].children, p[1..], q[1..]);
    }
  }

  /** Replaces the node at `path` by the same node with `n` appended to
      the end of its children; every other node is left as it was. */
  function AppendChildAt(nodes: seq<Node>, path: seq<nat>, n: Node): (r: seq<Node>)
    requires Resolve(nodes, path).Some?
    ensures |r| == |nodes| && r[path[0]].name == nodes[path[0]].name
    ensures forall j :: 0 <= j < |nodes| && j != path[0] ==> r[j] == nodes[j]
    decreases path
  {
    var i := path[0];
    if |path| == 1 then nodes[i := Node(nodes[i].name, nodes[i].children + [n])]
    else nodes[i := Node(nodes[i].name, AppendChildAt(nodes[i].children, path[1..], n))]
  }

  /** The target keeps its name and gains `n` as its new last child, which
      the target's path extended by the old child count now resolves to. */
  lemma {:induction false} AppendChildAtTarget(nodes: seq<Node>, path: seq<nat>, n: Node)
    requires Resolve(nodes, path).Some?
    ensures var r := AppendChildAt(nodes, path, n);
            var old_ := Resolve(nodes, path).value;
            |r| == |nodes| &&
            Resolve(r, path) == Some(Node(old_.name, old_.children + [n])) &&
            Resolve(r, path + [|old_.children|]) == Some(n)
    decreases path
  {
    var r := AppendChildAt(nodes, path, n);
    var old_ := Resolve(nodes, path).value;
    var i := path[0];
    if |path| == 1 {
      assert Resolve(r, path + [|old_.children|]) == Resolve(r[i].children, [|old_.children|]);
    } else {
      AppendChildAtTarget(nodes[i].children, path[1..], n);
      assert (path + [|old_.children|])[1..] == path[1..] + [|old_.children|];
    }
  }

  /** A path that is neither a prefix of the target path nor an extension
      of the new child's path resolves exactly as before. */
  lemma {:induction false} AppendChildAtElsewhere(nodes: seq<Node>, path: seq<nat>, n: Node, q: seq<nat>)
    requires Resolve(nodes, path).Some?
    requires !IsPrefix(q, path)
    requires !IsPrefix(path + [|Resolve(nodes, path).value.children|], q)
    ensures Resolve(AppendChildAt(nodes, path, n), q) == Resolve(nodes, q)
    decreases path
  {
    var r := AppendChildAt(nodes, path, n);
    var k := |Resolve(nodes, path).value.children|;
    var i := path[0];
    if |q| == 0 || q[0] >= |nodes| || q[0] != i {
    } else if |path| == 1 {
      // q runs through the target: it names one of the target's original
      // children (or a node below one), which are kept in place.
      assert |q| > 1 by { assert q[..1] == path; }
      var j := q[1];
      assert q[..2] == [i, j];
      assert j != k;
      if j < k {
        assert r[i].children[j] == nodes[i].children[j];
        assert Resolve(r, q) == Resolve(r[i].children, q[1..]);
      }
    } else {
      assert |q| > 1 by { assert q[..1] == path[..1]; }
      PrefixCons(i, q[1..], path[1..]);
      PrefixCons(i, path[1..] + [k], q[1..]);
      assert [i] + q[1..] == q && [i] + path[1..] == path;
      assert [i] + (path[1..] + [k]) == path + [k];
      AppendChildAtElsewhere(nodes[i].children, path[1..], n, q[1..]);
    }
  }

  /** Every strict ancestor of the target still resolves, with its name
      and its number of children unchanged. */
  lemma {:induction false} AppendChildAtAncestor(nodes: seq<Node>, path: seq<nat>, n: Node, q: seq<nat>)
    requires Resolve(nodes, path).Some?
    requires 0 < |q| < |path| && IsPrefix(q, path)
    ensures var before := Resolve(nodes, q);
            var after := Resolve(AppendChildAt(nodes, path, n), q);
            before.Some? && after.Some? &&
            after.value.name == before.value.name &&
            |after.value.children| == |before.value.children|
    decreases path
  {
    var i := path[0];
    assert q[0] == i;
    if |q| > 1 {
      assert q[1..] == path[1..][..|q| - 1];
      AppendChildAtAncestor(nodes[i].children, path[1..], n, q[1..]);
    }
  }

  /** Appending a child never invalidates a path: whatever resolved before
      still resolves. */
  lemma {:induction false} AppendChildAtKeepsPaths(nodes: seq<Node>, path: seq<nat>, n: Node, q: seq<nat>)
    requires Resolve(nodes, path).Some? && Resolve(nodes, q).Some?
    ensures Resolve(AppendChildAt(nodes, path, n), q).Some?
  {
    var k := |Resolve(nodes, path).value.children|;
    if q == path {
      AppendChildAtTarget(nodes, path, n);
    } else if IsPrefix(q, path) {
      AppendChildAtAncestor(nodes, path, n, q);
    } else {
      // q cannot run through the target's (not yet existing) k-th child
      ChildrenAtViaResolve(nodes, path);
      ResolveViaParent(nodes, path + [k]);
      assert Parent(path + [k]) == path;
      PrefixResolves(nodes, path + [k], q);
      AppendChildAtElsewhere(nodes, path, n, q);
    }
  }

  /** Replacing one root changes the count by the difference in size. */
  lemma {:induction false} CountUpdate(nodes: seq<Node>, i: nat, x: Node)
    requires i < |nodes|
    ensures Count(nodes[i := x]) + Size(nodes[i]) == Count(nodes) + Size(x)
    decreases |nodes|
  {
    var m := |nodes| - 1;
    var u := nodes[i := x];
    assert u[..m] == if i < m then nodes[..m][i := x] else nodes[..m];
    if i < m {
      CountUpdate(nodes[..m], i, x);
    }
  }

  /** Count distributes over concatenation. */
  lemma {:induction false} CountAppend(a: seq<Node>, b: seq<Node>)
    ensures Count(a + b) == Count(a) + Count(b)
    decreases |b|
  {
    if |b| > 0 {
      var m := |b| - 1;
      assert (a + b)[..|a + b| - 1] == a + b[..m];
      CountAppend(a, b[..m]);
    } else {
      assert a + b == a;
    }
  }

  /** Appending `n` below any node adds exactly the nodes of `n`. */
  lemma {:induction false} AppendChildAtCount(nodes: seq<Node>, path: seq<nat>, n: Node)
    requires Resolve(nodes, path).Some?
    ensures Count(AppendChildAt(nodes, path, n)) == Count(nodes) + Size(n)
    decreases path
  {
    var i := path[0];
    var kids := nodes[i].children;
    var newKids := if |path| == 1 then kids + [n] else AppendChildAt(kids, path[1..], n);
    if |path| == 1 {
      CountAppend(kids, [n]);
      assert Count([n]) == Size(n) by { assert [n][..0] == []; }
    } else {
      AppendChildAtCount(kids, path[1..], n);
    }
    CountUpdate(nodes, i, Node(nodes[i].name, newKids));
  }
}
