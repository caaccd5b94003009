/** The tree pane's text: one line per node, in pre-order, indented by
    depth, with the selected node's line highlighted. */
module Render {
  import opened Outline

  /** One output line: its indentation, the node's name, and whether it is
      drawn highlighted. The text shown is `indent + name`. */
  datatype Line = Line(indent: string, name: string, highlighted: bool)

  /** `n` blank characters. */
  function Spaces(n: nat): (s: string)
    ensures |s| == n && forall i :: 0 <= i < n ==> s[i] == ' '
  {
    if n == 0 then "" else Spaces(n - 1) + " "
  }

  /** The lines for the forest `nodes` whose parent sits at `path`: each
      root's line (indented by two spaces per level of `path`, highlighted
      when the selection is that root's own path) followed by the lines of
      its subtree. */
  function Lines(nodes: seq<Node>, selected: Option<seq<nat>>, path: seq<nat>): seq<Line>
    decreases nodes
  {
    if |nodes| == 0 then []
    else
      var i := |nodes| - 1;
      Lines(nodes[..i], selected, path)
      + [Line(Spaces(2 * |path|), nodes[i].name, selected == Some(path + [i]))]
      + Lines(nodes[i].children, selected, path + [i])
  }

  /** Pushes the lines of `nodes` onto `lines`, walking the roots in order
      and recursing into every root that has children. */
  method BuildTreeLines(nodes: seq<Node>, selected: Option<seq<nat>>, path: seq<nat>, lines: seq<Line>)
    returns (out: seq<Line>)
    ensures out == lines + Lines(nodes, selected, path)
    decreases nodes
  {
    out := lines;
    for i := 0 to |nodes|
      invariant out == lines + Lines(nodes[..i], selected, path)
    {
      var node := nodes[i];
      var currentPath := path + [i];
      var isSelected := match selected
        case Some(sel) => sel == currentPath
        case None => false;
      var prefix := Spaces(2 * |path|);
      out := out + [Line(prefix, node.name, isSelected)];
      if node.children != [] {
        out := BuildTreeLines(node.children, selected, currentPath, out);
      }
      assert nodes[..i + 1][..i] == nodes[..i];
    }
    assert nodes[..|nodes|] == nodes;
  }

  /** `[i] + p` for every path `p` of `paths`. */
  function Under(i: nat, paths: seq<seq<nat>>): (r: seq<seq<nat>>)
    ensures |r| == |paths| && forall k :: 0 <= k < |r| ==> r[k] == [i] + paths[k]
  {
    seq(|paths|, k requires 0 <= k < |paths| => [i] + paths[k])
  }

  /** The paths of all nodes of `nodes`, relative to `nodes`, in
      pre-order: each node before its children, siblings in order. */
  function PreOrder(nodes: seq<Node>): seq<seq<nat>>
    decreases nodes
  {
    if |nodes| == 0 then []
    else
      var i := |nodes| - 1;
      PreOrder(nodes[..i]) + [[i]] + Under(i, PreOrder(nodes[i].children))
  }

  /** Lexicographic order on paths, an ancestor coming before its
      descendants: the order in which a pre-order walk visits nodes. */
  predicate PathBefore(a: seq<nat>, b: seq<nat>)
    decreases |a|
  {
    |b| > 0 && (|a| == 0 || a[0] < b[0] || (a[0] == b[0] && PathBefore(a[1..], b[1..])))
  }

  lemma {:induction false} PathBeforeIrreflexive(a: seq<nat>)
    ensures !PathBefore(a, a)
    decreases |a|
  {
    if |a| > 0 {
      PathBeforeIrreflexive(a[1..]);
    }
  }

  lemma PathBeforeUnder(i: nat, a: seq<nat>, b: seq<nat>)
    ensures PathBefore([i] + a, [i] + b) <==> PathBefore(a, b)
  {
    assert ([i] + a)[1..] == a && ([i] + b)[1..] == b;
  }

  /** Every path of the pre-order is non-empty and starts at a root of
      `nodes`. */
  lemma {:induction false} PreOrderRoots(nodes: seq<Node>)
    ensures forall k :: 0 <= k < |PreOrder(nodes)| ==>
      |PreOrder(nodes)[k]| > 0 && PreOrder(nodes)[k][0] < |nodes|
    decreases nodes
  {
    if |nodes| > 0 {
      PreOrderRoots(nodes[..|nodes| - 1]);
    }
  }

  /** The pre-order lists the paths in strictly increasing order, so it
      visits each node once, ancestors before descendants and earlier
      siblings' subtrees before later ones. */
  lemma {:induction false} PreOrderSorted(nodes: seq<Node>)
    ensures forall k, l :: 0 <= k < l < |PreOrder(nodes)| ==>
      PathBefore(PreOrder(nodes)[k], PreOrder(nodes)[l])
    decreases nodes
  {
    if |nodes| > 0 {
      var i := |nodes| - 1;
      var a := PreOrder(nodes[..i]);
      var c := PreOrder(nodes[i].children);
      var b := Under(i, c);
      var all := PreOrder(nodes);
      assert all == a + [[i]] + b;
      PreOrderSorted(nodes[..i]);
      PreOrderSorted(nodes[i].children);
      PreOrderRoots(nodes[..i]);
      PreOrderRoots(nodes[i].children);
      forall k, l | 0 <= k < l < |all|
        ensures PathBefore(all[k], all[l])
      {
        if l < |a| {
          assert all[k] == a[k] && all[l] == a[l];
        } else if k < |a| {
          assert all[k] == a[k] && all[k][0] < i;
          if l == |a| {
            assert all[l] == [i];
          } else {
            assert all[l] == [i] + c[l - |a| - 1];
          }
        } else if k == |a| {
          var t := l - |a| - 1;
          assert all[l] == [i] + c[t];
          assert ([i] + c[t])[1..] == c[t];
        } else {
          var s, t := k - |a| - 1, l - |a| - 1;
          assert all[k] == [i] + c[s] && all[l] == [i] + c[t];
          PathBeforeUnder(i, c[s], c[t]);
        }
      }
    }
  }

  /** No path occurs twice in the pre-order. */
  lemma PreOrderDistinct(nodes: seq<Node>)
    ensures forall k, l :: 0 <= k < l < |PreOrder(nodes)| ==> PreOrder(nodes)[k] != PreOrder(nodes)[l]
  {
    PreOrderSorted(nodes);
    forall k, l | 0 <= k < l < |PreOrder(nodes)|
      ensures PreOrder(nodes)[k] != PreOrder(nodes)[l]
    {
      PathBeforeIrreflexive(PreOrder(nodes)[k]);
    }
  }

  /** The pre-order lists exactly the paths that resolve to a node. */
  lemma {:induction false} PreOrderComplete(nodes: seq<Node>, q: seq<nat>)
    ensures q in PreOrder(nodes) <==> Resolve(nodes, q).Some?
    decreases nodes
  {
    if |nodes| > 0 {
      var i := |nodes| - 1;
      var c := PreOrder(nodes[i].children);
      assert PreOrder(nodes) == PreOrder(nodes[..i]) + [[i]] + Under(i, c);
      PreOrderComplete(nodes[..i], q);
      PreOrderRoots(nodes[..i]);
      if |q| > 0 && q[0] < i {
        ResolveInPrefix(nodes, i, q);
        assert q !in Under(i, c);
      } else if |q| > 1 && q[0] == i {
        PreOrderComplete(nodes[i].children, q[1..]);
        assert q == [i] + q[1..];
        if q[1..] in c {
          var t :| 0 <= t < |c| && c[t] == q[1..];
          assert Under(i, c)[t] == q;
        }
      } else if |q| == 1 && q[0] == i {
        assert q == [i];
      } else {
        assert q !in PreOrder(nodes[..i]);
        assert q !in Under(i, c);
        assert q != [i];
      }
    }
  }

  /** The pre-order has one path per node. */
  lemma {:induction false} PreOrderLength(nodes: seq<Node>)
    ensures |PreOrder(nodes)| == Count(nodes)
    decreases nodes
  {
    if |nodes| > 0 {
      var i := |nodes| - 1;
      PreOrderLength(nodes[..i]);
      PreOrderLength(nodes[i].children);
    }
  }

  /** The k-th line is the line of the k-th node in pre-order: its
      indentation is two spaces per level of depth, its text the node's
      name, and it is highlighted exactly when the selection is that
      node's path. */
  lemma {:induction false} LinesFollowPreOrder(nodes: seq<Node>, selected: Option<seq<nat>>, path: seq<nat>, k: nat)
    requires k < |PreOrder(nodes)|
    ensures |Lines(nodes, selected, path)| == |PreOrder(nodes)|
    ensures var q := PreOrder(nodes)[k];
            Resolve(nodes, q).Some? &&
            Lines(nodes, selected, path)[k] ==
              Line(Spaces(2 * (|path| + |q| - 1)), Resolve(nodes, q).value.name, selected == Some(path + q))
    decreases nodes
  {
    var i := |nodes| - 1;
    var init := nodes[..i];
    var kids := nodes[i].children;
    var a := PreOrder(init);
    var c := PreOrder(kids);
    LinesLength(nodes, selected, path);
    PreOrderLength(nodes);
    LinesLength(init, selected, path);
    PreOrderLength(init);
    LinesLength(kids, selected, path + [i]);
    PreOrderLength(kids);
    var q := PreOrder(nodes)[k];
    if k < |a| {
      LinesFollowPreOrder(init, selected, path, k);
      PreOrderRoots(init);
      ResolveInPrefix(nodes, i, q);
    } else if k == |a| {
      assert q == [i];
    } else {
      var t := k - |a| - 1;
      LinesFollowPreOrder(kids, selected, path + [i], t);
      assert q == [i] + c[t];
      PreOrderRoots(kids);
      assert q[1..] == c[t];
      assert (path + [i]) + c[t] == path + q;
    }
  }

  /** One line per node of the forest. */
  lemma {:induction false} LinesLength(nodes: seq<Node>, selected: Option<seq<nat>>, path: seq<nat>)
    ensures |Lines(nodes, selected, path)| == Count(nodes)
    decreases nodes
  {
    if |nodes| > 0 {
      var i := |nodes| - 1;
      LinesLength(nodes[..i], selected, path);
      LinesLength(nodes[i].children, selected, path + [i]);
    }
  }

  /** At most one line of the whole tree is highlighted. */
  lemma AtMostOneHighlighted(tree: seq<Node>, selected: Option<seq<nat>>, k: nat, l: nat)
    requires k < l < |Lines(tree, selected, [])|
    ensures !(Lines(tree, selected, [])[k].highlighted && Lines(tree, selected, [])[l].highlighted)
  {
    LinesLength(tree, selected, []);
    PreOrderLength(tree);
    LinesFollowPreOrder(tree, selected, [], k);
    LinesFollowPreOrder(tree, selected, [], l);
    PreOrderDistinct(tree);
    assert [] + PreOrder(tree)[k] == PreOrder(tree)[k];
    assert [] + PreOrder(tree)[l] == PreOrder(tree)[l];
  }

  /** A root with two leaf children renders as the root at depth 0 and
      then both children, in order, at depth 1. */
  lemma ThreeNodeExample()
    ensures var b := NewNode("B");
            var c := NewNode("C");
            var a := Node("A", [b, c]);
            Lines([a], None, []) ==
              [Line("", "A", false), Line("  ", "B", false), Line("  ", "C", false)]
  {
    var b := NewNode("B");
    var c := NewNode("C");
    var a := Node("A", [b, c]);
    assert Spaces(2) == "  ";
    assert [b, c][..1] == [b];
    assert [b][..0] == [];
    assert Lines([b], None, [0]) == [Line("  ", "B", false)];
    assert Lines([b, c], None, [0]) == [Line("  ", "B", false), Line("  ", "C", false)];
    assert [a][..0] == [];
    assert [] + [0] == [0];
    assert Spaces(0) == "";
  }
}
