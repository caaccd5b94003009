/** The tree-mode editor: the outline, the selection cursor (a path from
    the root list, or none) and the one-key memory used by the `gg` chord,
    with one method per key of the tree mode. */
module Editor {
  import opened Outline

  /** The keys tree mode tells apart; every other key is `Other`. */
  datatype Key = LowerQ | UpperA | LowerJ | LowerK | LowerG | UpperG | Other

  /** `path` is what `G` selects: at every level it takes the last index,
      and it ends at a node without children. */
  ghost predicate IsDeepestLast(tree: seq<Node>, path: seq<nat>)
  {
    Resolve(tree, path).Some? && Resolve(tree, path).value.children == [] &&
    forall k :: 0 <= k < |path| ==>
      ChildrenAt(tree, path[..k]).Some? && path[k] + 1 == |ChildrenAt(tree, path[..k]).value|
  }

  lemma {:induction false} DeepestLastAgree(tree: seq<Node>, p1: seq<nat>, p2: seq<nat>, k: nat)
    requires IsDeepestLast(tree, p1) && IsDeepestLast(tree, p2)
    requires k <= |p1| && k <= |p2|
    ensures p1[..k] == p2[..k]
    decreases k
  {
    if k > 0 {
      DeepestLastAgree(tree, p1, p2, k - 1);
      assert p1[..k] == p1[..k - 1] + [p1[k - 1]];
      assert p2[..k] == p2[..k - 1] + [p2[k - 1]];
    }
  }

  /** A deepest-last path cannot stop above the end of another one. */
  lemma DeepestLastNotShorter(tree: seq<Node>, p1: seq<nat>, p2: seq<nat>)
    requires IsDeepestLast(tree, p1) && IsDeepestLast(tree, p2)
    ensures |p2| <= |p1|
  {
    // Were p2 longer, its index below the end of p1 would have to be the
    // last of an empty child list.
    var m := if |p1| < |p2| then |p1| else |p2|;
    DeepestLastAgree(tree, p1, p2, m);
    ChildrenAtViaResolve(tree, p1);
    assert p1[..|p1|] == p1;
  }

  /** There is at most one deepest-last path: the target of `G` is
      determined by the tree alone. */
  lemma DeepestLastUnique(tree: seq<Node>, p1: seq<nat>, p2: seq<nat>)
    requires IsDeepestLast(tree, p1) && IsDeepestLast(tree, p2)
    ensures p1 == p2
  {
    DeepestLastNotShorter(tree, p1, p2);
    DeepestLastNotShorter(tree, p2, p1);
    DeepestLastAgree(tree, p1, p2, |p1|);
  }

  /** A single root X whose only child Y is a leaf: `G` goes to Y. */
  lemma DeepestLastExample()
    ensures var y := NewNode("Y");
            var x := Node("X", [y]);
            IsDeepestLast([x], [0, 0]) && !IsDeepestLast([x], [0])
  {
    var x := Node("X", [NewNode("Y")]);
    assert [0, 0][..1] == [0];
    assert [0, 0][..0] == [];
  }

  /** Builds the path `G` selects: the last root, then its last child,
      and so on down to a node without children; the empty path for an
      empty tree. */
  method DeepestLastPath(tree: seq<Node>) returns (path: seq<nat>)
    ensures tree == [] <==> path == []
    ensures tree != [] ==> IsDeepestLast(tree, path)
  {
    path := [];
    var current := tree;
    if current != [] {
      var last := |current| - 1;
      ChildrenAtExtend(tree, path, last);
      path := path + [last];
      current := current[last].children;
      while current != []
        invariant |path| > 0
        invariant ChildrenAt(tree, path) == Some(current)
        invariant forall k :: 0 <= k < |path| ==>
          ChildrenAt(tree, path[..k]).Some? && path[k] + 1 == |ChildrenAt(tree, path[..k]).value|
        decreases Count(current)
      {
        last := |current| - 1;
        assert Count(current) == Count(current[..last]) + 1 + Count(current[last].children);
        ChildrenAtExtend(tree, path, last);
        assert forall k :: 0 <= k <= |path| ==> (path + [last])[..k] == path[..k];
        path := path + [last];
        current := current[last].children;
      }
      ChildrenAtViaResolve(tree, path);
    }
  }

  class App {
    /** The root list of the outline. */
    var tree: seq<Node>
    /** The selected node's path, if any. */
    var selected: Option<seq<nat>>
    /** The previous key, kept only while it can start a chord. */
    var prevKey: Option<Key>

    /** The selection, when present, names a node of the tree. */
    predicate SelectionResolves()
      reads this
    {
      selected.Some? ==> Resolve(tree, selected.value).Some?
    }

    /** An empty outline with nothing selected and no pending chord. */
    constructor ()
      ensures tree == [] && selected == None && prevKey == None
      ensures SelectionResolves()
    {
      tree := [];
      selected := None;
      prevKey := None;
    }

    /** `A`: appends a fresh "new node" to the end of the selected node's
        children (to the end of the root list when nothing is selected)
        and selects it; with a selection that does not resolve nothing
        happens. Every path that resolved still resolves. */
    method AddChild()
      modifies this`tree, this`selected
      ensures old(selected).None? ==>
        tree == old(tree) + [NewNode(NewNodeName)] && selected == Some([|old(tree)|])
      ensures old(selected).Some? && Resolve(old(tree), old(selected).value).Some? ==>
        var p := old(selected).value;
        var target := Resolve(old(tree), p).value;
        tree == AppendChildAt(old(tree), p, NewNode(NewNodeName)) &&
        selected == Some(p + [|target.children|]) &&
        Resolve(tree, p) == Some(Node(target.name, target.children + [NewNode(NewNodeName)]))
      ensures old(selected).Some? && Resolve(old(tree), old(selected).value).None? ==>
        tree == old(tree) && selected == old(selected)
      ensures selected != old(selected) ==>
        selected.Some? && Resolve(tree, selected.value) == Some(NewNode(NewNodeName)) &&
        Count(tree) == Count(old(tree)) + 1
      ensures forall q :: Resolve(old(tree), q).Some? ==> Resolve(tree, q).Some?
      ensures old(SelectionResolves()) ==> SelectionResolves()
    {
      var newNode := NewNode(NewNodeName);
      match selected {
        case Some(selectedPath) =>
          var node := Resolve(tree, selectedPath);
          if node.Some? {
            ghost var before := tree;
            tree := AppendChildAt(tree, selectedPath, newNode);
            selected := Some(selectedPath + [|node.value.children + [newNode]| - 1]);
            AppendChildAtTarget(before, selectedPath, newNode);
            AppendChildAtCount(before, selectedPath, newNode);
            forall q | Resolve(before, q).Some?
              ensures Resolve(tree, q).Some?
            {
              AppendChildAtKeepsPaths(before, selectedPath, newNode, q);
            }
          }
        case None =>
          ghost var before := tree;
          tree := tree + [newNode];
          selected := Some([|tree| - 1]);
          assert tree[..|before|] == before;
          assert Count(tree) == Count(before) + 1;
          forall q | Resolve(before, q).Some?
            ensures Resolve(tree, q).Some?
          {
            ResolveInPrefix(tree, |before|, q);
          }
      }
    }

    /** `j`: moves to the next sibling; a no-op at the last sibling, with
        no selection, or when the sibling list cannot be found. The tree
        and the depth of the selection never change. The caller must not
        have a dangling selection whose sibling list is empty (the source
        computes `len() - 1` on it). */
    method MoveDown()
      requires selected.Some? && selected.value != [] ==>
        ChildrenAt(tree, Parent(selected.value)) != Some([])
      modifies this`selected
      ensures selected ==
        match old(selected)
        case None => None
        case Some(p) =>
          if p != [] && ChildrenAt(tree, Parent(p)).Some? &&
             Last(p) + 1 < |ChildrenAt(tree, Parent(p)).value|
          then Some(p[|p| - 1 := Last(p) + 1])
          else Some(p)
      ensures old(SelectionResolves()) ==> SelectionResolves()
      ensures old(SelectionResolves()) && old(selected).Some? ==>
        var p := old(selected).value;
        (selected != old(selected) <==> Resolve(tree, p[|p| - 1 := Last(p) + 1]).Some?)
    {
      match selected {
        case None =>
        case Some(p) =>
          if p != [] {
            var siblings := ChildrenAt(tree, Parent(p));
            if siblings.Some? {
              var current := Last(p);
              if current < |siblings.value| - 1 {
                selected := Some(p[|p| - 1 := current + 1]);
              }
            }
          }
      }
      if old(selected).Some? && old(selected).value != [] {
        var p := old(selected).value;
        var next := p[|p| - 1 := Last(p) + 1];
        assert Parent(next) == Parent(p) && Last(next) == Last(p) + 1;
        ResolveViaParent(tree, p);
        ResolveViaParent(tree, next);
      }
    }

    /** `k`: moves to the previous sibling; a no-op at the first sibling or
        with no selection. The tree and the depth of the selection never
        change. */
    method MoveUp()
      modifies this`selected
      ensures selected ==
        match old(selected)
        case None => None
        case Some(p) => if p != [] && Last(p) > 0 then Some(p[|p| - 1 := Last(p) - 1]) else Some(p)
      ensures old(SelectionResolves()) ==> SelectionResolves()
    {
      match selected {
        case None =>
        case Some(p) =>
          if p != [] {
            var current := Last(p);
            if current > 0 {
              selected := Some(p[|p| - 1 := current - 1]);
              var prev := p[|p| - 1 := current - 1];
              assert Parent(prev) == Parent(p) && Last(prev) == current - 1;
              ResolveViaParent(tree, p);
              ResolveViaParent(tree, prev);
            }
          }
      }
    }

    /** `g`: the second `g` in a row selects the first root, if there is
        one; a `g` after any other key only arms the chord. */
    method PressG(prev: Option<Key>)
      modifies this`selected, this`prevKey
      ensures prev == Some(LowerG) ==>
        prevKey == old(prevKey) && selected == (if tree != [] then Some([0]) else old(selected))
      ensures prev != Some(LowerG) ==> prevKey == Some(LowerG) && selected == old(selected)
      ensures old(SelectionResolves()) ==> SelectionResolves()
    {
      if prev == Some(LowerG) {
        if tree != [] {
          selected := Some([0]);
        }
      } else {
        prevKey := Some(LowerG);
      }
    }

    /** `G`: selects the deepest-last node; on an empty tree nothing
        changes. */
    method SelectLast()
      modifies this`selected
      ensures tree == [] ==> selected == old(selected)
      ensures tree != [] ==> selected.Some? && IsDeepestLast(tree, selected.value)
      ensures old(SelectionResolves()) ==> SelectionResolves()
    {
      var path := DeepestLastPath(tree);
      if path != [] {
        selected := Some(path);
      }
    }

    /** One key press in tree mode: the chord memory is cleared first, then
        the key's command runs. Returns true for `q`, which ends the
        session. Only `A` changes the tree, and the selection keeps
        resolving. */
    method HandleKey(k: Key) returns (quit: bool)
      requires SelectionResolves()
      modifies this
      ensures SelectionResolves()
      ensures quit <==> k == LowerQ
      ensures prevKey == if k == LowerG && old(prevKey) != Some(LowerG) then Some(LowerG) else None
      ensures k != UpperA ==> tree == old(tree)
      ensures k == UpperA && old(selected).None? ==>
        tree == old(tree) + [NewNode(NewNodeName)] && selected == Some([|old(tree)|])
      ensures k == UpperA && old(selected).Some? ==>
        tree == AppendChildAt(old(tree), old(selected).value, NewNode(NewNodeName)) &&
        selected == Some(old(selected).value + [|Resolve(old(tree), old(selected).value).value.children|])
      ensures k == UpperA ==>
        Count(tree) == Count(old(tree)) + 1 &&
        selected.Some? && Resolve(tree, selected.value) == Some(NewNode(NewNodeName))
      ensures k == LowerQ || k == Other ==> selected == old(selected)
      ensures k == LowerJ || k == LowerK ==>
        selected.Some? == old(selected).Some? &&
        (selected.Some? ==> |selected.value| == |old(selected).value| &&
                            Parent(selected.value) == Parent(old(selected).value))
      ensures k == LowerG && old(prevKey) == Some(LowerG) ==>
        selected == if tree != [] then Some([0]) else old(selected)
      ensures k == LowerG && old(prevKey) != Some(LowerG) ==> selected == old(selected)
      ensures k == UpperG ==>
        (tree == [] ==> selected == old(selected)) &&
        (tree != [] ==> selected.Some? && IsDeepestLast(tree, selected.value))
    {
      var prev := prevKey;
      prevKey := None;
      quit := false;
      match k {
        case LowerQ => quit := true;
        case UpperA =>
          AddChild();
        case LowerJ =>
          if selected.Some? {
            ResolveViaParent(tree, selected.value);
          }
          MoveDown();
        case LowerK => MoveUp();
        case LowerG => PressG(prev);
        case UpperG => SelectLast();
        case Other =>
      }
    }
  }
}
