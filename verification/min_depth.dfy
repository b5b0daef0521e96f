/** Minimum depth of a binary tree by an explicit stack (tree/min_depth.rs). */
module MinDepth {
  import opened Common

  /** A binary tree; `Nil` stands for an absent child (`None`). Sharing between `Rc`
      pointers is not modelled: every subtree is its own value. */
  datatype Tree = Nil | Node(val: int, left: Tree, right: Tree)

  function Size(t: Tree): nat
  {
    if t.Nil? then 0 else 1 + Size(t.left) + Size(t.right)
  }

  function Height(t: Tree): nat
  {
    if t.Nil? then 0 else 1 + Max(Height(t.left), Height(t.right))
  }

  /** Depths of the leaves of `t` when its root sits at depth `d`. */
  ghost function LeafDepths(t: Tree, d: int): set<int>
  {
    if t.Nil? then {}
    else if t.left.Nil? && t.right.Nil? then {d}
    else LeafDepths(t.left, d + 1) + LeafDepths(t.right, d + 1)
  }

  /** A non-empty tree has a leaf, and every leaf lies at most `Height - 1` below the root. */
  lemma {:induction false} LeafDepthsBounds(t: Tree, d: int)
    ensures t.Node? ==> LeafDepths(t, d) != {}
    ensures forall x :: x in LeafDepths(t, d) ==> d <= x <= d + Height(t) - 1
  {
    if t.Node? {
      LeafDepthsBounds(t.left, d + 1);
      LeafDepthsBounds(t.right, d + 1);
    }
  }

  /** Leaf depths of every `(node, depth)` pair still on the stack. */
  ghost function Pending(stack: seq<(Tree, int)>): set<int>
  {
    if |stack| == 0 then {}
    else Pending(stack[..|stack| - 1]) + LeafDepths(stack[|stack| - 1].0, stack[|stack| - 1].1)
  }

  function StackSize(stack: seq<(Tree, int)>): nat
  {
    if |stack| == 0 then 0 else StackSize(stack[..|stack| - 1]) + Size(stack[|stack| - 1].0)
  }

  lemma Push(stack: seq<(Tree, int)>, e: (Tree, int))
    ensures Pending(stack + [e]) == Pending(stack) + LeafDepths(e.0, e.1)
    ensures StackSize(stack + [e]) == StackSize(stack) + Size(e.0)
  {
    assert (stack + [e])[..|stack|] == stack;
  }

  /** The entries the source pushes for a popped node: its present children, left first,
      one level deeper. */
  function Children(node: Tree, depth: int): (c: seq<(Tree, int)>)
    requires node.Node?
    ensures forall i :: 0 <= i < |c| ==> c[i].0.Node?
  {
    match (node.left, node.right)
    case (Nil, Nil) => []
    case (Node(_, _, _), Node(_, _, _)) => [(node.left, depth + 1), (node.right, depth + 1)]
    case (Node(_, _, _), Nil) => [(node.left, depth + 1)]
    case (Nil, Node(_, _, _)) => [(node.right, depth + 1)]
  }

  /** Replacing a popped inner node by its children keeps the pending leaf depths and
      shrinks the stack's total size by one. */
  lemma Expand(rest: seq<(Tree, int)>, node: Tree, depth: int)
    requires node.Node?
    ensures !(node.left.Nil? && node.right.Nil?) ==>
              Pending(rest + Children(node, depth)) == Pending(rest) + LeafDepths(node, depth)
    ensures Pending(rest + Children(node, depth)) + LeafDepths(node, depth) ==
              Pending(rest) + LeafDepths(node, depth)
    ensures StackSize(rest + Children(node, depth)) == StackSize(rest) + Size(node) - 1
  {
    var c := Children(node, depth);
    if |c| == 0 {
      assert rest + c == rest;
    } else if |c| == 1 {
      Push(rest, c[0]);
    } else {
      Push(rest, c[0]);
      Push(rest + [c[0]], c[1]);
      assert rest + c == rest + [c[0]] + [c[1]];
    }
  }

  /** `min_depth`: 0 for an empty tree; otherwise the least depth of a leaf, counting the
      root as depth 1. The running minimum starts at `i32::MAX`, so a tree whose leaves all
      lie deeper than that reports `i32::MAX`. */
  method MinDepth(root: Tree) returns (r: int)
    ensures root.Nil? ==> r == 0
    ensures root.Node? ==> forall x :: x in LeafDepths(root, 1) ==> r <= x
    ensures root.Node? ==> r in LeafDepths(root, 1) || r == I32Max
    ensures root.Node? && Height(root) <= I32Max ==> r in LeafDepths(root, 1)
  {
    if root.Nil? {
      return 0;
    }
    r := I32Max;
    ghost var seen: set<int> := {};
    var stack := [(root, 1)];
    assert stack[..0] == [];
    while |stack| > 0
      invariant forall i :: 0 <= i < |stack| ==> stack[i].0.Node?
      invariant LeafDepths(root, 1) == seen + Pending(stack)
      invariant forall x :: x in seen ==> r <= x
      invariant r in seen || r == I32Max
      decreases StackSize(stack), |stack|
    {
      var top := stack[|stack| - 1];
      var node, depth := top.0, top.1;
      var rest := stack[..|stack| - 1];
      assert Pending(stack) == Pending(rest) + LeafDepths(node, depth);
      assert StackSize(stack) == StackSize(rest) + Size(node);
      if node.left.Nil? && node.right.Nil? {
        seen := seen + {depth};
        r := Min(r, depth);
      }
      Expand(rest, node, depth);
      stack := rest + Children(node, depth);
    }
    LeafDepthsBounds(root, 1);
  }

  method MinDepthExamples()
  {
    var t := Node(3, Node(9, Nil, Nil), Node(20, Node(15, Nil, Nil), Node(7, Nil, Nil)));
    var r := MinDepth(t);
    assert LeafDepths(t, 1) == {2, 3};
    assert r == 2;
  }
}
