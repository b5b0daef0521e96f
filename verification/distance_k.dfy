/** All nodes at distance `k` from a target node of a binary tree (tree/distance_k.rs).
    Node identity, which the source takes from `Rc` pointers, is a node id here: the ids of
    one tree are pairwise distinct, and a target that lies in the tree is the very subtree
    found there. */
module DistanceK {
  import opened Common

  datatype Tree = Nil | Node(id: nat, val: int, left: Tree, right: Tree)

  function Ids(t: Tree): set<nat>
  {
    if t.Nil? then {} else {t.id} + Ids(t.left) + Ids(t.right)
  }

  function Size(t: Tree): nat
  {
    if t.Nil? then 0 else 1 + Size(t.left) + Size(t.right)
  }

  /** No id occurs twice: the nodes are distinct objects. */
  predicate Unique(t: Tree)
  {
    t.Nil? ||
    (t.id !in Ids(t.left) && t.id !in Ids(t.right) && Ids(t.left) !! Ids(t.right) &&
     Unique(t.left) && Unique(t.right))
  }

  /** The subtree rooted at the node with id `x`, `Nil` when there is none. */
  function Find(t: Tree, x: nat): (r: Tree)
    ensures r.Node? <==> x in Ids(t)
    ensures r.Node? ==> r.id == x
  {
    if t.Nil? then Nil
    else if t.id == x then t
    else if x in Ids(t.left) then Find(t.left, x)
    else Find(t.right, x)
  }

  /** The nodes from the one with id `x` up to the root `t`, each the parent of the one
      before it. */
  function PathTo(t: Tree, x: nat): (p: seq<Tree>)
    requires x in Ids(t)
    ensures |p| >= 1 && forall j :: 0 <= j < |p| ==> p[j].Node?
  {
    if t.id == x then [t]
    else if x in Ids(t.left) then PathTo(t.left, x) + [t]
    else PathTo(t.right, x) + [t]
  }

  /** The path starts at the node with id `x`, ends at the root, and climbs one edge at
      each step. */
  lemma {:induction false} PathShape(t: Tree, x: nat)
    requires x in Ids(t)
    ensures var p := PathTo(t, x);
      |p| >= 1 && p[0] == Find(t, x) && p[|p| - 1] == t &&
      (forall j :: 0 <= j < |p| ==> p[j].Node?) &&
      (forall j :: 0 <= j < |p| - 1 ==> p[j] == p[j + 1].left || p[j] == p[j + 1].right)
  {
    if t.id != x {
      var c := if x in Ids(t.left) then t.left else t.right;
      PathShape(c, x);
      var q := PathTo(c, x);
      assert PathTo(t, x) == q + [t];
    }
  }

  /** Every node on a path is the subtree found under its own id. */
  lemma {:induction false} PathFind(t: Tree, x: nat)
    requires Unique(t) && x in Ids(t)
    ensures forall j :: 0 <= j < |PathTo(t, x)| ==> Find(t, PathTo(t, x)[j].id) == PathTo(t, x)[j]
  {
    if t.id != x {
      var c := if x in Ids(t.left) then t.left else t.right;
      PathFind(c, x);
      PathShape(c, x);
      var q := PathTo(c, x);
      forall j | 0 <= j < |q| ensures Find(t, q[j].id) == q[j] {
        assert q[j].id in Ids(c);
      }
    }
  }

  /** A child of a node found in `t` is found in `t` as well, one step further from the root. */
  lemma {:induction false} ChildFind(t: Tree, x: nat, c: Tree)
    requires Unique(t) && x in Ids(t) && c.Node?
    requires c == Find(t, x).left || c == Find(t, x).right
    ensures c.id in Ids(t) && Find(t, c.id) == c
    ensures PathTo(t, c.id) == [c] + PathTo(t, x)
  {
    if t.id == x {
      assert c.id in Ids(c);
      if c == t.left {
        assert PathTo(t, c.id) == PathTo(c, c.id) + [t];
      } else {
        assert c.id !in Ids(t.left);
        assert PathTo(t, c.id) == PathTo(c, c.id) + [t];
      }
    } else if x in Ids(t.left) {
      ChildFind(t.left, x, c);
    } else {
      ChildFind(t.right, x, c);
      assert c.id !in Ids(t.left);
    }
  }

  function Weight<T>(stack: seq<(Tree, T)>): nat
  {
    if |stack| == 0 then 0 else Weight(stack[..|stack| - 1]) + Size(stack[|stack| - 1].0)
  }

  lemma WeightPush<T>(stack: seq<(Tree, T)>, e: (Tree, T))
    ensures Weight(stack + [e]) == Weight(stack) + Size(e.0)
  {
    assert (stack + [e])[..|stack|] == stack;
  }

  /** A stack entry of the search: a node of `t` and the chain of its ancestors, nearest first. */
  ghost predicate Traced(t: Tree, e: (Tree, seq<Tree>))
  {
    e.0.Node? && e.0.id in Ids(t) && Find(t, e.0.id) == e.0 && PathTo(t, e.0.id) == [e.0] + e.1
  }

  lemma TraceChild(t: Tree, node: Tree, chain: seq<Tree>, c: Tree)
    requires Unique(t) && Traced(t, (node, chain)) && c.Node? && (c == node.left || c == node.right)
    ensures Traced(t, (c, [node] + chain))
  {
    ChildFind(t, node.id, c);
  }

  /** `x`, when it lies in `t`, lies under some entry still on the stack. */
  ghost predicate Reaches(t: Tree, x: nat, stack: seq<(Tree, seq<Tree>)>)
  {
    x in Ids(t) ==> exists j :: 0 <= j < |stack| && x in Ids(stack[j].0)
  }

  /** `trace_path` (lines 42-72): a depth-first search whose stack entries carry the chain of
      their ancestors; on reaching the target the chain is the path to the root. The source
      keeps the chain as linked parent nodes and copies it out with a second loop; here the
      chain is a sequence. */
  method TracePath(root: Tree, x: nat) returns (path: Option<seq<Tree>>)
    requires root.Node? && Unique(root)
    ensures x in Ids(root) ==> path == Some(PathTo(root, x))
    ensures x !in Ids(root) ==> path == None
  {
    var stack: seq<(Tree, seq<Tree>)> := [(root, [])];
    assert root.id in Ids(root);
    assert Traced(root, stack[0]);
    assert x in Ids(root) ==> x in Ids(stack[0].0);
    while |stack| > 0
      invariant Traces(root, stack) && Reaches(root, x, stack)
      decreases Weight(stack)
    {
      var found;
      stack, found := Trace(root, x, stack);
      if found.Some? {
        return found;
      }
    }
    return None;
  }

  /** Every entry of the stack is traced. */
  ghost predicate Traces(t: Tree, stack: seq<(Tree, seq<Tree>)>)
  {
    forall j :: 0 <= j < |stack| ==> Traced(t, stack[j])
  }

  /** One pass of the search loop (lines 47-69): the node popped is either `x`, whose chain
      completes the path, or its children are pushed with the chain one node longer. */
  method Trace(root: Tree, x: nat, stack: seq<(Tree, seq<Tree>)>)
    returns (stack': seq<(Tree, seq<Tree>)>, found: Option<seq<Tree>>)
    requires Unique(root) && |stack| > 0 && Traces(root, stack) && Reaches(root, x, stack)
    ensures found.Some? ==> x in Ids(root) && found.value == PathTo(root, x)
    ensures found.None? ==> Traces(root, stack') && Reaches(root, x, stack') && Weight(stack') < Weight(stack)
  {
    var top := stack[|stack| - 1];
    var node, chain := top.0, top.1;
    var rest := stack[..|stack| - 1];
    assert Traced(root, top);
    if node.id == x {
      return rest, Some([node] + chain);
    }
    assert Weight(stack) == Weight(rest) + Size(node);
    stack', found := rest, None;
    if node.left.Node? {
      TraceChild(root, node, chain, node.left);
      WeightPush(stack', (node.left, [node] + chain));
      stack' := stack' + [(node.left, [node] + chain)];
    }
    if node.right.Node? {
      TraceChild(root, node, chain, node.right);
      WeightPush(stack', (node.right, [node] + chain));
      stack' := stack' + [(node.right, [node] + chain)];
    }
    SearchStep(root, x, stack, stack');
  }

  lemma SearchStep(t: Tree, x: nat, before: seq<(Tree, seq<Tree>)>, stack: seq<(Tree, seq<Tree>)>)
    requires |before| > 0 && Reaches(t, x, before) && before[|before| - 1].0.Node? && before[|before| - 1].0.id != x
    requires var node := before[|before| - 1].0;
      stack == before[..|before| - 1] + (if node.left.Node? then [(node.left, [node] + before[|before| - 1].1)] else []) +
        (if node.right.Node? then [(node.right, [node] + before[|before| - 1].1)] else [])
    ensures Reaches(t, x, stack)
  {
    if x in Ids(t) {
      var j :| 0 <= j < |before| && x in Ids(before[j].0);
      if j < |before| - 1 {
        assert stack[j] == before[j];
      } else {
        var node := before[|before| - 1].0;
        var base := before[..|before| - 1];
        if x in Ids(node.left) {
          assert stack[|base|].0 == node.left;
        } else {
          assert x in Ids(node.right);
          assert stack[|stack| - 1].0 == node.right;
        }
      }
    }
  }

  /** Edges from the root of `t` down to the node with id `y`. */
  function Depth(t: Tree, y: nat): nat
    requires y in Ids(t)
  {
    |PathTo(t, y)| - 1
  }

  /** Edges on the path between the nodes with ids `x` and `y`: down from their lowest common
      ancestor to each. */
  function Dist(t: Tree, x: nat, y: nat): nat
    requires x in Ids(t) && y in Ids(t)
  {
    if x in Ids(t.left) && y in Ids(t.left) then Dist(t.left, x, y)
    else if x in Ids(t.right) && y in Ids(t.right) then Dist(t.right, x, y)
    else Depth(t, x) + Depth(t, y)
  }

  /** The ids of the nodes `d` levels below the root of `t`. */
  function Level(t: Tree, d: nat): multiset<nat>
  {
    if t.Nil? then multiset{}
    else if d == 0 then multiset{t.id}
    else Level(t.left, d - 1) + Level(t.right, d - 1)
  }

  lemma LevelDepth(t: Tree, d: nat)
    requires Unique(t)
    ensures forall y :: Level(t, d)[y] == if y in Ids(t) && Depth(t, y) == d then 1 else 0
  {
    forall y ensures Level(t, d)[y] == if y in Ids(t) && Depth(t, y) == d then 1 else 0 {
      LevelDepthAt(t, d, y);
    }
  }

  /** `Level(t, d)` holds `y` once if `y` sits at depth `d` of `t`, and not at all otherwise. */
  lemma {:induction false} LevelDepthAt(t: Tree, d: nat, y: nat)
    requires Unique(t)
    ensures Level(t, d)[y] == if y in Ids(t) && Depth(t, y) == d then 1 else 0
  {
    if t.Node? && d == 0 {
      if y == t.id {
        DepthChild(t, y);
      } else if y in Ids(t) {
        DepthBelow(t, y);
      }
    } else if t.Node? {
      LevelDepthAt(t.left, d - 1, y);
      LevelDepthAt(t.right, d - 1, y);
      LevelPoint(t, d, y, Level(t.left, d - 1)[y], Level(t.right, d - 1)[y]);
    }
  }

  /** Only the root sits at depth 0. */
  lemma DepthBelow(t: Tree, y: nat)
    requires y in Ids(t) && y != t.id
    ensures Depth(t, y) > 0
  {
    assert |PathTo(t, y)| >= 2;
  }

  lemma LevelPoint(t: Tree, d: nat, y: nat, inLeft: int, inRight: int)
    requires Unique(t) && t.Node? && d > 0
    requires inLeft == if y in Ids(t.left) && Depth(t.left, y) == d - 1 then 1 else 0
    requires inRight == if y in Ids(t.right) && Depth(t.right, y) == d - 1 then 1 else 0
    ensures inLeft + inRight == if y in Ids(t) && Depth(t, y) == d then 1 else 0
  {
    DepthChild(t, y);
  }

  /** The child of `p` other than `c` when `p` has two children, `Nil` otherwise; `c` is
      compared by id, as the source compares pointers. */
  function Sibling(c: Tree, p: Tree): Tree
  {
    if p.Node? && p.left.Node? && p.right.Node? then
      (if c.Node? && c.id == p.left.id then p.right else p.left)
    else Nil
  }

  /** The ancestor reported directly: the node `k` steps up the path, if the path is that long. */
  function Anc(path: seq<Tree>, k: nat): multiset<nat>
  {
    if k < |path| && path[k].Node? then multiset{path[k].id} else multiset{}
  }

  /** What the downward searches find: the target's level `k`, and for each step up the
      path within reach, the off-path sibling's level at the remaining distance. */
  function Down(path: seq<Tree>, k: nat): multiset<nat>
    requires |path| >= 1
  {
    if |path| == 1 then Level(path[0], k)
    else
      Down(path[..|path| - 1], k) +
      (if |path| <= k then Level(Sibling(path[|path| - 2], path[|path| - 1]), k - |path|) else multiset{})
  }

  /** The ancestor and the downward searches together find each node at distance `k` from
      the node with id `x` exactly once, and nothing else. */
  lemma Reach(t: Tree, x: nat, k: nat)
    requires Unique(t) && x in Ids(t) && k >= 1
    ensures forall y :: (Anc(PathTo(t, x), k) + Down(PathTo(t, x), k))[y] ==
                        if y in Ids(t) && Dist(t, x, y) == k then 1 else 0
  {
    forall y ensures (Anc(PathTo(t, x), k) + Down(PathTo(t, x), k))[y] ==
                     if y in Ids(t) && Dist(t, x, y) == k then 1 else 0 {
      ReachAt(t, x, k, y);
    }
  }

  /** `Reach` for one node `y`, by induction on the subtree holding `x`. */
  lemma {:induction false} ReachAt(t: Tree, x: nat, k: nat, y: nat)
    requires Unique(t) && x in Ids(t) && k >= 1
    ensures (Anc(PathTo(t, x), k) + Down(PathTo(t, x), k))[y] ==
            if y in Ids(t) && Dist(t, x, y) == k then 1 else 0
  {
    if t.id == x {
      ReachAtTarget(t, k, y);
    } else {
      var c := if x in Ids(t.left) then t.left else t.right;
      ReachAt(c, x, k, y);
      ReachUp(t, x, k, c, if x in Ids(t.left) then t.right else t.left, y);
    }
  }

  /** From the target itself only the level `k` below it is searched. */
  lemma ReachAtTarget(t: Tree, k: nat, y: nat)
    requires Unique(t) && t.Node? && k >= 1
    ensures (Anc(PathTo(t, t.id), k) + Down(PathTo(t, t.id), k))[y] ==
            if y in Ids(t) && Dist(t, t.id, y) == k then 1 else 0
  {
    LevelDepthAt(t, k, y);
    assert PathTo(t, t.id) == [t];
    if y in Ids(t) {
      DepthChild(t, t.id);
      assert Dist(t, t.id, y) == Depth(t, y);
    }
  }

  /** One step up the path: the parent `t` adds itself at distance `|q|` and the level of
      the other child `o` that lies `k` away. */
  lemma ReachUp(t: Tree, x: nat, k: nat, c: Tree, o: Tree, y: nat)
    requires Unique(t) && t.Node? && t.id != x && x in Ids(t) && k >= 1
    requires (x in Ids(t.left) && c == t.left && o == t.right) || (x !in Ids(t.left) && c == t.right && o == t.left)
    requires x in Ids(c)
    requires (Anc(PathTo(c, x), k) + Down(PathTo(c, x), k))[y] ==
             if y in Ids(c) && Dist(c, x, y) == k then 1 else 0
    ensures (Anc(PathTo(t, x), k) + Down(PathTo(t, x), k))[y] ==
            if y in Ids(t) && Dist(t, x, y) == k then 1 else 0
  {
    var q := PathTo(c, x);
    var p := PathTo(t, x);
    UpSplit(t, x, k, c, o);
    var before := Anc(q, k) + Down(q, k);
    var top := if k == |q| then multiset{t.id} else multiset{};
    var extra := if |q| + 1 <= k then Level(o, k - |q| - 1) else multiset{};
    if |q| + 1 <= k {
      LevelDepthAt(o, k - |q| - 1, y);
    }
    ReachPoint(t, x, k, c, o, y, before[y], top[y], extra[y]);
    assert (Anc(p, k) + Down(p, k))[y] == before[y] + top[y] + extra[y];
  }

  /** The step up splits into what the child's path finds, the parent, and the other child's level. */
  lemma UpSplit(t: Tree, x: nat, k: nat, c: Tree, o: Tree)
    requires Unique(t) && t.Node? && t.id != x && x in Ids(t)
    requires (x in Ids(t.left) && c == t.left && o == t.right) || (x !in Ids(t.left) && c == t.right && o == t.left)
    requires x in Ids(c)
    ensures var q := PathTo(c, x);
      Anc(PathTo(t, x), k) == Anc(q, k) + (if k == |q| then multiset{t.id} else multiset{}) &&
      Down(PathTo(t, x), k) == Down(q, k) + (if |q| + 1 <= k then Level(o, k - |q| - 1) else multiset{})
  {
    var q := PathTo(c, x);
    PathShape(c, x);
    assert PathTo(t, x) == q + [t];
    SiblingOther(t, c, o);
    AncUp(q, t, k);
    DownUp(q, t, k);
  }

  lemma SiblingOther(t: Tree, c: Tree, o: Tree)
    requires Unique(t) && t.Node? && c.Node?
    requires (c == t.left && o == t.right) || (c == t.right && o == t.left)
    ensures Sibling(c, t) == o
  {
    if o.Node? && c == t.right {
      assert t.left.id in Ids(t.left);
    }
  }

  lemma AncUp(q: seq<Tree>, t: Tree, k: nat)
    requires t.Node? && forall j :: 0 <= j < |q| ==> q[j].Node?
    ensures Anc(q + [t], k) == Anc(q, k) + (if k == |q| then multiset{t.id} else multiset{})
  {
  }

  lemma DownUp(q: seq<Tree>, t: Tree, k: nat)
    requires t.Node? && |q| >= 1 && forall j :: 0 <= j < |q| ==> q[j].Node?
    ensures Down(q + [t], k) ==
            Down(q, k) + (if |q| + 1 <= k then Level(Sibling(q[|q| - 1], t), k - |q| - 1) else multiset{})
  {
    assert (q + [t])[..|q|] == q;
  }

  /** The count of one id after the step up, from its count before and the two additions. */
  lemma ReachPoint(t: Tree, x: nat, k: nat, c: Tree, o: Tree, y: nat, before: int, top: int, extra: int)
    requires Unique(t) && t.Node? && x in Ids(c)
    requires (c == t.left && o == t.right) || (c == t.right && o == t.left)
    requires before == if y in Ids(c) && Dist(c, x, y) == k then 1 else 0
    requires top == if k == Depth(c, x) + 1 && y == t.id then 1 else 0
    requires extra == if Depth(c, x) + 2 <= k && y in Ids(o) && Depth(o, y) == k - Depth(c, x) - 2 then 1 else 0
    ensures before + top + extra == if y in Ids(t) && Dist(t, x, y) == k then 1 else 0
  {
    ReachSplit(t, x, c, o, y);
  }

  /** One level down: a node of a child subtree lies one edge deeper in the parent. */
  lemma DepthChild(t: Tree, y: nat)
    requires Unique(t) && t.Node?
    ensures t.id in Ids(t) && Depth(t, t.id) == 0
    ensures y in Ids(t.left) ==> y != t.id && y !in Ids(t.right) && y in Ids(t) && Depth(t, y) == Depth(t.left, y) + 1
    ensures y in Ids(t.right) ==> y != t.id && y !in Ids(t.left) && y in Ids(t) && Depth(t, y) == Depth(t.right, y) + 1
  {
  }

  /** Where `y` lies relative to the child `c` of `t` that holds `x`, with `o` the other
      child, and how far it is from `x`. */
  lemma ReachSplit(t: Tree, x: nat, c: Tree, o: Tree, y: nat)
    requires Unique(t) && t.Node? && x in Ids(c)
    requires (c == t.left && o == t.right) || (c == t.right && o == t.left)
    ensures y in Ids(c) ==> y !in Ids(o) && y != t.id && Dist(t, x, y) == Dist(c, x, y)
    ensures y == t.id ==> y !in Ids(c) && y !in Ids(o) && Dist(t, x, y) == Depth(c, x) + 1
    ensures y in Ids(o) ==> y !in Ids(c) && y != t.id && Dist(t, x, y) == Depth(c, x) + 1 + Depth(o, y) + 1
    ensures y !in Ids(t) ==> y !in Ids(c) && y !in Ids(o)
  {
    SplitInside(t, x, c, o, y);
    SplitParent(t, x, c, o, y);
    SplitAcross(t, x, c, o, y);
    SplitOutside(t, x, c, o, y);
  }

  lemma SplitInside(t: Tree, x: nat, c: Tree, o: Tree, y: nat)
    requires Unique(t) && t.Node? && x in Ids(c)
    requires (c == t.left && o == t.right) || (c == t.right && o == t.left)
    ensures y in Ids(c) ==> y !in Ids(o) && y != t.id && Dist(t, x, y) == Dist(c, x, y)
  {
    DepthChild(t, x);
    DepthChild(t, y);
  }

  lemma SplitParent(t: Tree, x: nat, c: Tree, o: Tree, y: nat)
    requires Unique(t) && t.Node? && x in Ids(c)
    requires (c == t.left && o == t.right) || (c == t.right && o == t.left)
    ensures y == t.id ==> y !in Ids(c) && y !in Ids(o) && Dist(t, x, y) == Depth(c, x) + 1
  {
    DepthChild(t, x);
    DepthChild(t, y);
  }

  lemma SplitAcross(t: Tree, x: nat, c: Tree, o: Tree, y: nat)
    requires Unique(t) && t.Node? && x in Ids(c)
    requires (c == t.left && o == t.right) || (c == t.right && o == t.left)
    ensures y in Ids(o) ==> y !in Ids(c) && y != t.id && Dist(t, x, y) == Depth(c, x) + 1 + Depth(o, y) + 1
  {
    DepthChild(t, x);
    DepthChild(t, y);
  }

  lemma SplitOutside(t: Tree, x: nat, c: Tree, o: Tree, y: nat)
    requires Unique(t) && t.Node? && x in Ids(c)
    requires (c == t.left && o == t.right) || (c == t.right && o == t.left)
    ensures y !in Ids(t) ==> y !in Ids(c) && y !in Ids(o)
  {
  }

  /** `k as usize` for an `i32`: a negative `k` wraps to a huge distance nothing lies at. */
  function AsUsize(k: int): nat
    requires I32Min <= k <= I32Max
  {
    if k >= 0 then k else k + 0x1_0000_0000_0000_0000
  }

  /** An entry of the downward search: a node of `t` and its distance from the target, never
      beyond `k`. */
  ghost predicate Entry(t: Tree, k: nat, e: (Tree, nat))
  {
    e.0.Node? && e.0.id in Ids(t) && Find(t, e.0.id) == e.0 && e.1 <= k
  }

  /** The ids the stack's entries will report: for each, its level at the remaining distance. */
  function Levels(stack: seq<(Tree, nat)>, k: nat): multiset<nat>
  {
    if |stack| == 0 then multiset{}
    else
      var e := stack[|stack| - 1];
      Levels(stack[..|stack| - 1], k) + (if e.1 <= k then Level(e.0, k - e.1) else multiset{})
  }

  lemma LevelsPush(stack: seq<(Tree, nat)>, e: (Tree, nat), k: nat)
    ensures Levels(stack + [e], k) == Levels(stack, k) + (if e.1 <= k then Level(e.0, k - e.1) else multiset{})
  {
    assert (stack + [e])[..|stack|] == stack;
  }

  lemma DownStep(path: seq<Tree>, k: nat, i: nat)
    requires i + 1 < |path|
    ensures Down(path[..i + 2], k) ==
            Down(path[..i + 1], k) + (if i + 2 <= k then Level(Sibling(path[i], path[i + 1]), k - i - 2) else multiset{})
  {
    assert path[..i + 2][..i + 1] == path[..i + 1];
  }

  /** Steps up beyond distance `k - 1` add no sibling level. */
  /** Steps up the path beyond `k` add nothing to `Down`. */
  lemma {:induction false} DownTail(path: seq<Tree>, k: nat, n: nat)
    requires 1 <= k <= n <= |path|
    ensures Down(path[..n], k) == Down(path[..k], k)
    decreases n
  {
    if n > k {
      assert path[..n][..n - 1] == path[..n - 1];
      DownTail(path, k, n - 1);
    }
  }

  /** The windows loop stops after `k - 1` steps or at the root, and either way it has
      gathered all of `Down`. */
  lemma DownAll(path: seq<Tree>, k: nat, i: nat)
    requires k >= 1 && (i + 1 == |path| || (i + 1 == k && k < |path|))
    ensures Down(path[..i + 1], k) == Down(path, k)
  {
    if i + 1 < |path| {
      DownTail(path, k, |path|);
    }
    assert path[..|path|] == path;
  }

  ghost predicate Entries(t: Tree, k: nat, stack: seq<(Tree, nat)>)
  {
    forall j :: 0 <= j < |stack| ==> Entry(t, k, stack[j])
  }

  lemma EntriesPush(t: Tree, k: nat, stack: seq<(Tree, nat)>, e: (Tree, nat))
    requires Entries(t, k, stack) && Entry(t, k, e)
    ensures Entries(t, k, stack + [e])
  {
  }

  lemma EntriesPop(t: Tree, k: nat, stack: seq<(Tree, nat)>)
    requires Entries(t, k, stack) && |stack| > 0
    ensures Entries(t, k, stack[..|stack| - 1]) && Entry(t, k, stack[|stack| - 1])
  {
  }

  /** Each reported value is the value of the node `found` names. */
  ghost predicate Reported(t: Tree, r: seq<int>, found: seq<nat>)
  {
    |r| == |found| && forall j :: 0 <= j < |r| ==> found[j] in Ids(t) && r[j] == Find(t, found[j]).val
  }

  lemma ReportedPush(t: Tree, r: seq<int>, found: seq<nat>, node: Tree)
    requires Reported(t, r, found) && node.Node? && node.id in Ids(t) && Find(t, node.id) == node
    ensures Reported(t, r + [node.val], found + [node.id])
  {
  }

  /** A non-empty chain of nodes of `t`, each the subtree found under its own id. */
  ghost predicate Climbs(t: Tree, path: seq<Tree>)
  {
    |path| >= 1 && forall j :: 0 <= j < |path| ==> path[j].Node? && path[j].id in Ids(t) && Find(t, path[j].id) == path[j]
  }

  lemma PathClimbs(t: Tree, x: nat)
    requires Unique(t) && x in Ids(t)
    ensures Climbs(t, PathTo(t, x))
  {
    PathFind(t, x);
    PathShape(t, x);
  }

  /** One step up the path (one window of lines 97-107): the child off the path is pushed
      when the parent has two children. */
  method Window(root: Tree, path: seq<Tree>, k: nat, i: nat, stack: seq<(Tree, nat)>)
    returns (i': nat, stack': seq<(Tree, nat)>)
    requires Unique(root) && Climbs(root, path) && k >= 1
    requires i < k - 1 && i < |path| - 1
    requires Entries(root, k, stack) && Levels(stack, k) == Down(path[..i + 1], k)
    ensures i' == i + 1 && Entries(root, k, stack') && Levels(stack', k) == Down(path[..i' + 1], k)
  {
    var child, parent := path[i], path[i + 1];
    stack' := stack;
    if parent.left.Node? && parent.right.Node? {
      var other := Sibling(child, parent);
      ChildFind(root, parent.id, other);
      EntriesPush(root, k, stack, (other, i + 2));
      stack' := stack + [(other, i + 2)];
    }
    WindowLevels(path, k, i, stack, stack');
    i' := i + 1;
  }

  /** The levels a window step adds are those `Down` gains from one more step up the path. */
  lemma WindowLevels(path: seq<Tree>, k: nat, i: nat, stack: seq<(Tree, nat)>, stack': seq<(Tree, nat)>)
    requires i + 2 <= k && i + 1 < |path| && Levels(stack, k) == Down(path[..i + 1], k)
    requires var other := Sibling(path[i], path[i + 1]);
      stack' == if other.Node? then stack + [(other, i + 2)] else stack
    ensures Levels(stack', k) == Down(path[..i + 2], k)
  {
    DownStep(path, k, i);
    var other := Sibling(path[i], path[i + 1]);
    if other.Node? {
      LevelsPush(stack, (other, i + 2), k);
    }
  }

  /** The stack before the downward search (lines 95-108): the target at distance 0, then for
      each of the first `k - 1` steps up the path whose parent has two children, the child
      off the path at distance `i + 2`. */
  method Siblings(root: Tree, path: seq<Tree>, k: nat) returns (stack: seq<(Tree, nat)>)
    requires Unique(root) && Climbs(root, path) && k >= 1
    ensures Entries(root, k, stack) && Levels(stack, k) == Down(path, k)
  {
    stack := [(path[0], 0)];
    LevelsPush([], (path[0], 0), k);
    assert path[..1] == [path[0]];
    var windows := Min(k - 1, |path| - 1);
    var i := 0;
    while i < windows
      invariant 0 <= i <= windows
      invariant Entries(root, k, stack) && Levels(stack, k) == Down(path[..i + 1], k)
    {
      i, stack := Window(root, path, k, i, stack);
    }
    DownAll(path, k, i);
  }

  /** One entry of the downward search (one pass of lines 110-122): at distance `k` it is
      reported, otherwise its children are pushed one step further. */
  method Visit(root: Tree, k: nat, stack: seq<(Tree, nat)>, r: seq<int>, ghost found: seq<nat>)
    returns (stack': seq<(Tree, nat)>, r': seq<int>, ghost found': seq<nat>)
    requires Unique(root) && Entries(root, k, stack) && |stack| > 0 && Reported(root, r, found)
    ensures Entries(root, k, stack') && Reported(root, r', found')
    ensures multiset(found') + Levels(stack', k) == multiset(found) + Levels(stack, k)
    ensures Weight(stack') < Weight(stack)
  {
    EntriesPop(root, k, stack);
    var top := stack[|stack| - 1];
    var node, distance := top.0, top.1;
    stack' := stack[..|stack| - 1];
    assert Weight(stack) == Weight(stack') + Size(node);
    assert Levels(stack, k) == Levels(stack', k) + Level(node, k - distance);
    r', found' := r, found;
    if distance == k {
      ReportedPush(root, r, found, node);
      r', found' := r + [node.val], found + [node.id];
    } else {
      Expand(root, k, stack', node, distance);
      stack' := stack' + Kids(node, distance);
    }
  }

  /** The entries pushed for a node short of distance `k`: its present children, left first,
      one step further. */
  function Kids(node: Tree, distance: nat): seq<(Tree, nat)>
    requires node.Node?
  {
    var l, r := (node.left, distance + 1), (node.right, distance + 1);
    if node.left.Node? && node.right.Node? then [l, r]
    else if node.left.Node? then [l]
    else if node.right.Node? then [r]
    else []
  }

  lemma Expand(root: Tree, k: nat, rest: seq<(Tree, nat)>, node: Tree, distance: nat)
    requires Unique(root) && Entries(root, k, rest) && Entry(root, k, (node, distance)) && distance < k
    ensures Entries(root, k, rest + Kids(node, distance))
    ensures Levels(rest + Kids(node, distance), k) == Levels(rest, k) + Level(node, k - distance)
    ensures Weight(rest + Kids(node, distance)) < Weight(rest) + Size(node)
  {
    ExpandLevels(k, rest, node, distance);
    ExpandEntries(root, k, rest, node, distance);
  }

  lemma ExpandLevels(k: nat, rest: seq<(Tree, nat)>, node: Tree, distance: nat)
    requires node.Node? && distance < k
    ensures Levels(rest + Kids(node, distance), k) == Levels(rest, k) + Level(node, k - distance)
    ensures Weight(rest + Kids(node, distance)) < Weight(rest) + Size(node)
  {
    var kids := Kids(node, distance);
    LevelsAppend(rest, kids, k);
    WeightAppend(rest, kids);
    KidsLevels(node, distance, k);
    KidsWeight(node, distance);
  }

  lemma {:induction false} LevelsAppend(a: seq<(Tree, nat)>, b: seq<(Tree, nat)>, k: nat)
    ensures Levels(a + b, k) == Levels(a, k) + Levels(b, k)
    decreases |b|
  {
    if |b| > 0 {
      var e := b[|b| - 1];
      assert (a + b)[..|a + b| - 1] == a + b[..|b| - 1];
      LevelsAppend(a, b[..|b| - 1], k);
    } else {
      assert a + b == a;
    }
  }

  lemma {:induction false} WeightAppend<T>(a: seq<(Tree, T)>, b: seq<(Tree, T)>)
    ensures Weight(a + b) == Weight(a) + Weight(b)
    decreases |b|
  {
    if |b| > 0 {
      assert (a + b)[..|a + b| - 1] == a + b[..|b| - 1];
      WeightAppend(a, b[..|b| - 1]);
    } else {
      assert a + b == a;
    }
  }

  /** The contribution of one stack entry to `Levels`. */
  function Part(e: (Tree, nat), k: nat): multiset<nat>
  {
    if e.1 <= k then Level(e.0, k - e.1) else multiset{}
  }

  lemma One(a: (Tree, nat), k: nat)
    ensures Weight([a]) == Size(a.0) && Levels([a], k) == Part(a, k)
  {
    assert [a][..0] == [];
  }

  lemma Two(a: (Tree, nat), b: (Tree, nat), k: nat)
    ensures Weight([a, b]) == Size(a.0) + Size(b.0) && Levels([a, b], k) == Part(a, k) + Part(b, k)
  {
    assert [a, b][..1] == [a];
    One(a, k);
  }

  lemma KidsLevels(node: Tree, distance: nat, k: nat)
    requires node.Node? && distance < k
    ensures Levels(Kids(node, distance), k) == Level(node, k - distance)
  {
    var l, r := (node.left, distance + 1), (node.right, distance + 1);
    var m := k - distance;
    var a, b := Level(node.left, m - 1), Level(node.right, m - 1);
    assert Level(node, m) == a + b;
    assert Part(l, k) == a && Part(r, k) == b;
    if node.left.Node? && node.right.Node? {
      Two(l, r, k);
    } else if node.left.Node? {
      assert b == multiset{};
      One(l, k);
    } else if node.right.Node? {
      assert a == multiset{};
      One(r, k);
    } else {
      assert a == multiset{} && b == multiset{};
    }
  }

  lemma KidsWeight(node: Tree, distance: nat)
    requires node.Node?
    ensures Weight(Kids(node, distance)) + 1 == Size(node)
  {
    var l, r := (node.left, distance + 1), (node.right, distance + 1);
    if node.left.Node? && node.right.Node? {
      Two(l, r, 0);
    } else if node.left.Node? {
      One(l, 0);
    } else if node.right.Node? {
      One(r, 0);
    }
  }

  lemma ExpandEntries(root: Tree, k: nat, rest: seq<(Tree, nat)>, node: Tree, distance: nat)
    requires Unique(root) && Entries(root, k, rest) && Entry(root, k, (node, distance)) && distance < k
    ensures Entries(root, k, rest + Kids(node, distance))
  {
    if node.left.Node? {
      ChildFind(root, node.id, node.left);
    }
    if node.right.Node? {
      ChildFind(root, node.id, node.right);
    }
  }

  /** The downward search (lines 110-122), run until the stack is empty. */
  method Collect(root: Tree, stack0: seq<(Tree, nat)>, k: nat, r0: seq<int>, ghost found0: seq<nat>)
    returns (r: seq<int>, ghost found: seq<nat>)
    requires Unique(root) && Entries(root, k, stack0) && Reported(root, r0, found0)
    ensures Reported(root, r, found)
    ensures multiset(found) == multiset(found0) + Levels(stack0, k)
  {
    var stack := stack0;
    r, found := r0, found0;
    while |stack| > 0
      invariant Entries(root, k, stack) && Reported(root, r, found)
      invariant multiset(found) + Levels(stack, k) == multiset(found0) + Levels(stack0, k)
      decreases Weight(stack)
    {
      stack, r, found := Visit(root, k, stack, r, found);
    }
  }

  /** `distance_k` (lines 77-129). A missing root or target gives nothing; `k == 0` gives the
      target's value alone, whether or not it is in the tree; a target outside the tree gives
      nothing; otherwise the values of exactly the nodes at distance `k` from the target, each
      once, with `found` naming which node each value came from. */
  method DistanceK(root: Tree, target: Tree, k: int) returns (r: seq<int>, ghost found: seq<nat>)
    requires I32Min <= k <= I32Max && Unique(root)
    requires target.Node? && target.id in Ids(root) ==> Find(root, target.id) == target
    ensures root.Nil? || target.Nil? ==> r == []
    ensures root.Node? && target.Node? && k == 0 ==> r == [target.val]
    ensures root.Node? && target.Node? && k != 0 && target.id !in Ids(root) ==> r == []
    ensures root.Node? && target.Node? && k != 0 && target.id in Ids(root) ==>
      Reported(root, r, found) &&
      forall y :: multiset(found)[y] == if y in Ids(root) && Dist(root, target.id, y) == AsUsize(k) then 1 else 0
  {
    if root.Nil? || target.Nil? {
      return [], [];
    }
    if k == 0 {
      return [target.val], [target.id];
    }
    var traced := TracePath(root, target.id);
    if traced.None? {
      return [], [];
    }
    var path := traced.value;
    var kk := AsUsize(k);
    PathShape(root, target.id);
    PathFind(root, target.id);
    r, found := [], [];
    if |path| > kk {
      r, found := [path[kk].val], [path[kk].id];
    }
    PathClimbs(root, target.id);
    var stack := Siblings(root, path, kk);
    r, found := Collect(root, stack, kk, r, found);
    assert multiset(found) == Anc(path, kk) + Down(path, kk);
    Reach(root, target.id, kk);
  }
}
