/**
 * The nodes of the threaded red-black tree (src/RBNode.js), as values.
 *
 * A node stands for an arc or a circle event and is named by a natural-number id.
 * Its colour and its two children are the fields of `Tree`.  The `parent` pointers
 * are represented by a zipper context `Ctx`: the path from a node up to the root,
 * each frame holding the parent with the other child.  Re-plugging a subtree into
 * its context (`Plug`) gives the whole tree, which is what the source reaches by
 * following `parent` pointers.  The `previous`/`next` thread lives in the tree
 * object (module RBTrees).
 */
module RBNodes {
  import opened Wrappers

  datatype Tree = Nil | Node(red: bool, left: Tree, id: nat, right: Tree)

  /** The path from a subtree to the root; the hole is the left or the right child of the frame. */
  datatype Ctx =
    | Top
    | LeftOf(red: bool, id: nat, right: Tree, up: Ctx)
    | RightOf(red: bool, left: Tree, id: nat, up: Ctx)

  /** The in-order sequence of ids: the order the tree stands for. */
  function InOrder(t: Tree): seq<nat>
  {
    match t
    case Nil => []
    case Node(_, l, k, r) => InOrder(l) + [k] + InOrder(r)
  }

  /** The (id, colour) pairs of a tree. */
  function Colors(t: Tree): set<(nat, bool)>
  {
    match t
    case Nil => {}
    case Node(c, l, k, r) => Colors(l) + {(k, c)} + Colors(r)
  }

  predicate Distinct(s: seq<nat>)
  {
    forall i, j :: 0 <= i < j < |s| ==> s[i] != s[j]
  }

  function IndexOf(s: seq<nat>, x: nat): (k: nat)
    requires x in s
    ensures k < |s| && s[k] == x
    ensures forall j :: 0 <= j < k ==> s[j] != x
  {
    if s[0] == x then 0 else 1 + IndexOf(s[1..], x)
  }

  lemma DistinctIndex(s: seq<nat>, k: nat)
    requires Distinct(s) && k < |s|
    ensures IndexOf(s, s[k]) == k
  {
  }

  function Depth(c: Ctx): nat
  {
    match c
    case Top => 0
    case LeftOf(_, _, _, up) => 1 + Depth(up)
    case RightOf(_, _, _, up) => 1 + Depth(up)
  }

  /** The subtree rooted at the frame `c`, with `t` in its hole. */
  function PlugOne(c: Ctx, t: Tree): (u: Tree)
    requires c != Top
    ensures u.Node? && u.id == c.id && u.red == c.red
  {
    match c
    case LeftOf(red, k, r, _) => Node(red, t, k, r)
    case RightOf(red, l, k, _) => Node(red, l, k, t)
  }

  /** The whole tree: `t` re-attached to every ancestor up to the root. */
  function Plug(c: Ctx, t: Tree): Tree
    decreases c
  {
    match c
    case Top => t
    case LeftOf(red, k, r, up) => Plug(up, Node(red, t, k, r))
    case RightOf(red, l, k, up) => Plug(up, Node(red, l, k, t))
  }

  /** The ids that come before the hole in in-order. */
  function Before(c: Ctx): seq<nat>
  {
    match c
    case Top => []
    case LeftOf(_, _, _, up) => Before(up)
    case RightOf(_, l, k, up) => Before(up) + InOrder(l) + [k]
  }

  /** The ids that come after the hole in in-order. */
  function After(c: Ctx): seq<nat>
  {
    match c
    case Top => []
    case LeftOf(_, k, r, up) => [k] + InOrder(r) + After(up)
    case RightOf(_, _, _, up) => After(up)
  }

  lemma {:induction false} PlugInOrder(c: Ctx, t: Tree)
    ensures InOrder(Plug(c, t)) == Before(c) + InOrder(t) + After(c)
    decreases c
  {
    match c
    case Top =>
    case LeftOf(red, k, r, up) => PlugInOrder(up, Node(red, t, k, r));
    case RightOf(red, l, k, up) => PlugInOrder(up, Node(red, l, k, t));
  }

  /** Two subtrees with the same in-order sequence give, plugged into one context, the same sequence. */
  lemma PlugSameInOrder(c: Ctx, t: Tree, u: Tree)
    requires InOrder(t) == InOrder(u)
    ensures InOrder(Plug(c, t)) == InOrder(Plug(c, u))
  {
    PlugInOrder(c, t);
    PlugInOrder(c, u);
  }

  /** `inner`, a path inside a subtree, continued by `outer`, the path of that subtree. */
  function Compose(inner: Ctx, outer: Ctx): (c: Ctx)
    ensures Depth(c) == Depth(inner) + Depth(outer)
  {
    match inner
    case Top => outer
    case LeftOf(red, k, r, up) => LeftOf(red, k, r, Compose(up, outer))
    case RightOf(red, l, k, up) => RightOf(red, l, k, Compose(up, outer))
  }

  lemma {:induction false} PlugCompose(inner: Ctx, outer: Ctx, t: Tree)
    ensures Plug(Compose(inner, outer), t) == Plug(outer, Plug(inner, t))
    decreases inner
  {
    match inner
    case Top =>
    case LeftOf(red, k, r, up) => PlugCompose(up, outer, Node(red, t, k, r));
    case RightOf(red, l, k, up) => PlugCompose(up, outer, Node(red, l, k, t));
  }

  /** The root of a plugged tree is the outermost frame whenever there is a frame. */
  lemma {:induction false} PlugRoot(c: Ctx, t: Tree, u: Tree)
    requires c != Top
    ensures Plug(c, t).Node? && Plug(c, u).Node?
    ensures Plug(c, t).red == Plug(c, u).red && Plug(c, t).id == Plug(c, u).id
    decreases c
  {
    match c
    case LeftOf(red, k, r, up) =>
      if up != Top { PlugRoot(up, Node(red, t, k, r), Node(red, u, k, r)); }
    case RightOf(red, l, k, up) =>
      if up != Top { PlugRoot(up, Node(red, l, k, t), Node(red, l, k, u)); }
  }

  /** The id of the root of a plugged tree with a frame is an ancestor, so it is not inside the hole. */
  lemma RootOutsideHole(c: Ctx, t: Tree)
    requires c != Top
    ensures Plug(c, t).Node? && Plug(c, t).id in Before(c) + After(c)
    decreases c
  {
    PlugRoot(c, t, t);
    match c
    case LeftOf(red, k, r, up) =>
      if up != Top {
        RootOutsideHole(up, Node(red, t, k, r));
        PlugRoot(up, Node(red, t, k, r), Nil);
        PlugRoot(up, Nil, Node(red, t, k, r));
        PlugInOrder(up, Nil);
      }
    case RightOf(red, l, k, up) =>
      if up != Top {
        RootOutsideHole(up, Node(red, l, k, t));
        PlugRoot(up, Node(red, l, k, t), Nil);
      }
  }

  /** RBNode.rotateLeft: the right child takes the node's place and the node becomes its left child. */
  function RotateLeft(t: Tree): (u: Tree)
    requires t.Node? && t.right.Node?
    ensures u.Node? && u.id == t.right.id && u.left.Node? && u.left.id == t.id
    ensures u.left.left == t.left && u.left.right == t.right.left && u.right == t.right.right
    ensures InOrder(u) == InOrder(t)
    ensures Colors(u) == Colors(t)
  {
    Node(t.right.red, Node(t.red, t.left, t.id, t.right.left), t.right.id, t.right.right)
  }

  /** RBNode.rotateRight: the mirror image of RotateLeft. */
  function RotateRight(t: Tree): (u: Tree)
    requires t.Node? && t.left.Node?
    ensures u.Node? && u.id == t.left.id && u.right.Node? && u.right.id == t.id
    ensures u.right.right == t.right && u.right.left == t.left.right && u.left == t.left.left
    ensures InOrder(u) == InOrder(t)
    ensures Colors(u) == Colors(t)
  {
    Node(t.left.red, t.left.left, t.left.id, Node(t.red, t.left.right, t.id, t.right))
  }

  lemma RotationsInverse(t: Tree)
    requires t.Node? && t.right.Node?
    ensures RotateRight(RotateLeft(t)) == t
  {
  }

  /**
   * RBTree.rotateLeft: rotates the node at the focus of a zipper and gives the new root.
   * The root changes to the promoted child exactly when the rotated node had no parent.
   */
  function RotateLeftAt(c: Ctx, t: Tree): (root: Tree)
    requires t.Node? && t.right.Node?
    requires Distinct(InOrder(Plug(c, t)))
    ensures InOrder(root) == InOrder(Plug(c, t))
    ensures root.Node? && (root.id == t.right.id <==> c == Top)
  {
    PlugSameInOrder(c, RotateLeft(t), t);
    PromotedIsRoot(c, t, RotateLeft(t), t.right.id);
    Plug(c, RotateLeft(t))
  }

  /** RBTree.rotateRight: the mirror image of RotateLeftAt. */
  function RotateRightAt(c: Ctx, t: Tree): (root: Tree)
    requires t.Node? && t.left.Node?
    requires Distinct(InOrder(Plug(c, t)))
    ensures InOrder(root) == InOrder(Plug(c, t))
    ensures root.Node? && (root.id == t.left.id <==> c == Top)
  {
    PlugSameInOrder(c, RotateRight(t), t);
    PromotedIsRoot(c, t, RotateRight(t), t.left.id);
    Plug(c, RotateRight(t))
  }

  lemma PromotedIsRoot(c: Ctx, t: Tree, u: Tree, k: nat)
    requires u.Node? && u.id == k && k in InOrder(t) && InOrder(u) == InOrder(t)
    requires Distinct(InOrder(Plug(c, t)))
    ensures Plug(c, u).Node? && (Plug(c, u).id == k <==> c == Top)
  {
    if c != Top {
      RootOutsideHole(c, u);
      PlugInOrder(c, t);
      DistinctMiddle(Before(c), InOrder(t), After(c));
    }
  }

  /** In a sequence without repetitions, the middle part shares no element with the rest. */
  lemma DistinctMiddle(b: seq<nat>, m: seq<nat>, a: seq<nat>)
    requires Distinct(b + m + a)
    ensures forall x :: x in m ==> x !in b + a
  {
    var s := b + m + a;
    forall x | x in m
      ensures x !in b + a
    {
      var i :| 0 <= i < |m| && m[i] == x;
      assert s[|b| + i] == x;
      forall j | 0 <= j < |b|
        ensures b[j] != x
      {
        assert s[j] == b[j];
      }
      forall j | 0 <= j < |a|
        ensures a[j] != x
      {
        assert s[|b| + |m| + j] == a[j];
      }
    }
  }

  /** RBNode.getFirst: follows `left` from a node down to the first node of its subtree. */
  method GetFirst(t: Tree) returns (c: Ctx, first: Tree)
    requires t.Node?
    ensures first.Node? && first.left == Nil
    ensures Plug(c, first) == t && Before(c) == []
    ensures InOrder(t)[0] == first.id
  {
    c, first := Top, t;
    while first.left != Nil
      invariant first.Node? && Plug(c, first) == t && Before(c) == []
      decreases first
    {
      c := LeftOf(first.red, first.id, first.right, c);
      first := first.left;
    }
    PlugInOrder(c, first);
  }

  /** RBNode.getLast: follows `right` from a node down to the last node of its subtree. */
  method GetLast(t: Tree) returns (c: Ctx, last: Tree)
    requires t.Node?
    ensures last.Node? && last.right == Nil
    ensures Plug(c, last) == t && After(c) == []
    ensures InOrder(t)[|InOrder(t)| - 1] == last.id
  {
    c, last := Top, t;
    while last.right != Nil
      invariant last.Node? && Plug(c, last) == t && After(c) == []
      decreases last
    {
      c := RightOf(last.red, last.left, last.id, c);
      last := last.right;
    }
    PlugInOrder(c, last);
  }

  /** RBNode.getRoot: follows `parent` from a node up to the node that has no parent. */
  method GetRoot(c: Ctx, t: Tree) returns (root: Tree)
    ensures root == Plug(c, t)
    ensures InOrder(root) == Before(c) + InOrder(t) + After(c)
  {
    var cur, node := c, t;
    while cur != Top
      invariant Plug(cur, node) == Plug(c, t)
      decreases cur
    {
      node := PlugOne(cur, node);
      cur := cur.up;
    }
    root := node;
    PlugInOrder(c, t);
  }

  /** The zipper of the node with id `k` inside `t`, whose own context is `c`: what a pointer to that node gives. */
  function Find(c: Ctx, t: Tree, k: nat): (r: Option<(Ctx, Tree)>)
    ensures r.Some? ==> Plug(r.value.0, r.value.1) == Plug(c, t) && r.value.1.Node? && r.value.1.id == k
    ensures k in InOrder(t) ==> r.Some?
    decreases t
  {
    match t
    case Nil => None
    case Node(red, l, id, right) =>
      if id == k then Some((c, t))
      else
        match Find(LeftOf(red, id, right, c), l, k)
        case Some(z) => Some(z)
        case None => Find(RightOf(red, l, id, c), right, k)
  }
}
