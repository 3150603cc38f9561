/**
 * The red-black rules of src/RBTree.js and the two fix-up loops that restore them:
 * the one that ends RBTree.insertSuccessor and the one that ends RBTree.removeNode.
 *
 * A `null` child is a black leaf.  Each loop walks a zipper (focus subtree and the
 * path to the root) exactly as the source walks `node`/`parent` pointers.
 */
module RBBalance {
  import opened RBNodes

  predicate IsRed(t: Tree)
  {
    t.Node? && t.red
  }

  function Blacken(t: Tree): (u: Tree)
    ensures !IsRed(u) && InOrder(u) == InOrder(t)
    ensures Balanced(u) == Balanced(t)
    ensures NoRedRed(t) ==> NoRedRed(u)
    ensures BlackHeight(u) == BlackHeight(t) + if IsRed(t) then 1 else 0
  {
    if t.Nil? then Nil else t.(red := false)
  }

  /** Black nodes on the leftmost path; equal on every path once `Balanced` holds. */
  function BlackHeight(t: Tree): nat
  {
    match t
    case Nil => 0
    case Node(red, l, _, _) => BlackHeight(l) + (if red then 0 else 1)
  }

  /** Every path from the root to a leaf crosses the same number of black nodes. */
  predicate Balanced(t: Tree)
  {
    match t
    case Nil => true
    case Node(_, l, _, r) => Balanced(l) && Balanced(r) && BlackHeight(l) == BlackHeight(r)
  }

  /** A red node has no red child. */
  predicate NoRedRed(t: Tree)
  {
    match t
    case Nil => true
    case Node(red, l, _, r) => NoRedRed(l) && NoRedRed(r) && (red ==> !IsRed(l) && !IsRed(r))
  }

  /** The red-black rules, including a black root (the last statement of both source operations). */
  predicate IsRB(t: Tree)
  {
    Balanced(t) && NoRedRed(t) && !IsRed(t)
  }

  predicate FrameRed(c: Ctx)
  {
    c != Top && c.red
  }

  /** Every sibling along the path is balanced and has black height `h`, counted from the hole upwards. */
  predicate CtxBalanced(c: Ctx, h: nat)
  {
    match c
    case Top => true
    case LeftOf(red, _, r, up) =>
      Balanced(r) && BlackHeight(r) == h && CtxBalanced(up, h + if red then 0 else 1)
    case RightOf(red, l, _, up) =>
      Balanced(l) && BlackHeight(l) == h && CtxBalanced(up, h + if red then 0 else 1)
  }

  /** No red-red pair along the path, the hole itself left free. */
  predicate CtxNoRedRed(c: Ctx)
  {
    match c
    case Top => true
    case LeftOf(red, _, r, up) =>
      NoRedRed(r) && (red ==> !IsRed(r) && !FrameRed(up)) && CtxNoRedRed(up)
    case RightOf(red, l, _, up) =>
      NoRedRed(l) && (red ==> !IsRed(l) && !FrameRed(up)) && CtxNoRedRed(up)
  }

  /** The colour of the root of any tree plugged into `c`, when `c` has a frame. */
  predicate CtxRootRed(c: Ctx)
  {
    match c
    case Top => false
    case LeftOf(red, _, _, up) => if up == Top then red else CtxRootRed(up)
    case RightOf(red, _, _, up) => if up == Top then red else CtxRootRed(up)
  }

  lemma {:induction false} PlugRootRed(c: Ctx, t: Tree)
    requires c != Top
    ensures IsRed(Plug(c, t)) == CtxRootRed(c)
    decreases c
  {
    match c
    case LeftOf(red, k, r, up) =>
      if up != Top { PlugRootRed(up, Node(red, t, k, r)); }
    case RightOf(red, l, k, up) =>
      if up != Top { PlugRootRed(up, Node(red, l, k, t)); }
  }

  lemma {:induction false} PlugBalanced(c: Ctx, t: Tree)
    requires Balanced(t) && CtxBalanced(c, BlackHeight(t))
    ensures Balanced(Plug(c, t))
    decreases c
  {
    match c
    case Top =>
    case LeftOf(red, k, r, up) => PlugBalanced(up, Node(red, t, k, r));
    case RightOf(red, l, k, up) => PlugBalanced(up, Node(red, l, k, t));
  }

  lemma {:induction false} UnplugBalanced(c: Ctx, t: Tree)
    requires Balanced(Plug(c, t))
    ensures Balanced(t) && CtxBalanced(c, BlackHeight(t))
    decreases c
  {
    match c
    case Top =>
    case LeftOf(red, k, r, up) => UnplugBalanced(up, Node(red, t, k, r));
    case RightOf(red, l, k, up) => UnplugBalanced(up, Node(red, l, k, t));
  }

  lemma {:induction false} PlugNoRedRed(c: Ctx, t: Tree)
    requires NoRedRed(t) && CtxNoRedRed(c) && !(IsRed(t) && FrameRed(c))
    ensures NoRedRed(Plug(c, t))
    decreases c
  {
    match c
    case Top =>
    case LeftOf(red, k, r, up) => PlugNoRedRed(up, Node(red, t, k, r));
    case RightOf(red, l, k, up) => PlugNoRedRed(up, Node(red, l, k, t));
  }

  lemma {:induction false} UnplugNoRedRed(c: Ctx, t: Tree)
    requires NoRedRed(Plug(c, t))
    ensures NoRedRed(t) && CtxNoRedRed(c) && !(IsRed(t) && FrameRed(c))
    decreases c
  {
    match c
    case Top =>
    case LeftOf(red, k, r, up) => UnplugNoRedRed(up, Node(red, t, k, r));
    case RightOf(red, l, k, up) => UnplugNoRedRed(up, Node(red, l, k, t));
  }

  /** What holds at the head of the insertion loop: `t` is the red `node`, the only possible violation is with its parent. */
  predicate InsertInv(c: Ctx, t: Tree)
  {
    t.Node? && t.red && Balanced(t) && NoRedRed(t)
    && CtxBalanced(c, BlackHeight(t)) && CtxNoRedRed(c) && !CtxRootRed(c)
  }

  /** Red uncle on the right: parent and uncle turn black, grandparent red, and the grandparent becomes `node`. */
  lemma InsertRecolorLeft(c: Ctx, t: Tree)
    requires InsertInv(c, t) && FrameRed(c) && c.up.LeftOf? && IsRed(c.up.right)
    ensures InsertInv(c.up.up, Node(true, Blacken(PlugOne(c, t)), c.up.id, Blacken(c.up.right)))
    ensures InOrder(Plug(c.up.up, Node(true, Blacken(PlugOne(c, t)), c.up.id, Blacken(c.up.right))))
         == InOrder(Plug(c, t))
  {
    var g := c.up;
    assert CtxBalanced(g, BlackHeight(t)) && CtxNoRedRed(g) && !g.red;
    assert g.up != Top ==> CtxRootRed(g) == CtxRootRed(g.up);
    PlugSameInOrder(g.up, Node(true, Blacken(PlugOne(c, t)), g.id, Blacken(g.right)), PlugOne(g, PlugOne(c, t)));
  }

  /** Red uncle on the left: the mirror image of InsertRecolorLeft. */
  lemma InsertRecolorRight(c: Ctx, t: Tree)
    requires InsertInv(c, t) && FrameRed(c) && c.up.RightOf? && IsRed(c.up.left)
    ensures InsertInv(c.up.up, Node(true, Blacken(c.up.left), c.up.id, Blacken(PlugOne(c, t))))
    ensures InOrder(Plug(c.up.up, Node(true, Blacken(c.up.left), c.up.id, Blacken(PlugOne(c, t)))))
         == InOrder(Plug(c, t))
  {
    var g := c.up;
    assert CtxBalanced(g, BlackHeight(t)) && CtxNoRedRed(g) && !g.red;
    assert g.up != Top ==> CtxRootRed(g) == CtxRootRed(g.up);
    PlugSameInOrder(g.up, Node(true, Blacken(g.left), g.id, Blacken(PlugOne(c, t))), PlugOne(g, PlugOne(c, t)));
  }

  /** Black uncle, `node` a right child of a left child: rotating the parent left makes the parent the new `node`. */
  lemma InsertZigLeft(c: Ctx, t: Tree)
    requires InsertInv(c, t) && FrameRed(c) && c.RightOf? && c.up.LeftOf? && !IsRed(c.up.right)
    ensures var u := RotateLeft(PlugOne(c, t));
      var c' := LeftOf(u.red, u.id, u.right, c.up);
      InsertInv(c', u.left) && FrameRed(c') && InOrder(Plug(c', u.left)) == InOrder(Plug(c, t))
  {
    var u := RotateLeft(PlugOne(c, t));
    assert Plug(LeftOf(u.red, u.id, u.right, c.up), u.left) == Plug(c.up, u);
    PlugSameInOrder(c.up, u, PlugOne(c, t));
  }

  /** Black uncle, `node` a left child of a right child: the mirror image of InsertZigLeft. */
  lemma InsertZigRight(c: Ctx, t: Tree)
    requires InsertInv(c, t) && FrameRed(c) && c.LeftOf? && c.up.RightOf? && !IsRed(c.up.left)
    ensures var u := RotateRight(PlugOne(c, t));
      var c' := RightOf(u.red, u.left, u.id, c.up);
      InsertInv(c', u.right) && FrameRed(c') && InOrder(Plug(c', u.right)) == InOrder(Plug(c, t))
  {
    var u := RotateRight(PlugOne(c, t));
    assert Plug(RightOf(u.red, u.left, u.id, c.up), u.right) == Plug(c.up, u);
    PlugSameInOrder(c.up, u, PlugOne(c, t));
  }

  /** Black uncle, `node` a left child of a left child: the parent turns black, the grandparent red and rotates right. */
  lemma InsertZigZigLeft(c: Ctx, t: Tree)
    requires InsertInv(c, t) && FrameRed(c) && c.LeftOf? && c.up.LeftOf? && !IsRed(c.up.right)
    ensures var top := RotateRight(Node(true, Node(false, t, c.id, c.right), c.up.id, c.up.right));
      var c' := LeftOf(top.red, top.id, top.right, c.up.up);
      InsertInv(c', t) && !FrameRed(c') && InOrder(Plug(c', t)) == InOrder(Plug(c, t))
  {
    var g := c.up;
    assert CtxBalanced(g, BlackHeight(t)) && CtxNoRedRed(g) && !g.red;
    assert g.up != Top ==> CtxRootRed(g) == CtxRootRed(g.up);
    var top := RotateRight(Node(true, Node(false, t, c.id, c.right), g.id, g.right));
    assert Plug(LeftOf(top.red, top.id, top.right, g.up), t) == Plug(g.up, top);
    PlugSameInOrder(g.up, top, PlugOne(g, PlugOne(c, t)));
  }

  /** Black uncle, `node` a right child of a right child: the mirror image of InsertZigZigLeft. */
  lemma InsertZigZigRight(c: Ctx, t: Tree)
    requires InsertInv(c, t) && FrameRed(c) && c.RightOf? && c.up.RightOf? && !IsRed(c.up.left)
    ensures var top := RotateLeft(Node(true, c.up.left, c.up.id, Node(false, c.left, c.id, t)));
      var c' := RightOf(top.red, top.left, top.id, c.up.up);
      InsertInv(c', t) && !FrameRed(c') && InOrder(Plug(c', t)) == InOrder(Plug(c, t))
  {
    var g := c.up;
    assert CtxBalanced(g, BlackHeight(t)) && CtxNoRedRed(g) && !g.red;
    assert g.up != Top ==> CtxRootRed(g) == CtxRootRed(g.up);
    var top := RotateLeft(Node(true, g.left, g.id, Node(false, c.left, c.id, t)));
    assert Plug(RightOf(top.red, top.left, top.id, g.up), t) == Plug(g.up, top);
    PlugSameInOrder(g.up, top, PlugOne(g, PlugOne(c, t)));
  }

  /**
   * The loop of RBTree.insertSuccessor after the new red leaf is attached: recolour while
   * the uncle is red, otherwise rotate once or twice, then blacken the root.
   */
  method InsertFixup(c0: Ctx, id: nat) returns (root: Tree)
    requires IsRB(Plug(c0, Nil))
    ensures IsRB(root)
    ensures InOrder(root) == InOrder(Plug(c0, Node(true, Nil, id, Nil)))
  {
    var t0 := Node(true, Nil, id, Nil);
    UnplugBalanced(c0, Nil);
    UnplugNoRedRed(c0, Nil);
    if c0 != Top { PlugRootRed(c0, Nil); }
    var c, t := c0, t0;
    while FrameRed(c)
      invariant InsertInv(c, t)
      invariant InOrder(Plug(c, t)) == InOrder(Plug(c0, t0))
      decreases Depth(c)
    {
      if c.up == Top {
        assert false;
      }
      var parent, grandpa := c, c.up;
      assert Depth(c) == Depth(grandpa.up) + 2;
      if grandpa.LeftOf? {
        var uncle := grandpa.right;
        if IsRed(uncle) {
          InsertRecolorLeft(c, t);
          t, c := Node(true, Blacken(PlugOne(parent, t)), grandpa.id, Blacken(uncle)), grandpa.up;
        } else {
          if parent.RightOf? {
            InsertZigLeft(c, t);
            var rotated := RotateLeft(PlugOne(parent, t));
            t, parent := rotated.left, LeftOf(rotated.red, rotated.id, rotated.right, grandpa);
            c := parent;
          }
          InsertZigZigLeft(c, t);
          var top := RotateRight(Node(true, Node(false, t, parent.id, parent.right), grandpa.id, grandpa.right));
          c := LeftOf(top.red, top.id, top.right, grandpa.up);
        }
      } else {
        var uncle := grandpa.left;
        if IsRed(uncle) {
          InsertRecolorRight(c, t);
          t, c := Node(true, Blacken(uncle), grandpa.id, Blacken(PlugOne(parent, t))), grandpa.up;
        } else {
          if parent.LeftOf? {
            InsertZigRight(c, t);
            var rotated := RotateRight(PlugOne(parent, t));
            t, parent := rotated.right, RightOf(rotated.red, rotated.left, rotated.id, grandpa);
            c := parent;
          }
          InsertZigZigRight(c, t);
          var top := RotateLeft(Node(true, grandpa.left, grandpa.id, Node(false, parent.left, parent.id, t)));
          c := RightOf(top.red, top.left, top.id, grandpa.up);
        }
      }
    }
    PlugBalanced(c, t);
    PlugNoRedRed(c, t);
    root := Blacken(Plug(c, t));
  }

  /**
   * What holds at the head of the removal loop: the subtree `t` at `node` is one black
   * node short of its context, and is otherwise a red-black tree (a red `t` may still
   * have a red child; blackening it repairs both).
   */
  predicate RemoveInv(c: Ctx, t: Tree)
  {
    Balanced(t) && NoRedRed(Blacken(t))
    && CtxBalanced(c, BlackHeight(t) + 1) && CtxNoRedRed(c) && !CtxRootRed(c)
  }

  /** Red sibling on the right: sibling black, parent red, rotate the parent left; `node` keeps its parent. */
  lemma RemoveRedSiblingLeft(c: Ctx, t: Tree)
    requires RemoveInv(c, t) && !IsRed(t) && c.LeftOf? && IsRed(c.right)
    ensures var s := c.right;
      var c' := LeftOf(true, c.id, s.left, LeftOf(false, s.id, s.right, c.up));
      RemoveInv(c', t) && !IsRed(c'.right) && InOrder(Plug(c', t)) == InOrder(Plug(c, t))
  {
    var s := c.right;
    assert !c.red;
    assert c.up != Top ==> CtxRootRed(c) == CtxRootRed(c.up);
    var rotated := RotateLeft(Node(true, t, c.id, s.(red := false)));
    assert Plug(LeftOf(true, c.id, s.left, LeftOf(false, s.id, s.right, c.up)), t) == Plug(c.up, rotated);
    PlugSameInOrder(c.up, rotated, PlugOne(c, t));
  }

  /** Red sibling on the left: the mirror image of RemoveRedSiblingLeft. */
  lemma RemoveRedSiblingRight(c: Ctx, t: Tree)
    requires RemoveInv(c, t) && !IsRed(t) && c.RightOf? && IsRed(c.left)
    ensures var s := c.left;
      var c' := RightOf(true, s.right, c.id, RightOf(false, s.left, s.id, c.up));
      RemoveInv(c', t) && !IsRed(c'.left) && InOrder(Plug(c', t)) == InOrder(Plug(c, t))
  {
    var s := c.left;
    assert !c.red;
    assert c.up != Top ==> CtxRootRed(c) == CtxRootRed(c.up);
    var rotated := RotateRight(Node(true, s.(red := false), c.id, t));
    assert Plug(RightOf(true, s.right, c.id, RightOf(false, s.left, s.id, c.up)), t) == Plug(c.up, rotated);
    PlugSameInOrder(c.up, rotated, PlugOne(c, t));
  }

  /** Black sibling on the right whose only red child is its left one: rotate the sibling right. */
  lemma RemoveNephewLeft(c: Ctx, t: Tree)
    requires RemoveInv(c, t) && !IsRed(t) && c.LeftOf? && !IsRed(c.right)
    requires c.right.Node? && IsRed(c.right.left) && !IsRed(c.right.right)
    ensures var s := c.right;
      var s' := RotateRight(Node(true, Blacken(s.left), s.id, s.right));
      RemoveInv(c.(right := s'), t) && !s'.red && IsRed(s'.right)
      && InOrder(Plug(c.(right := s'), t)) == InOrder(Plug(c, t))
  {
    var s := c.right;
    var s' := RotateRight(Node(true, Blacken(s.left), s.id, s.right));
    assert NoRedRed(s.left) && !IsRed(s.left.right) && !IsRed(s.left.left);
    assert c.up != Top ==> CtxRootRed(c.(right := s')) == CtxRootRed(c);
    assert PlugOne(c.(right := s'), t) == Node(c.red, t, c.id, s');
    PlugSameInOrder(c.up, PlugOne(c.(right := s'), t), PlugOne(c, t));
  }

  /** Black sibling on the left whose only red child is its right one: the mirror image of RemoveNephewLeft. */
  lemma RemoveNephewRight(c: Ctx, t: Tree)
    requires RemoveInv(c, t) && !IsRed(t) && c.RightOf? && !IsRed(c.left)
    requires c.left.Node? && IsRed(c.left.right) && !IsRed(c.left.left)
    ensures var s := c.left;
      var s' := RotateLeft(Node(true, s.left, s.id, Blacken(s.right)));
      RemoveInv(c.(left := s'), t) && !s'.red && IsRed(s'.left)
      && InOrder(Plug(c.(left := s'), t)) == InOrder(Plug(c, t))
  {
    var s := c.left;
    var s' := RotateLeft(Node(true, s.left, s.id, Blacken(s.right)));
    assert NoRedRed(s.right) && !IsRed(s.right.right) && !IsRed(s.right.left);
    assert c.up != Top ==> CtxRootRed(c.(left := s')) == CtxRootRed(c);
    assert PlugOne(c.(left := s'), t) == Node(c.red, s', c.id, t);
    PlugSameInOrder(c.up, PlugOne(c.(left := s'), t), PlugOne(c, t));
  }

  /** The subtree RemoveFinishLeft rotates into place is red-black and fits its context. */
  lemma FinishLeftTop(c: Ctx, t: Tree)
    requires RemoveInv(c, t) && !IsRed(t) && c.LeftOf? && c.right.Node? && !c.right.red && IsRed(c.right.right)
    ensures var s := c.right;
      var top := RotateLeft(Node(false, t, c.id, Node(c.red, s.left, s.id, Blacken(s.right))));
      Balanced(top) && NoRedRed(top) && CtxBalanced(c.up, BlackHeight(top))
      && CtxNoRedRed(c.up) && !(IsRed(top) && FrameRed(c.up))
  {
    var s := c.right;
    var top := RotateLeft(Node(false, t, c.id, Node(c.red, s.left, s.id, Blacken(s.right))));
    assert Balanced(s) && BlackHeight(s) == BlackHeight(t) + 1;
    assert BlackHeight(s.left) == BlackHeight(t) == BlackHeight(s.right);
    assert top == Node(c.red, Node(false, t, c.id, s.left), s.id, Blacken(s.right));
    assert Balanced(Node(false, t, c.id, s.left));
    assert Balanced(top);
    assert BlackHeight(top) == BlackHeight(t) + 1 + if c.red then 0 else 1;
    assert CtxBalanced(c.up, BlackHeight(top));
  }

  /** Black sibling on the right with a red right child: one left rotation of the parent ends the repair. */
  lemma RemoveFinishLeft(c: Ctx, t: Tree)
    requires RemoveInv(c, t) && !IsRed(t) && c.LeftOf? && c.right.Node? && !c.right.red && IsRed(c.right.right)
    ensures var s := c.right;
      var root := Plug(c.up, RotateLeft(Node(false, t, c.id, Node(c.red, s.left, s.id, Blacken(s.right)))));
      RemoveInv(Top, root) && IsRB(Blacken(root)) && InOrder(root) == InOrder(Plug(c, t))
  {
    var s := c.right;
    var top := RotateLeft(Node(false, t, c.id, Node(c.red, s.left, s.id, Blacken(s.right))));
    FinishLeftTop(c, t);
    PlugBalanced(c.up, top);
    PlugNoRedRed(c.up, top);
    PlugSameInOrder(c.up, top, PlugOne(c, t));
  }

  /** The subtree RemoveFinishRight rotates into place is red-black and fits its context. */
  lemma FinishRightTop(c: Ctx, t: Tree)
    requires RemoveInv(c, t) && !IsRed(t) && c.RightOf? && c.left.Node? && !c.left.red && IsRed(c.left.left)
    ensures var s := c.left;
      var top := RotateRight(Node(false, Node(c.red, Blacken(s.left), s.id, s.right), c.id, t));
      Balanced(top) && NoRedRed(top) && CtxBalanced(c.up, BlackHeight(top))
      && CtxNoRedRed(c.up) && !(IsRed(top) && FrameRed(c.up))
  {
    var s := c.left;
    var top := RotateRight(Node(false, Node(c.red, Blacken(s.left), s.id, s.right), c.id, t));
    assert Balanced(s) && BlackHeight(s) == BlackHeight(t) + 1;
    assert BlackHeight(s.left) == BlackHeight(t) == BlackHeight(s.right);
    assert top == Node(c.red, Blacken(s.left), s.id, Node(false, s.right, c.id, t));
    assert Balanced(Node(false, s.right, c.id, t));
    assert Balanced(top);
    assert BlackHeight(top) == BlackHeight(t) + 1 + if c.red then 0 else 1;
    assert CtxBalanced(c.up, BlackHeight(top));
  }

  /** Black sibling on the left with a red left child: the mirror image of RemoveFinishLeft. */
  lemma RemoveFinishRight(c: Ctx, t: Tree)
    requires RemoveInv(c, t) && !IsRed(t) && c.RightOf? && c.left.Node? && !c.left.red && IsRed(c.left.left)
    ensures var s := c.left;
      var root := Plug(c.up, RotateRight(Node(false, Node(c.red, Blacken(s.left), s.id, s.right), c.id, t)));
      RemoveInv(Top, root) && IsRB(Blacken(root)) && InOrder(root) == InOrder(Plug(c, t))
  {
    var s := c.left;
    var top := RotateRight(Node(false, Node(c.red, Blacken(s.left), s.id, s.right), c.id, t));
    FinishRightTop(c, t);
    PlugBalanced(c.up, top);
    PlugNoRedRed(c.up, top);
    PlugSameInOrder(c.up, top, PlugOne(c, t));
  }

  /** Black sibling on the right with two black children: the sibling turns red and the parent becomes `node`. */
  lemma RemoveUpLeft(c: Ctx, t: Tree)
    requires RemoveInv(c, t) && !IsRed(t) && c.LeftOf? && c.right.Node? && !c.right.red
    requires !IsRed(c.right.left) && !IsRed(c.right.right)
    ensures RemoveInv(c.up, Node(c.red, t, c.id, c.right.(red := true)))
    ensures InOrder(Plug(c.up, Node(c.red, t, c.id, c.right.(red := true)))) == InOrder(Plug(c, t))
  {
    assert c.up != Top ==> CtxRootRed(c) == CtxRootRed(c.up);
    PlugSameInOrder(c.up, Node(c.red, t, c.id, c.right.(red := true)), PlugOne(c, t));
  }

  /** Black sibling on the left with two black children: the mirror image of RemoveUpLeft. */
  lemma RemoveUpRight(c: Ctx, t: Tree)
    requires RemoveInv(c, t) && !IsRed(t) && c.RightOf? && c.left.Node? && !c.left.red
    requires !IsRed(c.left.left) && !IsRed(c.left.right)
    ensures RemoveInv(c.up, Node(c.red, c.left.(red := true), c.id, t))
    ensures InOrder(Plug(c.up, Node(c.red, c.left.(red := true), c.id, t))) == InOrder(Plug(c, t))
  {
    assert c.up != Top ==> CtxRootRed(c) == CtxRootRed(c.up);
    PlugSameInOrder(c.up, Node(c.red, c.left.(red := true), c.id, t), PlugOne(c, t));
  }

  /**
   * The end of RBTree.removeNode once the removed node is spliced out: `t` is the subtree
   * that took the removed black node's place.  A red `t` is blackened at once (the second
   * easy case); otherwise the do-while loop moves the deficit up or removes it by rotations,
   * and the node it stops at is blackened.
   */
  method RemoveFixup(c0: Ctx, t0: Tree) returns (root: Tree)
    requires RemoveInv(c0, t0)
    ensures IsRB(root)
    ensures InOrder(root) == InOrder(Plug(c0, t0))
  {
    var c, t := c0, t0;
    while c != Top && !IsRed(t)
      invariant RemoveInv(c, t)
      invariant InOrder(Plug(c, t)) == InOrder(Plug(c0, t0))
      decreases 2 * Depth(c) + if IsRed(t) then 0 else 1
    {
      if c.LeftOf? {
        if IsRed(c.right) {
          RemoveRedSiblingLeft(c, t);
          var s := c.right;
          c := LeftOf(true, c.id, s.left, LeftOf(false, s.id, s.right, c.up));
        }
        var s := c.right;
        if IsRed(s.left) || IsRed(s.right) {
          if !IsRed(s.right) {
            RemoveNephewLeft(c, t);
            s := RotateRight(Node(true, Blacken(s.left), s.id, s.right));
            c := c.(right := s);
          }
          RemoveFinishLeft(c, t);
          t := Plug(c.up, RotateLeft(Node(false, t, c.id, Node(c.red, s.left, s.id, Blacken(s.right)))));
          c := Top;
        } else {
          RemoveUpLeft(c, t);
          t, c := Node(c.red, t, c.id, s.(red := true)), c.up;
        }
      } else {
        if IsRed(c.left) {
          RemoveRedSiblingRight(c, t);
          var s := c.left;
          c := RightOf(true, s.right, c.id, RightOf(false, s.left, s.id, c.up));
        }
        var s := c.left;
        if IsRed(s.left) || IsRed(s.right) {
          if !IsRed(s.left) {
            RemoveNephewRight(c, t);
            s := RotateLeft(Node(true, s.left, s.id, Blacken(s.right)));
            c := c.(left := s);
          }
          RemoveFinishRight(c, t);
          t := Plug(c.up, RotateRight(Node(false, Node(c.red, Blacken(s.left), s.id, s.right), c.id, t)));
          c := Top;
        } else {
          RemoveUpRight(c, t);
          t, c := Node(c.red, s.(red := true), c.id, t), c.up;
        }
      }
    }
    PlugBalanced(c, Blacken(t));
    PlugNoRedRed(c, Blacken(t));
    if c != Top { PlugRootRed(c, Blacken(t)); }
    PlugSameInOrder(c, Blacken(t), t);
    root := Plug(c, Blacken(t));
  }
}
