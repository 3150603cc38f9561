/**
 * The threaded red-black tree of src/RBTree.js: a balanced binary tree whose nodes are
 * also linked in in-order by `previous`/`next`.  The beach line and the circle-event
 * queue are both such trees.  Nodes are named by ids; the shape of the tree is the
 * value `root` (module RBNodes), and the thread is two maps from id to the
 * neighbouring id, which the operations update entry by entry as the source
 * updates the node fields.
 */
module RBTrees {
  import opened Wrappers
  import opened RBNodes
  import opened RBBalance

  /** `x` placed just after `node` in `s`, or first when there is no `node`. */
  function InsertAfter(s: seq<nat>, node: Option<nat>, x: nat): (r: seq<nat>)
    requires node.Some? ==> node.value in s
    ensures |r| == |s| + 1 && x in r
  {
    match node
    case None => [x] + s
    case Some(n) => s[..IndexOf(s, n) + 1] + [x] + s[IndexOf(s, n) + 1..]
  }

  /** `s` without its element `n`. */
  function Without(s: seq<nat>, n: nat): (r: seq<nat>)
    requires n in s
    ensures |r| == |s| - 1
  {
    s[..IndexOf(s, n)] + s[IndexOf(s, n) + 1..]
  }

  /** The `previous`/`next` maps thread the sequence `s` from first to last. */
  predicate Chained(s: seq<nat>, prev: map<nat, Option<nat>>, next: map<nat, Option<nat>>)
  {
    (forall y :: y in s ==> y in prev && y in next)
    && forall i :: 0 <= i < |s| ==> LinkedAt(s, i, prev, next)
  }

  /** The element at position `i` of `s` points back to its predecessor and on to its successor. */
  predicate LinkedAt(s: seq<nat>, i: nat, prev: map<nat, Option<nat>>, next: map<nat, Option<nat>>)
    requires i < |s|
  {
    s[i] in prev && s[i] in next
    && prev[s[i]] == (if i == 0 then None else Some(s[i - 1]))
    && next[s[i]] == (if i == |s| - 1 then None else Some(s[i + 1]))
  }

  /** Linking `x` in at position `k`, as RBTree.insertSuccessor does, threads the longer sequence. */
  lemma ChainInsert(s: seq<nat>, k: nat, x: nat,
                    prev: map<nat, Option<nat>>, next: map<nat, Option<nat>>,
                    prev': map<nat, Option<nat>>, next': map<nat, Option<nat>>)
    requires Chained(s, prev, next) && Distinct(s) && x !in s && k <= |s|
    requires x in prev' && prev'[x] == (if k == 0 then None else Some(s[k - 1]))
    requires x in next' && next'[x] == (if k == |s| then None else Some(s[k]))
    requires forall y :: y in s ==> y in prev' && prev'[y] == (if k < |s| && y == s[k] then Some(x) else prev[y])
    requires forall y :: y in s ==> y in next' && next'[y] == (if 0 < k && y == s[k - 1] then Some(x) else next[y])
    ensures Chained(s[..k] + [x] + s[k..], prev', next')
  {
    var t := s[..k] + [x] + s[k..];
    forall i | 0 <= i < |t|
      ensures LinkedAt(t, i, prev', next')
    {
      if i < k {
        assert t[i] == s[i] && s[i] in s && LinkedAt(s, i, prev, next);
        if k < |s| { assert s[i] != s[k]; }
        if 0 < i { assert t[i - 1] == s[i - 1]; }
        if i + 1 < k {
          assert t[i + 1] == s[i + 1] && s[i] != s[k - 1];
        } else {
          assert t[i + 1] == x;
        }
      } else if i == k {
        assert t[i] == x;
        if 0 < k { assert t[i - 1] == s[k - 1]; }
        if k < |s| { assert t[i + 1] == s[k]; }
      } else {
        assert t[i] == s[i - 1] && s[i - 1] in s && LinkedAt(s, i - 1, prev, next);
        if 0 < k { assert s[i - 1] != s[k - 1]; }
        if i - 1 > k {
          assert t[i - 1] == s[i - 2] && s[i - 1] != s[k];
        } else {
          assert t[i - 1] == x;
        }
        if i < |t| - 1 { assert t[i + 1] == s[i]; }
      }
    }
  }

  /** The `previous` links once `node` is unthreaded: its successor points back to its predecessor, and `node` to nothing. */
  function PrevWithout(prev: map<nat, Option<nat>>, next: map<nat, Option<nat>>, node: nat): map<nat, Option<nat>>
    requires node in prev && node in next
  {
    (match next[node] case Some(a) => prev[a := prev[node]] case None => prev)[node := None]
  }

  /** The `next` links once `node` is unthreaded: its predecessor points on to its successor, and `node` to nothing. */
  function NextWithout(prev: map<nat, Option<nat>>, next: map<nat, Option<nat>>, node: nat): map<nat, Option<nat>>
    requires node in prev && node in next
  {
    (match prev[node] case Some(b) => next[b := next[node]] case None => next)[node := None]
  }

  /** Unthreading `node` threads the sequence without it. */
  lemma ChainUnlink(s: seq<nat>, node: nat, prev: map<nat, Option<nat>>, next: map<nat, Option<nat>>)
    requires Chained(s, prev, next) && Distinct(s) && node in s
    ensures node in prev && node in next
    ensures Chained(Without(s, node), PrevWithout(prev, next, node), NextWithout(prev, next, node))
  {
    var k := IndexOf(s, node);
    assert LinkedAt(s, k, prev, next);
    ChainRemove(s, k, prev, next, PrevWithout(prev, next, node), NextWithout(prev, next, node));
  }

  /** Unlinking the element at position `k`, as RBTree.removeNode does, threads the shorter sequence. */
  lemma ChainRemove(s: seq<nat>, k: nat,
                    prev: map<nat, Option<nat>>, next: map<nat, Option<nat>>,
                    prev': map<nat, Option<nat>>, next': map<nat, Option<nat>>)
    requires Chained(s, prev, next) && Distinct(s) && k < |s|
    requires forall y :: y in s && y != s[k] ==>
      y in prev' && prev'[y] == (if k + 1 < |s| && y == s[k + 1] then prev[s[k]] else prev[y])
    requires forall y :: y in s && y != s[k] ==>
      y in next' && next'[y] == (if 0 < k && y == s[k - 1] then next[s[k]] else next[y])
    ensures Chained(s[..k] + s[k + 1..], prev', next')
  {
    var t := s[..k] + s[k + 1..];
    assert LinkedAt(s, k, prev, next);
    forall i | 0 <= i < |t|
      ensures LinkedAt(t, i, prev', next')
    {
      if i < k {
        assert t[i] == s[i] && s[i] in s && s[i] != s[k] && LinkedAt(s, i, prev, next);
        if k + 1 < |s| { assert s[i] != s[k + 1]; }
        if 0 < i { assert t[i - 1] == s[i - 1]; }
        if i + 1 < k {
          assert t[i + 1] == s[i + 1] && s[i] != s[k - 1];
        } else if i + 1 < |t| {
          assert t[i + 1] == s[k + 1];
        }
      } else {
        assert t[i] == s[i + 1] && s[i + 1] in s && s[i + 1] != s[k] && LinkedAt(s, i + 1, prev, next);
        if 0 < k { assert s[i + 1] != s[k - 1]; }
        if i == k {
          if 0 < k { assert t[i - 1] == s[k - 1]; }
        } else {
          assert t[i - 1] == s[i] && s[i + 1] != s[k + 1];
        }
        if i + 1 < |t| { assert t[i + 1] == s[i + 2]; }
      }
    }
    assert forall y :: y in t ==> y in s && y != s[k];
  }

  lemma DistinctInsert(a: seq<nat>, x: nat, b: seq<nat>)
    requires Distinct(a + b) && x !in a + b
    ensures Distinct(a + [x] + b)
  {
    var s, t := a + b, a + [x] + b;
    forall i, j | 0 <= i < j < |t|
      ensures t[i] != t[j]
    {
      if i < |a| && j == |a| {
        assert t[i] == s[i];
      } else if i == |a| {
        assert t[j] == s[j - 1];
      } else {
        var i' := if i < |a| then i else i - 1;
        var j' := if j < |a| then j else j - 1;
        assert t[i] == s[i'] && t[j] == s[j'];
      }
    }
  }

  lemma DistinctRemove(a: seq<nat>, x: nat, b: seq<nat>)
    requires Distinct(a + [x] + b)
    ensures Distinct(a + b)
  {
    var s, t := a + [x] + b, a + b;
    forall i, j | 0 <= i < j < |t|
      ensures t[i] != t[j]
    {
      var i' := if i < |a| then i else i + 1;
      var j' := if j < |a| then j else j + 1;
      assert t[i] == s[i'] && t[j] == s[j'];
    }
  }

  /** The black height of a plugged tree depends on the plugged subtree only through its own black height. */
  lemma {:induction false} PlugBlackHeight(c: Ctx, t: Tree, u: Tree)
    requires BlackHeight(t) == BlackHeight(u)
    ensures BlackHeight(Plug(c, t)) == BlackHeight(Plug(c, u))
    decreases c
  {
    match c
    case Top =>
    case LeftOf(red, k, r, up) => PlugBlackHeight(up, Node(red, t, k, r), Node(red, u, k, r));
    case RightOf(red, l, k, up) => PlugBlackHeight(up, Node(red, l, k, t), Node(red, l, k, u));
  }

  /** A black subtree of black height zero is empty. */
  lemma BlackZero(t: Tree)
    requires !IsRed(t) && BlackHeight(t) == 0
    ensures t == Nil
  {
  }

  /** The new leaf goes to the left of the first node of `node`'s right subtree, where a leaf was. */
  lemma LeafAfterRightPlace(c: Ctx, tn: Tree, c2: Ctx, first: Tree)
    requires tn.Node? && first.Node? && first.left == Nil && Plug(c2, first) == tn.right
    ensures Plug(LeftOf(first.red, first.id, first.right, Compose(c2, RightOf(tn.red, tn.left, tn.id, c))), Nil)
         == Plug(c, tn)
  {
    PlugCompose(c2, RightOf(tn.red, tn.left, tn.id, c), first);
  }

  /** ... and it comes right after `node` in in-order. */
  lemma LeafAfterRightOrder(c: Ctx, red: bool, l: Tree, id: nat, c2: Ctx, first: Tree, x: nat)
    requires first.Node? && first.left == Nil && Before(c2) == []
    ensures InOrder(Plug(LeftOf(first.red, first.id, first.right, Compose(c2, RightOf(red, l, id, c))),
                         Node(true, Nil, x, Nil)))
         == Before(c) + (InOrder(l) + [id] + ([x] + InOrder(Plug(c2, first)))) + After(c)
  {
    var up := RightOf(red, l, id, c);
    var first' := Node(first.red, Node(true, Nil, x, Nil), first.id, first.right);
    PlugCompose(c2, up, first');
    LeafFirst(c2, first, x);
    PlugInOrder(c, Node(red, l, id, Plug(c2, first')));
  }

  /** With no right subtree, the new leaf becomes `node`'s right child, right after `node` in in-order. */
  lemma LeafAfterNoRight(c: Ctx, tn: Tree, x: nat)
    requires tn.Node? && tn.right == Nil
    ensures InOrder(Plug(RightOf(tn.red, tn.left, tn.id, c), Node(true, Nil, x, Nil)))
         == Before(c) + (InOrder(tn.left) + [tn.id] + ([x] + InOrder(tn.right))) + After(c)
  {
    var n' := Node(tn.red, tn.left, tn.id, Node(true, Nil, x, Nil));
    assert InOrder(Node(true, Nil, x, Nil)) == [x];
    PlugInOrder(c, n');
  }

  /** With no `node`, the new leaf becomes the left child of the first node of the tree, first in in-order. */
  lemma LeafFirst(c2: Ctx, first: Tree, x: nat)
    requires first.Node? && first.left == Nil && Before(c2) == []
    ensures InOrder(Plug(LeftOf(first.red, first.id, first.right, c2), Node(true, Nil, x, Nil)))
         == [x] + InOrder(Plug(c2, first))
  {
    var first' := Node(first.red, Node(true, Nil, x, Nil), first.id, first.right);
    assert InOrder(first') == [x] + InOrder(first) by {
      assert InOrder(Node(true, Nil, x, Nil)) == [x];
    }
    PlugInOrder(c2, first);
    PlugInOrder(c2, first');
  }

  /** Splicing out a node with at most one child: the child takes its place. */
  lemma SpliceOne(c: Ctx, tn: Tree, child: Tree)
    requires IsRB(Plug(c, tn)) && tn.Node?
    requires (tn.left == Nil && child == tn.right) || (tn.right == Nil && child == tn.left)
    ensures tn.red ==> IsRB(Plug(c, child))
    ensures !tn.red ==> RemoveInv(c, child)
    ensures InOrder(Plug(c, child)) == Before(c) + InOrder(tn.left) + InOrder(tn.right) + After(c)
  {
    SpliceOrder(c, tn, child);
    if tn.red {
      SpliceRed(c, tn, child);
    } else {
      SpliceBlack(c, tn, child);
    }
  }

  /** ... and the in-order sequence loses exactly the spliced-out node. */
  lemma SpliceOrder(c: Ctx, tn: Tree, child: Tree)
    requires tn.Node?
    requires (tn.left == Nil && child == tn.right) || (tn.right == Nil && child == tn.left)
    ensures InOrder(Plug(c, child)) == Before(c) + InOrder(tn.left) + InOrder(tn.right) + After(c)
  {
    var l, r := InOrder(tn.left), InOrder(tn.right);
    assert InOrder(child) == l + r by {
      if tn.left == Nil && child == tn.right {
        assert l == [];
      } else {
        assert r == [];
      }
    }
    PlugInOrder(c, child);
    Regroup3(Before(c), l, r, After(c));
  }

  lemma Regroup3(b: seq<nat>, l: seq<nat>, r: seq<nat>, a: seq<nat>)
    ensures b + (l + r) + a == b + l + r + a
  {
  }

  /** Splicing out a red node with at most one child keeps the tree red-black. */
  lemma SpliceRed(c: Ctx, tn: Tree, child: Tree)
    requires IsRB(Plug(c, tn)) && tn.Node? && tn.red
    requires (tn.left == Nil && child == tn.right) || (tn.right == Nil && child == tn.left)
    ensures IsRB(Plug(c, child))
  {
    UnplugBalanced(c, tn);
    UnplugNoRedRed(c, tn);
    assert c != Top;
    PlugRootRed(c, tn);
    PlugBalanced(c, child);
    PlugNoRedRed(c, child);
    PlugRootRed(c, child);
  }

  /** Splicing out a black node with at most one child leaves the child one black short, as RemoveFixup expects. */
  lemma SpliceBlack(c: Ctx, tn: Tree, child: Tree)
    requires IsRB(Plug(c, tn)) && tn.Node? && !tn.red
    requires (tn.left == Nil && child == tn.right) || (tn.right == Nil && child == tn.left)
    ensures RemoveInv(c, child)
  {
    UnplugBalanced(c, tn);
    UnplugNoRedRed(c, tn);
    if c != Top { PlugRootRed(c, tn); }
  }

  /** Re-labelling the first node of a subtree keeps the subtree's red-black properties. */
  lemma RelabelFirst(c2: Ctx, first: Tree, id: nat)
    requires Balanced(Plug(c2, first)) && NoRedRed(Plug(c2, first)) && first.Node? && first.left == Nil
    ensures var y := Node(first.red, Nil, id, first.right);
      Balanced(Plug(c2, y)) && NoRedRed(Plug(c2, y))
      && BlackHeight(Plug(c2, y)) == BlackHeight(Plug(c2, first)) && IsRed(Plug(c2, y)) == IsRed(Plug(c2, first))
  {
    var y := Node(first.red, Nil, id, first.right);
    UnplugBalanced(c2, first);
    UnplugNoRedRed(c2, first);
    PlugBalanced(c2, y);
    PlugNoRedRed(c2, y);
    PlugBlackHeight(c2, y, first);
    if c2 != Top {
      PlugRootRed(c2, y);
      PlugRootRed(c2, first);
    }
  }

  /** Replacing a node's id and its right subtree by one of the same black height and root colour keeps the tree red-black. */
  lemma RelabelRight(c: Ctx, red: bool, l: Tree, id: nat, u: Tree, id': nat, u': Tree)
    requires IsRB(Plug(c, Node(red, l, id, u)))
    requires Balanced(u') && NoRedRed(u') && BlackHeight(u') == BlackHeight(u) && IsRed(u') == IsRed(u)
    ensures IsRB(Plug(c, Node(red, l, id', u')))
  {
    UnplugBalanced(c, Node(red, l, id, u));
    UnplugNoRedRed(c, Node(red, l, id, u));
    PlugBalanced(c, Node(red, l, id', u'));
    PlugNoRedRed(c, Node(red, l, id', u'));
    if c != Top {
      PlugRootRed(c, Node(red, l, id', u'));
      PlugRootRed(c, Node(red, l, id, u));
    }
  }

  /**
   * Splicing out a node with two children: its successor `first` (the first node of its
   * right subtree) takes its place and colour, and `first.right` takes `first`'s place.
   */
  lemma SpliceTwo(c: Ctx, red: bool, l: Tree, id: nat, c2: Ctx, first: Tree)
    requires IsRB(Plug(c, Node(red, l, id, Plug(c2, first))))
    requires first.Node? && first.left == Nil && Before(c2) == []
    ensures var ctx := Compose(c2, RightOf(red, l, first.id, c));
      (first.red ==> IsRB(Plug(ctx, first.right)))
      && (!first.red ==> RemoveInv(ctx, first.right))
  {
    var up := RightOf(red, l, first.id, c);
    var ctx := Compose(c2, up);
    var y := Node(first.red, Nil, id, first.right);
    UnplugBalanced(c, Node(red, l, id, Plug(c2, first)));
    UnplugNoRedRed(c, Node(red, l, id, Plug(c2, first)));
    RelabelFirst(c2, first, id);
    RelabelRight(c, red, l, id, Plug(c2, first), first.id, Plug(c2, y));
    PlugCompose(c2, up, y);
    UnplugBalanced(ctx, y);
    UnplugNoRedRed(ctx, y);
    PlugRootRed(ctx, y);
    if first.red {
      BlackZero(first.right);
      PlugBalanced(ctx, Nil);
      PlugNoRedRed(ctx, Nil);
      PlugRootRed(ctx, Nil);
    }
  }

  /** ... and the in-order sequence loses exactly the spliced-out id. */
  lemma SpliceTwoOrder(c: Ctx, red: bool, l: Tree, id: nat, c2: Ctx, first: Tree)
    requires first.Node? && first.left == Nil && Before(c2) == []
    ensures InOrder(Plug(Compose(c2, RightOf(red, l, first.id, c)), first.right))
         == Before(c) + (InOrder(l) + InOrder(Plug(c2, first))) + After(c)
  {
    PlugCompose(c2, RightOf(red, l, first.id, c), first.right);
    SuccessorInPlace(c, red, l, c2, first);
  }

  lemma SuccessorInPlace(c: Ctx, red: bool, l: Tree, c2: Ctx, first: Tree)
    requires first.Node? && first.left == Nil && Before(c2) == []
    ensures InOrder(Plug(c, Node(red, l, first.id, Plug(c2, first.right))))
         == Before(c) + (InOrder(l) + InOrder(Plug(c2, first))) + After(c)
  {
    var node := Node(red, l, first.id, Plug(c2, first.right));
    var P, X := InOrder(Plug(c2, first.right)), InOrder(Plug(c2, first));
    assert P == InOrder(first.right) + After(c2) by { PlugInOrder(c2, first.right); }
    assert X == [first.id] + InOrder(first.right) + After(c2) by {
      PlugInOrder(c2, first);
      assert InOrder(first) == [first.id] + InOrder(first.right);
    }
    assert InOrder(node) == InOrder(l) + [first.id] + P;
    PlugInOrder(c, node);
    Regroup(Before(c), InOrder(l), first.id, InOrder(first.right), After(c2), After(c), P, X);
  }

  lemma Regroup(b: seq<nat>, l: seq<nat>, k: nat, f: seq<nat>, a2: seq<nat>, a: seq<nat>, p: seq<nat>, x: seq<nat>)
    requires p == f + a2 && x == [k] + f + a2
    ensures b + (l + [k] + p) + a == b + (l + x) + a
  {
    assert l + [k] + p == l + x;
  }

  /** Inserting after `n` in a sequence without repeats that holds `n` between `b + l` and `r + a`. */
  lemma InsertAfterAt(b: seq<nat>, l: seq<nat>, n: nat, r: seq<nat>, a: seq<nat>, x: nat)
    requires Distinct(b + (l + [n] + r) + a)
    ensures var s := b + (l + [n] + r) + a;
      n in s && InsertAfter(s, Some(n), x) == b + (l + [n] + ([x] + r)) + a
  {
    var s := b + (l + [n] + r) + a;
    var k := |b| + |l|;
    assert s[k] == n;
    DistinctIndex(s, k);
    assert s[..k + 1] == b + l + [n];
    assert s[k + 1..] == r + a;
    calc {
      InsertAfter(s, Some(n), x);
      s[..k + 1] + [x] + s[k + 1..];
      (b + l + [n]) + [x] + (r + a);
      b + (l + [n] + ([x] + r)) + a;
    }
  }

  /** Removing `n` from a sequence without repeats that holds `n` between `b + l` and `r + a`. */
  lemma WithoutAt(b: seq<nat>, l: seq<nat>, n: nat, r: seq<nat>, a: seq<nat>)
    requires Distinct(b + (l + [n] + r) + a)
    ensures var s := b + (l + [n] + r) + a;
      n in s && Without(s, n) == b + (l + r) + a
  {
    var s := b + (l + [n] + r) + a;
    var k := |b| + |l|;
    assert s[k] == n;
    DistinctIndex(s, k);
    assert s[..k] == b + l;
    assert s[k + 1..] == r + a;
  }

  /** A red-black tree threaded in in-order: RBTree with the `previous`/`next` fields of its nodes. */
  class RBTree {
    var root: Tree
    var previous: map<nat, Option<nat>>
    var next: map<nat, Option<nat>>

    /** The ids in the tree, in in-order. */
    function Elements(): seq<nat>
      reads this
    {
      InOrder(root)
    }

    /** The red-black rules hold, no id occurs twice, and the thread follows the in-order sequence. */
    predicate Valid()
      reads this
    {
      IsRB(root) && Distinct(InOrder(root)) && Chained(InOrder(root), previous, next)
    }

    /** RBTree.constructor: an empty tree. */
    constructor()
      ensures Valid() && Elements() == []
    {
      root := Nil;
      previous := map[];
      next := map[];
    }

    /**
     * RBTree.insertSuccessor: link `successor` in right after `node` (first when there is
     * no `node`), attach it as a red leaf where in-order puts it, and rebalance.
     */
    method InsertSuccessor(node: Option<nat>, successor: nat)
      requires Valid() && successor !in Elements()
      requires node.Some? ==> node.value in Elements()
      modifies this
      ensures Valid()
      ensures Elements() == InsertAfter(old(Elements()), node, successor)
    {
      LinkIn(node, successor);
      var leaf := LeafFor(node, successor);
      InsertedDistinct(Elements(), node, successor);
      root := InsertFixup(leaf, successor);
    }

    /** The thread part of insertSuccessor: `successor` gets its neighbours and they get it. */
    method LinkIn(node: Option<nat>, successor: nat)
      requires Valid() && successor !in Elements()
      requires node.Some? ==> node.value in Elements()
      modifies this
      ensures root == old(root)
      ensures Chained(InsertAfter(Elements(), node, successor), previous, next)
    {
      ghost var s := InOrder(root);
      ghost var k: nat := if node.Some? then IndexOf(s, node.value) + 1 else 0;
      if node.Some? {
        var n := node.value;
        assert LinkedAt(s, k - 1, previous, next);
        var after := next[n];
        previous := previous[successor := Some(n)];
        next := next[successor := after];
        if after.Some? {
          previous := previous[after.value := Some(successor)];
        }
        next := next[n := Some(successor)];
      } else if root != Nil {
        var c2, first := GetFirst(root);
        previous := previous[successor := None];
        next := next[successor := Some(first.id)];
        previous := previous[first.id := Some(successor)];
      } else {
        previous := previous[successor := None];
        next := next[successor := None];
      }
      ChainInsert(s, k, successor, old(previous), old(next), previous, next);
      assert InsertAfter(s, node, successor) == s[..k] + [successor] + s[k..];
    }

    /** The tree part of insertSuccessor: the leaf position where `successor` is attached. */
    method LeafFor(node: Option<nat>, successor: nat) returns (leaf: Ctx)
      requires IsRB(root) && Distinct(Elements())
      requires node.Some? ==> node.value in Elements()
      ensures IsRB(Plug(leaf, Nil))
      ensures InOrder(Plug(leaf, Node(true, Nil, successor, Nil))) == InsertAfter(Elements(), node, successor)
    {
      if node.Some? {
        var n := node.value;
        var z := Find(Top, root, n);
        var c, tn := z.value.0, z.value.1;
        if tn.right != Nil {
          var c2, first := GetFirst(tn.right);
          leaf := LeftOf(first.red, first.id, first.right, Compose(c2, RightOf(tn.red, tn.left, tn.id, c)));
          LeafAfterRightPlace(c, tn, c2, first);
          LeafAfterRightOrder(c, tn.red, tn.left, tn.id, c2, first, successor);
        } else {
          leaf := RightOf(tn.red, tn.left, tn.id, c);
          LeafAfterNoRight(c, tn, successor);
        }
        AfterNode(c, tn, Elements(), successor);
      } else if root != Nil {
        var c2, first := GetFirst(root);
        leaf := LeftOf(first.red, first.id, first.right, c2);
        LeafFirst(c2, first, successor);
      } else {
        leaf := Top;
      }
    }

    /**
     * RBTree.removeNode: unlink `node` from the thread, splice it out of the tree (its
     * successor takes its place when it has two children), and rebalance.
     */
    method RemoveNode(node: nat)
      requires Valid() && node in Elements()
      modifies this
      ensures Valid()
      ensures Elements() == Without(old(Elements()), node)
      ensures node in previous && node in next && previous[node] == None && next[node] == None
    {
      Unlink(node);
      var r := Detach(node);
      RemovedDistinct(Elements(), node);
      root := r;
    }

    /** The thread part of removeNode: the neighbours of `node` are linked to each other, and `node` to nothing. */
    method Unlink(node: nat)
      requires Valid() && node in Elements()
      modifies this
      ensures root == old(root)
      ensures Chained(Without(Elements(), node), previous, next)
      ensures node in previous && node in next && previous[node] == None && next[node] == None
    {
      ChainUnlink(Elements(), node, previous, next);
      var before, after := previous[node], next[node];
      if after.Some? {
        previous := previous[after.value := before];
      }
      if before.Some? {
        next := next[before.value := after];
      }
      previous := previous[node := None];
      next := next[node := None];
      assert previous == PrevWithout(old(previous), old(next), node) && next == NextWithout(old(previous), old(next), node);
    }

    /** The tree part of removeNode: the new root once `node` is spliced out and the tree rebalanced. */
    method Detach(node: nat) returns (r: Tree)
      requires IsRB(root) && Distinct(Elements()) && node in Elements()
      ensures IsRB(r)
      ensures InOrder(r) == Without(Elements(), node)
    {
      var z := Find(Top, root, node);
      var c, tn := z.value.0, z.value.1;
      if tn.left == Nil || tn.right == Nil {
        r := SpliceOutOne(c, tn);
      } else {
        r := SpliceOutTwo(c, tn);
      }
      AtNode(c, tn, Elements());
    }

    /**
     * RBTree.rotateLeft: rotate the node at the focus of `c`; the tree's root becomes the
     * promoted right child exactly when the rotated node had no parent.  The thread is untouched.
     */
    method RotateLeft(c: Ctx, t: Tree)
      requires Valid() && root == Plug(c, t) && t.Node? && t.right.Node?
      modifies this
      ensures root == RotateLeftAt(c, t)
      ensures root.id == t.right.id <==> c == Top
      ensures Elements() == old(Elements()) && previous == old(previous) && next == old(next)
    {
      root := RotateLeftAt(c, t);
    }

    /** RBTree.rotateRight: the mirror image of RotateLeft. */
    method RotateRight(c: Ctx, t: Tree)
      requires Valid() && root == Plug(c, t) && t.Node? && t.left.Node?
      modifies this
      ensures root == RotateRightAt(c, t)
      ensures root.id == t.left.id <==> c == Top
      ensures Elements() == old(Elements()) && previous == old(previous) && next == old(next)
    {
      root := RotateRightAt(c, t);
    }
  }

  /** removeNode for a node with at most one child: the child takes its place; a black node's place is repaired. */
  method SpliceOutOne(c: Ctx, tn: Tree) returns (r: Tree)
    requires IsRB(Plug(c, tn)) && tn.Node? && (tn.left == Nil || tn.right == Nil)
    ensures IsRB(r)
    ensures InOrder(r) == Before(c) + (InOrder(tn.left) + InOrder(tn.right)) + After(c)
  {
    var child := if tn.left == Nil then tn.right else tn.left;
    SpliceOne(c, tn, child);
    if tn.red {
      r := Plug(c, child);
    } else {
      r := RemoveFixup(c, child);
    }
  }

  /** removeNode for a node with two children: its successor takes its place and colour; a black successor's place is repaired. */
  method SpliceOutTwo(c: Ctx, tn: Tree) returns (r: Tree)
    requires IsRB(Plug(c, tn)) && tn.Node? && tn.left != Nil && tn.right != Nil
    ensures IsRB(r)
    ensures InOrder(r) == Before(c) + (InOrder(tn.left) + InOrder(tn.right)) + After(c)
  {
    var c2, first := GetFirst(tn.right);
    var ctx := Compose(c2, RightOf(tn.red, tn.left, first.id, c));
    assert tn == Node(tn.red, tn.left, tn.id, Plug(c2, first));
    SpliceTwo(c, tn.red, tn.left, tn.id, c2, first);
    SpliceTwoOrder(c, tn.red, tn.left, tn.id, c2, first);
    if first.red {
      r := Plug(ctx, first.right);
    } else {
      r := RemoveFixup(ctx, first.right);
    }
  }

  /** Removing the node `tn` found at `c` joins what comes before it to what comes after it. */
  lemma AtNode(c: Ctx, tn: Tree, s: seq<nat>)
    requires tn.Node? && s == InOrder(Plug(c, tn)) && Distinct(s)
    ensures tn.id in s
    ensures Without(s, tn.id) == Before(c) + (InOrder(tn.left) + InOrder(tn.right)) + After(c)
  {
    PlugInOrder(c, tn);
    assert s == Before(c) + (InOrder(tn.left) + [tn.id] + InOrder(tn.right)) + After(c);
    WithoutAt(Before(c), InOrder(tn.left), tn.id, InOrder(tn.right), After(c));
  }

  lemma RemovedDistinct(s: seq<nat>, n: nat)
    requires Distinct(s) && n in s
    ensures Distinct(Without(s, n))
  {
    var k := IndexOf(s, n);
    assert s == s[..k] + [n] + s[k + 1..];
    DistinctRemove(s[..k], n, s[k + 1..]);
  }

  /** Inserting after the node `tn` found at `c` puts the new id between `tn` and the rest of the sequence. */
  lemma AfterNode(c: Ctx, tn: Tree, s: seq<nat>, x: nat)
    requires tn.Node? && s == InOrder(Plug(c, tn)) && Distinct(s)
    ensures tn.id in s
    ensures InsertAfter(s, Some(tn.id), x) == Before(c) + (InOrder(tn.left) + [tn.id] + ([x] + InOrder(tn.right))) + After(c)
  {
    PlugInOrder(c, tn);
    assert s == Before(c) + (InOrder(tn.left) + [tn.id] + InOrder(tn.right)) + After(c);
    InsertAfterAt(Before(c), InOrder(tn.left), tn.id, InOrder(tn.right), After(c), x);
  }

  lemma InsertedDistinct(s: seq<nat>, node: Option<nat>, x: nat)
    requires Distinct(s) && x !in s && (node.Some? ==> node.value in s)
    ensures Distinct(InsertAfter(s, node, x))
  {
    var k := if node.Some? then IndexOf(s, node.value) + 1 else 0;
    assert s[..k] + s[k..] == s;
    DistinctInsert(s[..k], x, s[k..]);
  }
}
