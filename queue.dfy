/**
 * The search attachCircleEvent (src/Voronoi.js) makes in the circle-event tree to find
 * the predecessor of a new event: it walks down from the root, left when the new event
 * is not after the node (same y and smaller or equal x counts as not after), right
 * otherwise, and stops at the first missing child.
 */
module CircleQueue {
  import opened Wrappers
  import opened RBNodes
  import opened RBTrees
  import opened SweepOrder

  /** The last element of `b`, if any: the node a new element placed after all of `b` follows. */
  function Last(b: seq<nat>): (r: Option<nat>)
    ensures r.Some? <==> b != []
  {
    if b == [] then None else Some(b[|b| - 1])
  }

  /** Inserting after the last element of a prefix puts the new element between the prefix and the rest. */
  lemma InsertAfterLast(b: seq<nat>, a: seq<nat>, x: nat)
    requires Distinct(b + a)
    ensures Last(b).Some? ==> Last(b).value in b + a
    ensures InsertAfter(b + a, Last(b), x) == b + [x] + a
  {
    var s := b + a;
    if b != [] {
      var k := |b| - 1;
      assert s[k] == b[k];
      DistinctIndex(s, k);
      assert s[..k + 1] == b && s[k + 1..] == a;
    }
  }

  /**
   * The predecessor attachCircleEvent finds for the event `c` in the sorted queue `t`:
   * the queue splits into `b`, every event strictly before `c`, and `a`, every event
   * `c` is not after; the predecessor is the last of `b`.
   */
  method SearchQueue(t: RBTree, ev: map<nat, CircleEvent>, c: CircleEvent) returns (pred: Option<nat>, ghost b: seq<nat>, ghost a: seq<nat>)
    requires t.Valid() && QueueSorted(t.Elements(), ev)
    ensures t.Elements() == b + a && pred == Last(b)
    ensures forall e :: e in b ==> !NotAfter(c, ev[e])
    ensures forall e :: e in a ==> NotAfter(c, ev[e])
  {
    var q := t.Elements();
    if t.root == Nil {
      return None, [], [];
    }
    var ctx, node := Top, t.root;
    while true
      invariant node.Node? && Plug(ctx, node) == t.root
      invariant forall e :: e in Before(ctx) ==> e in ev && !NotAfter(c, ev[e])
      invariant forall e :: e in After(ctx) ==> e in ev && NotAfter(c, ev[e])
      decreases node
    {
      PlugInOrder(ctx, node);
      var l, r := InOrder(node.left), InOrder(node.right);
      assert q == Before(ctx) + (l + [node.id] + r) + After(ctx);
      if NotAfter(c, ev[node.id]) {
        StepNotAfter(Before(ctx), l, node.id, r, After(ctx), ev, c);
        if node.left != Nil {
          ctx, node := LeftOf(node.red, node.id, node.right, ctx), node.left;
        } else {
          b, a := Before(ctx), [node.id] + r + After(ctx);
          assert q == b + a;
          PreviousIsLast(q, b, a, t.previous, t.next);
          pred := t.previous[node.id];
          return;
        }
      } else {
        StepBefore(Before(ctx), l, node.id, r, After(ctx), ev, c);
        if node.right != Nil {
          ctx, node := RightOf(node.red, node.left, node.id, ctx), node.right;
        } else {
          b, a := Before(ctx) + l + [node.id], After(ctx);
          assert q == b + a;
          pred := Some(node.id);
          return;
        }
      }
    }
  }

  /** A node `c` is not after, with everything after it in the sorted queue: `c` is not after any of them. */
  lemma StepNotAfter(b: seq<nat>, l: seq<nat>, n: nat, r: seq<nat>, a: seq<nat>, ev: map<nat, CircleEvent>, c: CircleEvent)
    requires QueueSorted(b + (l + [n] + r) + a, ev) && NotAfter(c, ev[n])
    requires forall e :: e in a ==> e in ev && NotAfter(c, ev[e])
    ensures forall e :: e in [n] + r + a ==> e in ev && NotAfter(c, ev[e])
  {
    SortedAround(b, l, n, r, a, ev);
    forall e | e in r ensures e in ev && NotAfter(c, ev[e]) {
      assert e in r + a;
      NotAfterTotal(c, ev[n], ev[e]);
    }
  }

  /** A node `c` is after, with everything before it in the sorted queue: `c` is after all of them. */
  lemma StepBefore(b: seq<nat>, l: seq<nat>, n: nat, r: seq<nat>, a: seq<nat>, ev: map<nat, CircleEvent>, c: CircleEvent)
    requires QueueSorted(b + (l + [n] + r) + a, ev) && !NotAfter(c, ev[n])
    requires forall e :: e in b ==> e in ev && !NotAfter(c, ev[e])
    ensures forall e :: e in b + l + [n] ==> e in ev && !NotAfter(c, ev[e])
  {
    SortedAround(b, l, n, r, a, ev);
    forall e | e in l ensures e in ev && !NotAfter(c, ev[e]) {
      assert e in b + l;
      NotAfterTotal(c, ev[e], ev[n]);
    }
  }

  /** In a threaded sequence split as `b + a`, the first of `a` points back to the last of `b`. */
  lemma PreviousIsLast(q: seq<nat>, b: seq<nat>, a: seq<nat>, prev: map<nat, Option<nat>>, next: map<nat, Option<nat>>)
    requires Chained(q, prev, next) && q == b + a && a != []
    ensures a[0] in prev && prev[a[0]] == Last(b)
  {
    var k := |b|;
    assert q[k] == a[0];
    assert LinkedAt(q, k, prev, next);
    if k > 0 {
      assert q[k - 1] == b[k - 1];
    }
  }

  /** Where the new event lands: at its rank, after the events strictly before it. */
  lemma SearchRank(b: seq<nat>, a: seq<nat>, x: nat, ev: map<nat, CircleEvent>, c: CircleEvent)
    requires Distinct(b + a) && forall e :: e in b + a ==> e in ev
    requires forall e :: e in b ==> !NotAfter(c, ev[e])
    requires forall e :: e in a ==> NotAfter(c, ev[e])
    ensures var q := b + a; var k := Rank(q, ev, c);
      InsertAfter(q, Last(b), x) == q[..k] + [x] + q[k..]
  {
    RankSplit(b, a, ev, c);
    InsertAfterLast(b, a, x);
    assert (b + a)[..|b|] == b && (b + a)[|b|..] == a;
  }
}
